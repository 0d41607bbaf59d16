/** The key/value scanner of `StreamIDComponents#merge_str!`
    (lib/rbsrt/streamid_components.rb:67): Ruby's `String#scan` with
    /([a-z0-9_-]+?)=(.+?)(,|$)/i, and the comma join `to_s` uses to print
    pairs (lib/rbsrt/streamid_components.rb:41-52).

    Regex semantics, spelled out: a match may start only where a run of key
    characters begins and is directly followed by `=`; the lazy key then is
    that whole run; the lazy value is the shortest non-empty stretch without
    a newline that is followed by `,`, a newline or the end (the first value
    character may itself be a comma); a following `,` is consumed, a newline
    is not. Scanning resumes after the match, or one character further on
    when no match starts here. Only ASCII letters are modelled as letters. */
module StreamIdScan {
  import opened Wrappers

  /** [a-z0-9_-] under the /i flag. */
  predicate IsKeyChar(c: char) {
    ('a' <= c <= 'z') || ('A' <= c <= 'Z') || ('0' <= c <= '9') || c == '_' || c == '-'
  }

  /** Where `(,|$)` can match: before a comma or a newline. */
  predicate EndsValue(c: char) {
    c == ',' || c == '\n'
  }

  /** The length of the run of key characters at the start of `s`. */
  function KeyEnd(s: string): (e: nat)
    ensures e <= |s|
    ensures forall i :: 0 <= i < e ==> IsKeyChar(s[i])
    ensures e < |s| ==> !IsKeyChar(s[e])
  {
    if s == [] || !IsKeyChar(s[0]) then 0 else 1 + KeyEnd(s[1..])
  }

  /** The first position at or after `j` where a value may stop. */
  function ValueStop(s: string, j: nat): (e: nat)
    requires j <= |s|
    ensures j <= e <= |s|
    ensures forall i :: j <= i < e ==> !EndsValue(s[i])
    ensures e < |s| ==> EndsValue(s[e])
    decreases |s| - j
  {
    if j == |s| || EndsValue(s[j]) then j else ValueStop(s, j + 1)
  }

  datatype Pair = Pair(key: string, value: string)

  /** Reference: the regex matches at the start of `s` with these groups,
      consuming `n` characters. */
  predicate Matches(s: string, p: Pair, n: nat) {
    var v := |p.key| + 1;
    var w := v + |p.value|;
    && |p.key| > 0 && |p.value| > 0 && w <= |s|
    && s[..|p.key|] == p.key && s[|p.key|] == '=' && s[v..w] == p.value
    && (forall i :: 0 <= i < |p.key| ==> IsKeyChar(p.key[i]))
    && p.value[0] != '\n'
    && (forall i :: 1 <= i < |p.value| ==> !EndsValue(p.value[i]))
    && (w == |s| || EndsValue(s[w]))
    && n == (if w < |s| && s[w] == ',' then w + 1 else w)
  }

  /** One match attempt anchored at the start of `s`. */
  function MatchHere(s: string): (r: Option<(Pair, nat)>)
    ensures r.Some? ==> 3 <= r.value.1 <= |s|
    ensures r.Some? ==> |r.value.0.key| > 0 && |r.value.0.value| > 0
    ensures r.Some? ==> forall i :: 0 <= i < |r.value.0.key| ==> IsKeyChar(r.value.0.key[i])
  {
    var e := KeyEnd(s);
    if e == 0 || e + 1 >= |s| || s[e] != '=' || s[e + 1] == '\n' then None
    else
      var stop := ValueStop(s, e + 2);
      Some((Pair(s[..e], s[e + 1..stop]), if stop < |s| && s[stop] == ',' then stop + 1 else stop))
  }

  /** `KeyEnd` finds the end of any run of key characters that stops. */
  lemma {:induction false} KeyEndOfRun(s: string, e: nat)
    requires e <= |s| && forall i :: 0 <= i < e ==> IsKeyChar(s[i])
    requires e < |s| ==> !IsKeyChar(s[e])
    ensures KeyEnd(s) == e
    decreases e
  {
    if e > 0 {
      KeyEndOfRun(s[1..], e - 1);
    }
  }

  /** `ValueStop` finds the first stop character at or after `j`. */
  lemma {:induction false} ValueStopAt(s: string, j: nat, w: nat)
    requires j <= w <= |s| && forall i :: j <= i < w ==> !EndsValue(s[i])
    requires w < |s| ==> EndsValue(s[w])
    ensures ValueStop(s, j) == w
    decreases w - j
  {
    if j < w {
      ValueStopAt(s, j + 1, w);
    }
  }

  /** A match the regex describes is the one the attempt finds. */
  lemma MatchesIsMatchHere(s: string, p: Pair, n: nat)
    requires Matches(s, p, n)
    ensures MatchHere(s) == Some((p, n))
  {
    var e := |p.key|;
    assert forall i :: 0 <= i < e ==> s[i] == p.key[i] by {
      assert s[..e] == p.key;
    }
    KeyEndOfRun(s, e);
    var w := e + 1 + |p.value|;
    assert forall i :: e + 2 <= i < w ==> s[i] == p.value[i - e - 1] by {
      assert s[e + 1..w] == p.value;
    }
    ValueStopAt(s, e + 2, w);
    assert s[e + 1] == p.value[0];
    MatchHereAt(s, e, w);
  }

  /** One unfolding of the attempt once the key end and value stop are known. */
  lemma MatchHereAt(s: string, e: nat, w: nat)
    requires 0 < e && e + 1 < |s| && s[e] == '=' && s[e + 1] != '\n'
    requires KeyEnd(s) == e && ValueStop(s, e + 2) == w
    ensures MatchHere(s) == Some((Pair(s[..e], s[e + 1..w]), if w < |s| && s[w] == ',' then w + 1 else w))
  {
  }

  /** What the attempt finds is a match the regex describes. */
  lemma MatchHereIsMatches(s: string)
    requires MatchHere(s).Some?
    ensures Matches(s, MatchHere(s).value.0, MatchHere(s).value.1)
  {
    var p := MatchHere(s).value.0;
    var e := KeyEnd(s);
    var stop := ValueStop(s, e + 2);
    assert p.key == s[..e];
    assert p.value == s[e + 1..stop];
    forall i | 1 <= i < |p.value| ensures !EndsValue(p.value[i]) {
      assert p.value[i] == s[e + 1 + i];
    }
  }

  /** Ruby's `scan`: every non-overlapping leftmost match, in order. */
  function Scan(s: string): (ps: seq<Pair>)
    ensures 3 * |ps| <= |s|
    ensures forall i :: 0 <= i < |ps| ==> |ps[i].key| > 0 && |ps[i].value| > 0
    decreases |s|
  {
    if s == [] then []
    else match MatchHere(s)
      case Some((p, n)) => [p] + Scan(s[n..])
      case None => Scan(s[1..])
  }

  /** `"#{key}=#{value}"`. */
  function Text(p: Pair): string {
    p.key + "=" + p.value
  }

  /** `vars.join(",")`. */
  function Join(ps: seq<Pair>): string {
    if ps == [] then ""
    else if |ps| == 1 then Text(ps[0])
    else Text(ps[0]) + "," + Join(ps[1..])
  }

  /** A pair the scanner reads back unchanged: a non-empty key of key
      characters and a non-empty value free of commas and newlines. */
  predicate WellFormed(p: Pair) {
    && |p.key| > 0 && (forall i :: 0 <= i < |p.key| ==> IsKeyChar(p.key[i]))
    && |p.value| > 0 && (forall i :: 0 <= i < |p.value| ==> !EndsValue(p.value[i]))
  }

  /** A well-formed pair followed by nothing or by a comma is matched whole. */
  lemma MatchesText(p: Pair, tail: string)
    requires WellFormed(p)
    requires tail == [] || tail[0] == ','
    ensures Matches(Text(p) + tail, p, if tail == [] then |Text(p)| else |Text(p)| + 1)
  {
    var s := Text(p) + tail;
    var w := |p.key| + 1 + |p.value|;
    assert s[..|p.key|] == p.key;
    assert s[|p.key|] == '=';
    assert s[|p.key| + 1..w] == p.value;
    if tail != [] {
      assert s[w] == tail[0];
    }
  }

  /** A lone well-formed pair is matched whole. */
  lemma MatchHereOnText(p: Pair)
    requires WellFormed(p)
    ensures MatchHere(Text(p)) == Some((p, |Text(p)|))
  {
    MatchesText(p, []);
    assert Text(p) + [] == Text(p);
    MatchesIsMatchHere(Text(p), p, |Text(p)|);
  }

  /** A well-formed pair followed by a comma is matched with the comma, and
      the scan continues right after it. */
  lemma MatchHereOnTextComma(p: Pair, rest: string)
    requires WellFormed(p)
    ensures MatchHere(Text(p) + "," + rest) == Some((p, |Text(p)| + 1))
    ensures (Text(p) + "," + rest)[|Text(p)| + 1..] == rest
  {
    MatchesText(p, "," + rest);
    assert Text(p) + "," + rest == Text(p) + ("," + rest);
    MatchesIsMatchHere(Text(p) + "," + rest, p, |Text(p)| + 1);
  }

  /** Scanning a join of well-formed pairs gives back the pairs. */
  lemma {:induction false} ScanJoin(ps: seq<Pair>)
    requires forall i :: 0 <= i < |ps| ==> WellFormed(ps[i])
    ensures Scan(Join(ps)) == ps
    decreases |ps|
  {
    if ps != [] {
      var p := ps[0];
      assert WellFormed(p);
      if |ps| == 1 {
        MatchHereOnText(p);
        assert Text(p)[|Text(p)|..] == [];
        assert Scan(Text(p)) == [p] + Scan([]);
        assert ps == [p];
      } else {
        var rest := Join(ps[1..]);
        MatchHereOnTextComma(p, rest);
        assert forall i :: 0 <= i < |ps[1..]| ==> ps[1..][i] == ps[i + 1];
        ScanJoin(ps[1..]);
        assert Scan(Text(p) + "," + rest) == [p] + Scan(rest);
        assert ps == [p] + ps[1..];
      }
    }
  }

  /** Characters that cannot start a key, such as those of the `#!::`
      prefix, are skipped by the scan. */
  lemma {:induction false} ScanSkips(pre: string, s: string)
    requires forall i :: 0 <= i < |pre| ==> !IsKeyChar(pre[i])
    ensures Scan(pre + s) == Scan(s)
    decreases |pre|
  {
    if pre != [] {
      assert (pre + s)[1..] == pre[1..] + s;
      assert KeyEnd(pre + s) == 0;
      ScanSkips(pre[1..], s);
    } else {
      assert pre + s == s;
    }
  }
}

/** `SRT::StreamIDComponents` (lib/rbsrt/streamid_components.rb): the record
    of the SRT Access Control stream-ID convention (`#!::key=value,...`), how
    it is built from nothing, a Hash or a String, how it is printed, and how
    unknown attributes are read and written through `method_missing`.

    Modes and types are held by their names (`:publish` as "publish"). Extras
    are a Ruby Hash: pairs in insertion order with distinct keys, where a key
    is a String (`Named`) or a Symbol. */
module StreamId {
  import opened Wrappers
  import opened StreamIdScan

  const Modes: seq<string> := ["request", "publish", "bidirectional"]
  const Types: seq<string> := ["stream", "file", "auth"]

  /** The prefix the parser recognises. */
  const Prefix: string := "#!::"
  /** The prefix `to_s` prints. */
  const PrintedPrefix: string := "!#::"

  datatype Key = Named(name: string) | Symbol(name: string)

  type Extras = seq<(Key, Option<string>)>

  datatype Components = Components(
    resource: Option<string>,
    user: Option<string>,
    mode: Option<string>,
    host: Option<string>,
    streamType: Option<string>,
    session: Option<string>,
    extra: Extras)

  /** The state `initialize` starts from. */
  function Default(): Components {
    Components(None, None, Some("request"), None, Some("stream"), None, [])
  }

  // ---------------------------------------------------------------- extras

  /** The keys of a Hash, in insertion order. */
  function Keys(extra: Extras): seq<Key> {
    seq(|extra|, i requires 0 <= i < |extra| => extra[i].0)
  }

  /** `hash[k]` when `hash.key?(k)`; `None` when the key is absent. */
  function Lookup(extra: Extras, k: Key): Option<Option<string>> {
    if extra == [] then None
    else if extra[0].0 == k then Some(extra[0].1)
    else Lookup(extra[1..], k)
  }

  /** `hash.key?(k)` holds exactly for the keys of the Hash. */
  lemma {:induction false} LookupFindsKeys(extra: Extras, k: Key)
    ensures Lookup(extra, k).Some? <==> k in Keys(extra)
    decreases |extra|
  {
    if extra != [] {
      LookupFindsKeys(extra[1..], k);
      assert Keys(extra) == [extra[0].0] + Keys(extra[1..]);
    }
  }

  predicate UniqueKeys(extra: Extras) {
    forall i, j :: 0 <= i < j < |extra| ==> extra[i].0 != extra[j].0
  }

  /** `hash[k] = v`. */
  function Put(extra: Extras, k: Key, v: Option<string>): Extras {
    if extra == [] then [(k, v)]
    else if extra[0].0 == k then [(k, v)] + extra[1..]
    else [extra[0]] + Put(extra[1..], k, v)
  }

  lemma KeysCons(extra: Extras)
    requires extra != []
    ensures Keys(extra) == [extra[0].0] + Keys(extra[1..])
  {
  }

  /** `hash[k] = v` keeps an existing key in its place and puts a new one
      last. */
  lemma {:induction false} PutKeys(extra: Extras, k: Key, v: Option<string>)
    ensures Keys(Put(extra, k, v)) == if k in Keys(extra) then Keys(extra) else Keys(extra) + [k]
    decreases |extra|
  {
    if extra != [] {
      var r := Put(extra, k, v);
      var rest := Keys(extra[1..]);
      KeysCons(extra);
      KeysCons(r);
      if extra[0].0 == k {
        assert r[1..] == extra[1..];
        assert k in Keys(extra);
      } else {
        PutKeys(extra[1..], k, v);
        assert r[1..] == Put(extra[1..], k, v);
        assert (k in Keys(extra)) == (k in rest);
        if k !in rest {
          assert [extra[0].0] + (rest + [k]) == ([extra[0].0] + rest) + [k];
        }
      }
    }
  }

  /** After `hash[k] = v`, `k` reads `v` and every other key reads as before. */
  lemma {:induction false} PutThenLookup(extra: Extras, k: Key, v: Option<string>, q: Key)
    ensures Lookup(Put(extra, k, v), q) == if q == k then Some(v) else Lookup(extra, q)
    decreases |extra|
  {
    if extra != [] && extra[0].0 != k {
      PutThenLookup(extra[1..], k, v, q);
      assert Put(extra, k, v)[1..] == Put(extra[1..], k, v);
    }
  }

  /** Distinct keys are kept by `hash[k] = v`. */
  lemma PutKeepsKeysUnique(extra: Extras, k: Key, v: Option<string>)
    ensures UniqueKeys(extra) ==> UniqueKeys(Put(extra, k, v))
  {
    var r := Put(extra, k, v);
    var ks := Keys(extra);
    PutKeys(extra, k, v);
    forall i, j | 0 <= i < j < |r| && UniqueKeys(extra) ensures r[i].0 != r[j].0 {
      assert Keys(r)[i] == r[i].0 && Keys(r)[j] == r[j].0;
      if j < |ks| {
        assert ks[i] == extra[i].0 && ks[j] == extra[j].0;
      } else {
        assert ks[i] in ks;
      }
    }
  }

  /** A fresh key is appended. */
  lemma {:induction false} PutAppendsFreshKey(extra: Extras, k: Key, v: Option<string>)
    requires Lookup(extra, k).None?
    ensures Put(extra, k, v) == extra + [(k, v)]
    decreases |extra|
  {
    if extra != [] {
      PutAppendsFreshKey(extra[1..], k, v);
      assert extra == [extra[0]] + extra[1..];
    }
  }

  // ------------------------------------------------------- standard fields

  datatype Field = Resource | User | Mode | Host | Type | Session

  function Get(c: Components, f: Field): Option<string> {
    match f
    case Resource => c.resource
    case User => c.user
    case Mode => c.mode
    case Host => c.host
    case Type => c.streamType
    case Session => c.session
  }

  /** The position of the first `/`, as `String#index("/")`. */
  function SlashIndex(s: string): (r: Option<nat>)
    ensures r.Some? <==> '/' in s
    ensures r.Some? ==> r.value < |s| && s[r.value] == '/' && '/' !in s[..r.value]
  {
    if s == [] then None
    else if s[0] == '/' then Some(0)
    else match SlashIndex(s[1..])
      case None => None
      case Some(i) => assert s[..i + 1] == [s[0]] + s[1..][..i]; Some(i + 1)
  }

  /** Ruby's `s[0..last]`: an inclusive range whose negative end counts back
      from the end of the string, `-1` being the last character. */
  function RangeFromStart(s: string, last: int): (r: string)
    ensures r <= s
    ensures 0 <= last < |s| ==> |r| == last + 1
    ensures last == -1 ==> r == s
  {
    var end := if last < 0 then |s| + last + 1 else last + 1;
    if end <= 0 then "" else if end >= |s| then s else s[..end]
  }

  /** The host part of an `h` value as the source computes it:
      `val[0..(sep - 1)]` with `sep` the first slash. For `sep = 0` the range
      is `0..-1`, the whole value. */
  function HostPartAsWritten(v: string): (h: string)
    ensures h <= v
    ensures SlashIndex(v).Some? && SlashIndex(v).value > 0 ==> '/' !in h && v[|h|] == '/'
    ensures SlashIndex(v) == Some(0) || SlashIndex(v).None? ==> h == v
  {
    match SlashIndex(v)
    case None => v
    case Some(sep) => RangeFromStart(v, sep - 1)
  }

  /** The host part of an `h` value: everything before the first slash. */
  function HostPart(v: string): (h: string)
    ensures '/' !in h
    ensures h <= v
    ensures SlashIndex(v).None? ==> h == v
    ensures SlashIndex(v).Some? ==> v == h + "/" + v[|h| + 1..]
  {
    match SlashIndex(v)
    case None => v
    case Some(sep) => assert v == v[..sep] + "/" + v[sep + 1..]; v[..sep]
  }

  /** The two agree unless the value starts with a slash. */
  lemma HostPartAgreesPastFirstCharacter(v: string)
    requires SlashIndex(v) != Some(0)
    ensures HostPartAsWritten(v) == HostPart(v)
  {
  }

  /** With a leading slash the source keeps the whole value as the host,
      slash and path included: `h=/live/cam` gives host "/live/cam". */
  lemma LeadingSlashHostAsWritten(v: string)
    requires |v| > 0 && v[0] == '/'
    ensures HostPartAsWritten(v) == v && '/' in HostPartAsWritten(v)
    ensures HostPart(v) == ""
  {
    assert SlashIndex(v) == Some(0);
  }

  /** What writing `v` through a standard key stores into that field, or
      `None` when the write is ignored (an unlisted mode or type). */
  function Written(f: Field, v: string): (r: Option<string>)
    ensures r.None? <==> (f == Mode && v !in Modes) || (f == Type && v !in Types)
    ensures f == Host ==> r == Some(HostPartAsWritten(v))
    ensures f != Host && r.Some? ==> r == Some(v)
  {
    match f
    case Mode => if v in Modes then Some(v) else None
    case Type => if v in Types then Some(v) else None
    case Host => Some(HostPartAsWritten(v))
    case _ => Some(v)
  }

  /** One standard key: `r`/`u`/`s` copy, `m`/`t` only a listed name, and `h`
      splits at the first slash as the source does, the rest becoming the
      resource only when none is set yet. Shared by the string and the Hash
      form. */
  function SetField(c: Components, f: Field, v: string): (r: Components)
    ensures Get(r, f) == if Written(f, v).Some? then Written(f, v) else Get(c, f)
    ensures forall g :: g != f && !(f == Host && g == Resource) ==> Get(r, g) == Get(c, g)
    ensures f == Host ==> r.resource == if c.resource.None? && '/' in v then Some(v[SlashIndex(v).value + 1..]) else c.resource
    ensures r.extra == c.extra
  {
    match f
    case Resource => c.(resource := Some(v))
    case User => c.(user := Some(v))
    case Mode => if v in Modes then c.(mode := Some(v)) else c
    case Host =>
      (match SlashIndex(v)
       case None => c.(host := Some(v))
       case Some(sep) =>
         c.(host := Some(HostPartAsWritten(v)), resource := if c.resource.Some? then c.resource else Some(v[sep + 1..])))
    case Type => if v in Types then c.(streamType := Some(v)) else c
    case Session => c.(session := Some(v))
  }

  /** `SetField` with the host split corrected: the host is always the
      slash-free text before the first slash, and the value is that host, a
      slash and the resource path. Every other effect is the same. */
  function SetFieldCorrected(c: Components, f: Field, v: string): (r: Components)
    ensures f != Host ==> r == SetField(c, f, v)
    ensures f == Host ==> r == SetField(c, f, v).(host := Some(HostPart(v)))
    ensures f == Host ==> '/' !in r.host.value
    ensures f == Host && '/' in v ==> v == r.host.value + "/" + v[|r.host.value| + 1..]
  {
    var t := SetField(c, f, v);
    if f == Host then t.(host := Some(HostPart(v))) else t
  }

  /** As written, an `h` value with a leading slash is stored whole as the
      host, slash and path included; the corrected split stores "". */
  lemma LeadingSlashHostKeptWhole(c: Components, v: string)
    requires |v| > 0 && v[0] == '/'
    ensures SetField(c, Host, v).host == Some(v)
    ensures SetFieldCorrected(c, Host, v).host == Some("")
  {
    assert SlashIndex(v) == Some(0);
  }

  /** The counterexample of the host split: `#!::h=/live/cam` parses to the
      host "/live/cam" and the resource "live/cam". */
  lemma LeadingSlashHostParsedWhole()
    ensures Init(TextArg("#!::h=/live/cam")).host == Some("/live/cam")
    ensures Init(TextArg("#!::h=/live/cam")).resource == Some("live/cam")
  {
    var p := Pair("h", "/live/cam");
    assert Prefix + Text(p) == "#!::h=/live/cam";
    assert WellFormed(p);
    SinglePairParsed(p);
    ApplyLetter(Default(), Host, p.value);
    LeadingSlashHostKeptWhole(Default(), p.value);
  }

  /** A prefixed string holding one pair parses to that pair applied to a
      fresh record. */
  lemma SinglePairParsed(p: Pair)
    requires WellFormed(p)
    ensures Init(TextArg(Prefix + Text(p))) == Apply(Default(), p)
  {
    var text := Prefix + Text(p);
    assert Scan(text) == [p] by {
      PrefixIsSkipped(Text(p));
      assert Join([p]) == Text(p);
      ScanJoin([p]);
    }
    assert Init(TextArg(text)) == ApplyAll(Default(), [p]) by {
      assert Prefix <= text;
    }
    assert ApplyAll(Default(), [p]) == Apply(Default(), p) by {
      assert [p][1..] == [];
    }
  }

  // ------------------------------------------------------------- merge_str!

  function Letter(f: Field): string {
    match f
    case Resource => "r"
    case User => "u"
    case Mode => "m"
    case Host => "h"
    case Type => "t"
    case Session => "s"
  }

  /** The standard key a pair names; keys are case-sensitive. */
  function LetterField(key: string): (r: Option<Field>)
    ensures r.Some? ==> Letter(r.value) == key
    ensures r.None? ==> forall f :: Letter(f) != key
  {
    if |key| != 1 then None
    else match key[0]
      case 'r' => Some(Resource)
      case 'u' => Some(User)
      case 'm' => Some(Mode)
      case 'h' => Some(Host)
      case 't' => Some(Type)
      case 's' => Some(Session)
      case _ => None
  }

  /** A pair with a standard letter writes its field. */
  lemma ApplyLetter(c: Components, f: Field, v: string)
    ensures Apply(c, Pair(Letter(f), v)) == SetField(c, f, v)
  {
    assert LetterField(Letter(f)) == Some(f) by {
      match f
      case Resource =>
      case User =>
      case Mode =>
      case Host =>
      case Type =>
      case Session =>
    }
  }

  /** The record invariant: mode and type are listed names and the extras
      have distinct keys. */
  predicate Valid(c: Components) {
    && c.mode.Some? && c.mode.value in Modes
    && c.streamType.Some? && c.streamType.value in Types
    && UniqueKeys(c.extra)
  }

  /** One scanned pair: a standard key sets its field, any other key is
      stored in the extras under the String key. */
  function Apply(c: Components, p: Pair): (r: Components)
    ensures Valid(c) ==> Valid(r)
  {
    match LetterField(p.key)
    case Some(f) => SetField(c, f, p.value)
    case None =>
      PutKeepsKeysUnique(c.extra, Named(p.key), Some(p.value));
      c.(extra := Put(c.extra, Named(p.key), Some(p.value)))
  }

  /** What one pair does: a standard key writes its field as `SetField`
      says and leaves the extras alone; any other key leaves every standard
      field alone and stores its value under the String key. */
  lemma ApplyEffect(c: Components, p: Pair)
    ensures LetterField(p.key).Some? ==>
      var f := LetterField(p.key).value;
      && Get(Apply(c, p), f) == (if Written(f, p.value).Some? then Written(f, p.value) else Get(c, f))
      && Apply(c, p).extra == c.extra
    ensures LetterField(p.key).None? ==> forall f :: Get(Apply(c, p), f) == Get(c, f)
    ensures LetterField(p.key).None? ==>
      forall q :: Lookup(Apply(c, p).extra, q) == if q == Named(p.key) then Some(Some(p.value)) else Lookup(c.extra, q)
  {
    if LetterField(p.key).None? {
      forall q ensures Lookup(Apply(c, p).extra, q) == if q == Named(p.key) then Some(Some(p.value)) else Lookup(c.extra, q) {
        PutThenLookup(c.extra, Named(p.key), Some(p.value), q);
      }
    }
  }

  /** The pairs applied left to right. */
  function ApplyAll(c: Components, ps: seq<Pair>): (r: Components)
    ensures Valid(c) ==> Valid(r)
    decreases |ps|
  {
    if ps == [] then c else ApplyAll(Apply(c, ps[0]), ps[1..])
  }

  lemma {:induction false} ApplyAllAppend(c: Components, a: seq<Pair>, b: seq<Pair>)
    ensures ApplyAll(c, a + b) == ApplyAll(ApplyAll(c, a), b)
    decreases |a|
  {
    if a == [] {
      assert a + b == b;
    } else {
      assert (a + b)[1..] == a[1..] + b;
      ApplyAllAppend(Apply(c, a[0]), a[1..], b);
    }
  }

  /** `merge_str!`. */
  function MergeStr(c: Components, s: string): (r: Components)
    ensures Valid(c) ==> Valid(r)
  {
    ApplyAll(c, Scan(s))
  }

  /** The field a pair writes regardless of the record it lands in, for
      every field but the resource (which an `h` pair may or may not set). */
  function Assigned(p: Pair, f: Field): Option<string> {
    match LetterField(p.key)
    case Some(g) => if g == f then Written(f, p.value) else None
    case None => None
  }

  /** For the user, mode, host, type and session: the last pair that
      assigns the field decides it, and without one it keeps its value. */
  lemma {:induction false} LastAssignmentWins(c: Components, ps: seq<Pair>, f: Field)
    requires f != Resource
    ensures (forall i :: 0 <= i < |ps| ==> Assigned(ps[i], f).None?) ==> Get(ApplyAll(c, ps), f) == Get(c, f)
    ensures forall i :: (0 <= i < |ps| && Assigned(ps[i], f).Some? && (forall j :: i < j < |ps| ==> Assigned(ps[j], f).None?)
      ==> Get(ApplyAll(c, ps), f) == Assigned(ps[i], f))
    decreases |ps|
  {
    if ps != [] {
      var c1 := Apply(c, ps[0]);
      assert Get(c1, f) == if Assigned(ps[0], f).Some? then Assigned(ps[0], f) else Get(c, f);
      LastAssignmentWins(c1, ps[1..], f);
      forall i | 0 <= i < |ps| && Assigned(ps[i], f).Some? && (forall j :: i < j < |ps| ==> Assigned(ps[j], f).None?)
        ensures Get(ApplyAll(c, ps), f) == Assigned(ps[i], f)
      {
        if i > 0 {
          assert ps[1..][i - 1] == ps[i];
          assert forall j :: i - 1 < j < |ps[1..]| ==> ps[1..][j] == ps[j + 1];
        } else {
          assert forall j :: 0 <= j < |ps[1..]| ==> ps[1..][j] == ps[j + 1];
        }
      }
    }
  }

  /** Pairs without an `r` leave a set resource alone. */
  lemma {:induction false} SetResourceStays(c: Components, ps: seq<Pair>)
    requires c.resource.Some?
    requires forall i :: 0 <= i < |ps| ==> ps[i].key != "r"
    ensures ApplyAll(c, ps).resource == c.resource
    decreases |ps|
  {
    if ps != [] {
      assert ps[0].key != "r";
      SetResourceStays(Apply(c, ps[0]), ps[1..]);
    }
  }

  /** The last `r` pair decides the resource, whatever `h` pairs stand
      before or after it. */
  lemma {:induction false} LastResourceWins(c: Components, ps: seq<Pair>, i: nat)
    requires i < |ps| && ps[i].key == "r"
    requires forall j :: i < j < |ps| ==> ps[j].key != "r"
    ensures ApplyAll(c, ps).resource == Some(ps[i].value)
    decreases i
  {
    var rest := ps[1..];
    assert forall j :: 0 <= j < |rest| ==> rest[j] == ps[j + 1];
    if i == 0 {
      SetResourceStays(Apply(c, ps[0]), rest);
    } else {
      LastResourceWins(Apply(c, ps[0]), rest, i - 1);
    }
  }

  /** Without any `r` pair and with no resource set, the path of the first
      `h` value holding a slash becomes the resource. */
  lemma {:induction false} HostPathBecomesResource(c: Components, ps: seq<Pair>, i: nat)
    requires c.resource.None?
    requires i < |ps| && ps[i].key == "h" && '/' in ps[i].value
    requires forall j :: 0 <= j < |ps| ==> ps[j].key != "r"
    requires forall j :: 0 <= j < i ==> !(ps[j].key == "h" && '/' in ps[j].value)
    ensures ApplyAll(c, ps).resource == Some(ps[i].value[SlashIndex(ps[i].value).value + 1..])
    decreases i
  {
    var rest := ps[1..];
    assert forall j :: 0 <= j < |rest| ==> rest[j] == ps[j + 1];
    if i == 0 {
      SetResourceStays(Apply(c, ps[0]), rest);
    } else {
      assert ps[0].key != "r" && !(ps[0].key == "h" && '/' in ps[0].value);
      HostPathBecomesResource(Apply(c, ps[0]), rest, i - 1);
    }
  }

  // ------------------------------------------------------------ merge_hash!

  /** The standard Symbol keys of the Hash form; any other key, String keys
      included, goes to the extras as given. */
  function SymbolField(k: Key): (r: Option<Field>)
    ensures r.Some? <==> k.Symbol? && k.name in {"resource_name", "user_name", "mode", "host_name", "type", "sessionid"}
  {
    if k == Symbol("resource_name") then Some(Resource)
    else if k == Symbol("user_name") then Some(User)
    else if k == Symbol("mode") then Some(Mode)
    else if k == Symbol("host_name") then Some(Host)
    else if k == Symbol("type") then Some(Type)
    else if k == Symbol("sessionid") then Some(Session)
    else None
  }

  function ApplyEntry(c: Components, e: (Key, string)): (r: Components)
    ensures Valid(c) ==> Valid(r)
  {
    match SymbolField(e.0)
    case Some(f) => SetField(c, f, e.1)
    case None =>
      PutKeepsKeysUnique(c.extra, e.0, Some(e.1));
      c.(extra := Put(c.extra, e.0, Some(e.1)))
  }

  /** `merge_hash!`: the entries applied in the Hash's order. */
  function MergeHash(c: Components, entries: seq<(Key, string)>): (r: Components)
    ensures Valid(c) ==> Valid(r)
    decreases |entries|
  {
    if entries == [] then c else MergeHash(ApplyEntry(c, entries[0]), entries[1..])
  }

  /** The string form an entry with a standard Symbol key stands for. */
  function AsPairs(entries: seq<(Key, string)>): (ps: seq<Pair>)
    requires forall i :: 0 <= i < |entries| ==> SymbolField(entries[i].0).Some?
    ensures |ps| == |entries|
    ensures forall i :: 0 <= i < |ps| ==> ps[i] == Pair(Letter(SymbolField(entries[i].0).value), entries[i].1)
  {
    seq(|entries|, i requires 0 <= i < |entries| => Pair(Letter(SymbolField(entries[i].0).value), entries[i].1))
  }

  /** A Hash with the standard Symbol keys builds what the string with the
      matching letters builds: same validation, same host split. */
  lemma {:induction false} HashFollowsStringRules(c: Components, entries: seq<(Key, string)>)
    requires forall i :: 0 <= i < |entries| ==> SymbolField(entries[i].0).Some?
    ensures MergeHash(c, entries) == ApplyAll(c, AsPairs(entries))
    decreases |entries|
  {
    if entries != [] {
      var f := SymbolField(entries[0].0).value;
      ApplyLetter(c, f, entries[0].1);
      assert ApplyEntry(c, entries[0]) == Apply(c, AsPairs(entries)[0]);
      assert AsPairs(entries)[1..] == AsPairs(entries[1..]);
      HashFollowsStringRules(ApplyEntry(c, entries[0]), entries[1..]);
    }
  }

  // ------------------------------------------------------------ initialize

  /** The first argument of `new`: none (or nil/false), a Hash, or anything
      else, which is taken by its `to_s`. */
  datatype InitArg = NoArg | HashArg(entries: seq<(Key, string)>) | TextArg(text: string)

  /** `StreamIDComponents.new`. */
  function Init(arg: InitArg): (c: Components)
    ensures Valid(c)
    ensures arg.NoArg? ==> c.resource.None? && c.user.None? && c.host.None? && c.session.None? && c.extra == []
    ensures arg.NoArg? || (arg.TextArg? && !(Prefix <= arg.text)) ==> c.mode == Some("request") && c.streamType == Some("stream")
    ensures arg.TextArg? && !(Prefix <= arg.text) ==>
      c.resource == Some(arg.text) && c.user.None? && c.host.None? && c.session.None? && c.extra == []
  {
    match arg
    case NoArg => Default()
    case HashArg(entries) => MergeHash(Default(), entries)
    case TextArg(s) => if Prefix <= s then MergeStr(Default(), s) else Default().(resource := Some(s))
  }

  /** An unknown key of a `#!::` string reads back through `method_missing`. */
  lemma UnknownKeyIsReadable(p: Pair)
    requires WellFormed(p) && LetterField(p.key).None? && '\n' !in p.key
    ensures MethodMissing(Init(TextArg(Prefix + Text(p))), p.key, None) == Call(Init(TextArg(Prefix + Text(p))), Some(p.value))
  {
    var c1 := Default().(extra := [(Named(p.key), Some(p.value))]);
    assert Scan(Prefix + Text(p)) == [p] by {
      PrefixIsSkipped(Text(p));
      assert Join([p]) == Text(p);
      ScanJoin([p]);
    }
    assert Init(TextArg(Prefix + Text(p))) == ApplyAll(Default(), [p]) by {
      assert Prefix <= Prefix + Text(p);
    }
    assert ApplyAll(Default(), [p]) == c1 by {
      assert [p][1..] == [];
      assert Apply(Default(), p) == c1;
    }
    assert Lookup(c1.extra, Named(p.key)) == Some(Some(p.value));
  }

  lemma PrefixIsSkipped(s: string)
    ensures Scan(Prefix + s) == Scan(s)
  {
    assert forall i :: 0 <= i < |Prefix| ==> !IsKeyChar(Prefix[i]);
    ScanSkips(Prefix, s);
  }

  // ------------------------------------------------------------------ to_s

  function Opt(key: string, v: Option<string>): seq<Pair> {
    if v.Some? then [Pair(key, v.value)] else []
  }

  /** The standard fields that are set, in the order r, u, m, h, t, s. */
  function StandardPairs(c: Components): seq<Pair> {
    Opt("r", c.resource) + (Opt("u", c.user) + (Opt("m", c.mode) + (Opt("h", c.host)
      + (Opt("t", c.streamType) + Opt("s", c.session)))))
  }

  /** The extras as `key=value`, a nil value printing as nothing. */
  function ExtraPairs(extra: Extras): (ps: seq<Pair>)
    ensures |ps| == |extra|
    ensures forall i :: 0 <= i < |ps| ==> ps[i] == Pair(extra[i].0.name, extra[i].1.GetOr(""))
  {
    seq(|extra|, i requires 0 <= i < |extra| => Pair(extra[i].0.name, extra[i].1.GetOr("")))
  }

  function Fields(c: Components): seq<Pair> {
    StandardPairs(c) + ExtraPairs(c.extra)
  }

  /** `to_s`: the printed prefix, then the fields joined by commas. The
      scanner reads a printable record's fields back from it, and merging
      them into a fresh record rebuilds the record. */
  function ToString(c: Components): (s: string)
    ensures PrintedPrefix <= s
    ensures Printable(c) ==> Scan(s) == Fields(c)
    ensures Printable(c) ==> MergeStr(Default(), s) == c
  {
    PrintedFieldsScanBack(c);
    PrintedPrefix + Join(Fields(c))
  }

  /** The printed prefix holds no key character, so the scan of a printed
      printable record finds exactly its fields. */
  lemma PrintedFieldsScanBack(c: Components)
    ensures Printable(c) ==> Scan(PrintedPrefix + Join(Fields(c))) == Fields(c)
    ensures Printable(c) ==> MergeStr(Default(), PrintedPrefix + Join(Fields(c))) == c
  {
    if Printable(c) {
      var body := Join(Fields(c));
      PrintedScansAsBody(body);
      assert Scan(body) == Fields(c) by {
        FieldsWellFormed(c);
        ScanJoin(Fields(c));
      }
      FieldsRebuild(c);
    }
  }

  /** Neither prefix the source writes or strips is scanned as a pair. */
  lemma PrintedScansAsBody(body: string)
    ensures Scan(PrintedPrefix + body) == Scan(body)
    ensures Scan(Prefix + body) == Scan(body)
  {
    assert forall i :: 0 <= i < |PrintedPrefix| ==> !IsKeyChar(PrintedPrefix[i]);
    ScanSkips(PrintedPrefix, body);
    PrefixIsSkipped(body);
  }

  /** The printed string does not carry the `#!::` prefix, so feeding it back
      to `new` does not parse it: the whole string becomes the resource. */
  lemma CompiledIdIsNotReparsed(c: Components)
    ensures Init(TextArg(ToString(c))) == Default().(resource := Some(ToString(c)))
  {
    var s := ToString(c);
    assert s[1] == '#' != Prefix[1];
  }

  /** A value the scanner reads back whole. */
  predicate ValueOk(v: Option<string>) {
    v.Some? ==> |v.value| > 0 && forall i :: 0 <= i < |v.value| ==> !EndsValue(v.value[i])
  }

  /** A key the scanner reads back whole and files as an extra. */
  predicate ExtraKeyOk(k: Key) {
    && k.Named? && |k.name| > 0
    && (forall i :: 0 <= i < |k.name| ==> IsKeyChar(k.name[i]))
    && LetterField(k.name).None?
  }

  /** A record that survives printing and parsing with the `#!::` prefix:
      the values are non-empty without commas or newlines, the host has no
      slash, mode and type are listed, and the extras are distinct String
      keys with values. */
  predicate Printable(c: Components) {
    && ValueOk(c.resource) && ValueOk(c.user) && ValueOk(c.session)
    && ValueOk(c.host) && (c.host.Some? ==> '/' !in c.host.value)
    && c.mode.Some? && c.mode.value in Modes
    && c.streamType.Some? && c.streamType.value in Types
    && UniqueKeys(c.extra)
    && forall i :: 0 <= i < |c.extra| ==> ExtraKeyOk(c.extra[i].0) && c.extra[i].1.Some? && ValueOk(c.extra[i].1)
  }

  lemma ApplyOpt(c: Components, key: string, v: Option<string>, rest: seq<Pair>)
    ensures ApplyAll(c, Opt(key, v) + rest) == ApplyAll(if v.Some? then Apply(c, Pair(key, v.value)) else c, rest)
  {
    if v.Some? {
      assert (Opt(key, v) + rest)[0] == Pair(key, v.value);
      assert (Opt(key, v) + rest)[1..] == rest;
    } else {
      assert Opt(key, v) + rest == rest;
    }
  }

  /** The standard pairs rebuild the standard fields over the defaults. */
  lemma StandardPairsRebuild(c: Components)
    requires Printable(c)
    ensures ApplyAll(Default(), StandardPairs(c)) == c.(extra := [])
  {
    var t := Opt("t", c.streamType) + Opt("s", c.session);
    var h := Opt("h", c.host) + t;
    var m := Opt("m", c.mode) + h;
    var u := Opt("u", c.user) + m;
    var d0 := Default();
    var d1 := d0.(resource := c.resource);
    var d2 := d1.(user := c.user);
    var d3 := d2.(mode := c.mode);
    var d4 := d3.(host := c.host);
    var d5 := d4.(streamType := c.streamType);
    var d6 := d5.(session := c.session);
    assert ApplyAll(d0, StandardPairs(c)) == ApplyAll(d1, u) by {
      ApplyOpt(d0, "r", c.resource, u);
      if c.resource.Some? { ApplyLetter(d0, Resource, c.resource.value); }
    }
    assert ApplyAll(d1, u) == ApplyAll(d2, m) by {
      ApplyOpt(d1, "u", c.user, m);
      if c.user.Some? { ApplyLetter(d1, User, c.user.value); }
    }
    assert ApplyAll(d2, m) == ApplyAll(d3, h) by {
      ApplyOpt(d2, "m", c.mode, h);
      ApplyLetter(d2, Mode, c.mode.value);
    }
    assert ApplyAll(d3, h) == ApplyAll(d4, t) by {
      ApplyOpt(d3, "h", c.host, t);
      if c.host.Some? {
        ApplyLetter(d3, Host, c.host.value);
        assert SlashIndex(c.host.value).None?;
      }
    }
    assert ApplyAll(d4, t) == ApplyAll(d5, Opt("s", c.session)) by {
      ApplyOpt(d4, "t", c.streamType, Opt("s", c.session));
      ApplyLetter(d4, Type, c.streamType.value);
    }
    assert ApplyAll(d5, Opt("s", c.session)) == d6 by {
      ApplyOpt(d5, "s", c.session, []);
      assert Opt("s", c.session) + [] == Opt("s", c.session);
      if c.session.Some? { ApplyLetter(d5, Session, c.session.value); }
    }
  }

  /** A String extra with a fresh key is appended. */
  lemma ApplyFreshExtra(c: Components, e: (Key, Option<string>))
    requires ExtraKeyOk(e.0) && e.1.Some? && Lookup(c.extra, e.0).None?
    ensures Apply(c, Pair(e.0.name, e.1.value)) == c.(extra := c.extra + [e])
  {
    PutAppendsFreshKey(c.extra, e.0, e.1);
  }

  /** Distinct String extras with fresh keys are appended in order. */
  lemma {:induction false} ExtraPairsAppend(c: Components, es: Extras)
    requires forall i :: 0 <= i < |es| ==> ExtraKeyOk(es[i].0) && es[i].1.Some?
    requires UniqueKeys(c.extra + es)
    ensures ApplyAll(c, ExtraPairs(es)) == c.(extra := c.extra + es)
    decreases |es|
  {
    if es == [] {
      assert c.extra + es == c.extra;
    } else {
      var e := es[0];
      var all := c.extra + es;
      assert Lookup(c.extra, e.0).None? by {
        forall i | 0 <= i < |c.extra| ensures Keys(c.extra)[i] != e.0 {
          assert all[i] == c.extra[i];
          assert all[|c.extra|] == e;
        }
        LookupFindsKeys(c.extra, e.0);
      }
      var c1 := c.(extra := c.extra + [e]);
      assert Apply(c, ExtraPairs(es)[0]) == c1 by {
        assert ExtraKeyOk(e.0) && e.1.Some?;
        assert ExtraPairs(es)[0] == Pair(e.0.name, e.1.value);
        ApplyFreshExtra(c, e);
      }
      assert ApplyAll(c, ExtraPairs(es)) == ApplyAll(c1, ExtraPairs(es[1..])) by {
        assert ExtraPairs(es)[1..] == ExtraPairs(es[1..]);
      }
      assert c1.extra + es[1..] == all by {
        SnocThenRest(c.extra, es);
      }
      assert forall i :: 0 <= i < |es[1..]| ==> es[1..][i] == es[i + 1];
      ExtraPairsAppend(c1, es[1..]);
    }
  }

  lemma SnocThenRest<T>(a: seq<T>, s: seq<T>)
    requires |s| > 0
    ensures (a + [s[0]]) + s[1..] == a + s
  {
    assert s == [s[0]] + s[1..];
  }

  predicate AllWellFormed(ps: seq<Pair>) {
    forall i :: 0 <= i < |ps| ==> WellFormed(ps[i])
  }

  lemma AllWellFormedConcat(a: seq<Pair>, b: seq<Pair>)
    requires AllWellFormed(a) && AllWellFormed(b)
    ensures AllWellFormed(a + b)
  {
    forall i | 0 <= i < |a + b| ensures WellFormed((a + b)[i]) {
      if i < |a| {
        assert (a + b)[i] == a[i];
      } else {
        assert (a + b)[i] == b[i - |a|];
      }
    }
  }

  lemma OptWellFormed(key: string, v: Option<string>)
    requires |key| == 1 && IsKeyChar(key[0]) && ValueOk(v)
    ensures AllWellFormed(Opt(key, v))
  {
  }

  /** Every printed field is a pair the scanner reads back whole. */
  lemma FieldsWellFormed(c: Components)
    requires Printable(c)
    ensures AllWellFormed(Fields(c))
  {
    assert ValueOk(c.mode) by {
      assert forall m :: m in Modes ==> ValueOk(Some(m));
    }
    assert ValueOk(c.streamType) by {
      assert forall t :: t in Types ==> ValueOk(Some(t));
    }
    OptWellFormed("r", c.resource);
    OptWellFormed("u", c.user);
    OptWellFormed("m", c.mode);
    OptWellFormed("h", c.host);
    OptWellFormed("t", c.streamType);
    OptWellFormed("s", c.session);
    AllWellFormedConcat(Opt("t", c.streamType), Opt("s", c.session));
    AllWellFormedConcat(Opt("h", c.host), Opt("t", c.streamType) + Opt("s", c.session));
    AllWellFormedConcat(Opt("m", c.mode), Opt("h", c.host) + (Opt("t", c.streamType) + Opt("s", c.session)));
    AllWellFormedConcat(Opt("u", c.user), Opt("m", c.mode) + (Opt("h", c.host) + (Opt("t", c.streamType) + Opt("s", c.session))));
    AllWellFormedConcat(Opt("r", c.resource), Opt("u", c.user) + (Opt("m", c.mode) + (Opt("h", c.host) + (Opt("t", c.streamType) + Opt("s", c.session)))));
    var ex := ExtraPairs(c.extra);
    assert AllWellFormed(ex) by {
      forall i | 0 <= i < |ex| ensures WellFormed(ex[i]) {
        assert ExtraKeyOk(c.extra[i].0) && ValueOk(c.extra[i].1);
      }
    }
    AllWellFormedConcat(StandardPairs(c), ex);
  }

  /** With the prefix the parser expects, a printable record survives
      printing and parsing unchanged. */
  lemma PrintParseRoundTrip(c: Components)
    requires Printable(c)
    ensures Init(TextArg(Prefix + Join(Fields(c)))) == c
  {
    var body := Join(Fields(c));
    var fs := Fields(c);
    assert Init(TextArg(Prefix + body)) == ApplyAll(Default(), Scan(Prefix + body)) by {
      assert Prefix <= Prefix + body;
    }
    assert Scan(Prefix + body) == fs by {
      PrefixIsSkipped(body);
      FieldsWellFormed(c);
      ScanJoin(fs);
    }
    FieldsRebuild(c);
  }

  /** Applying a printable record's fields to a fresh record rebuilds it. */
  lemma FieldsRebuild(c: Components)
    requires Printable(c)
    ensures ApplyAll(Default(), Fields(c)) == c
  {
    assert ApplyAll(Default(), Fields(c)) == ApplyAll(c.(extra := []), ExtraPairs(c.extra)) by {
      ApplyAllAppend(Default(), StandardPairs(c), ExtraPairs(c.extra));
      StandardPairsRebuild(c);
    }
    assert ApplyAll(c.(extra := []), ExtraPairs(c.extra)) == c by {
      assert forall i :: 0 <= i < |c.extra| ==> ExtraKeyOk(c.extra[i].0) && c.extra[i].1.Some?;
      assert [] + c.extra == c.extra;
      ExtraPairsAppend(c.(extra := []), c.extra);
    }
  }

  // -------------------------------------------------------- method_missing

  /** What a call to an undefined method returns, and the record after it. */
  datatype Call = Call(after: Components, result: Option<string>)

  /** The first line of a name: `^` and `$` in Ruby match at line ends. */
  function FirstLine(name: string): (line: string)
    ensures line <= name && '\n' !in line
    ensures |line| < |name| ==> name[|line|] == '\n'
  {
    if name == [] || name[0] == '\n' then []
    else [name[0]] + FirstLine(name[1..])
  }

  /** `method_missing(name, *args)`: an extra stored under the String name
      is returned; otherwise a name whose first line ends in `=` stores the
      first argument under the String before the `=`; anything else is nil. */
  function MethodMissing(c: Components, name: string, arg: Option<string>): (r: Call)
    ensures Lookup(c.extra, Named(name)).Some? ==> r == Call(c, Lookup(c.extra, Named(name)).value)
    ensures r.after != c ==> |FirstLine(name)| > 0 && FirstLine(name)[|FirstLine(name)| - 1] == '='
    ensures Valid(c) ==> Valid(r.after)
  {
    match Lookup(c.extra, Named(name))
    case Some(v) => Call(c, v)
    case None =>
      var line := FirstLine(name);
      if |line| > 0 && line[|line| - 1] == '=' then
        var k := Named(line[..|line| - 1]);
        PutKeepsKeysUnique(c.extra, k, arg);
        Call(c.(extra := Put(c.extra, k, arg)), arg)
      else Call(c, None)
  }

  /** `obj.foo = v` then `obj.foo` gives back `v` (unless an extra is
      literally named `foo=`, which the setter call reads instead). */
  lemma SetThenGet(c: Components, name: string, v: Option<string>)
    requires '\n' !in name && '=' !in name
    requires Lookup(c.extra, Named(name + "=")).None?
    ensures MethodMissing(MethodMissing(c, name + "=", v).after, name, None).result == v
    ensures MethodMissing(c, name + "=", v).result == v
  {
    var setter := name + "=";
    FirstLineWithoutNewline(setter);
    assert setter[..|setter| - 1] == name;
    PutThenLookup(c.extra, Named(name), v, Named(name));
  }

  lemma {:induction false} FirstLineWithoutNewline(s: string)
    requires '\n' !in s
    ensures FirstLine(s) == s
    decreases |s|
  {
    if s != [] {
      FirstLineWithoutNewline(s[1..]);
      assert s == [s[0]] + s[1..];
    }
  }

  /** Reading an attribute nobody set yields nil and changes nothing. */
  lemma AbsentAttributeIsNil(c: Components, name: string)
    requires '\n' !in name && '=' !in name
    requires Lookup(c.extra, Named(name)).None?
    ensures MethodMissing(c, name, None) == Call(c, None)
  {
    FirstLineWithoutNewline(name);
    if |name| > 0 {
      assert name[|name| - 1] in name;
    }
  }

  /** Extras a Hash stored under a Symbol are not reachable by name: the
      lookup uses the String form of the method name. */
  lemma SymbolExtrasAreHidden(c: Components, name: string)
    requires '\n' !in name && '=' !in name
    requires Lookup(c.extra, Named(name)).None? && Lookup(c.extra, Symbol(name)).Some?
    ensures MethodMissing(c, name, None).result.None?
  {
    AbsentAttributeIsNil(c, name);
  }
}

/** The Ruby values the modelled calls take as arguments, and the two views
    the C code takes of them: a String's bytes as a NUL-terminated C string,
    and an Integer converted with FIX2INT.

    Strings are sequences of characters standing for bytes; encodings are
    not modelled. */
module RubyValues {
  import opened Wrappers
  import opened Srt
  import opened Errors

  /** A Ruby argument, by its type tag. Every Integer is `Int`; whether it is
      a Fixnum or a Bignum depends on its magnitude (`IsFixnum`). */
  datatype Value = Nil | Str(text: string) | Sym(name: string) | Int(i: int) | Other

  predicate IsFixnum(i: int) {
    FixnumMin <= i <= FixnumMax
  }

  const Nul: char := 0 as char

  /** What C code sees through a pointer to the string: its characters up to
      the first NUL (or all of them). */
  function CString(s: string): (c: string)
    ensures c <= s
    ensures forall k :: 0 <= k < |c| ==> c[k] != Nul
    ensures |c| < |s| ==> s[|c|] == Nul
  {
    if s == [] || s[0] == Nul then [] else [s[0]] + CString(s[1..])
  }

  /** The three facts about `CString` pin it down: any prefix free of NUL that
      stops at a NUL or at the end is the C string. */
  lemma CStringUnique(s: string, c: string)
    requires c <= s
    requires forall k :: 0 <= k < |c| ==> c[k] != Nul
    requires |c| < |s| ==> s[|c|] == Nul
    ensures c == CString(s)
  {
  }

  /** `strnlen(s, cap)`: the length of the C string, at most `cap`. */
  function StrnLen(s: string, cap: nat): (n: nat)
    ensures n <= cap && n <= |CString(s)|
    ensures n < cap ==> n == |CString(s)|
  {
    if |CString(s)| < cap then |CString(s)| else cap
  }

  /** FIX2INT: the Integer as a C `int`, or RangeError when it does not fit. */
  function Fix2Int(i: int): (r: Result<int, Exception>)
    ensures r.Ok? ==> r.value == i && IntMin <= r.value <= IntMax
    ensures r.Raise? ==> r.error == RangeError && (i < IntMin || IntMax < i)
  {
    if IntMin <= i <= IntMax then Ok(i) else Raise(RangeError)
  }
}

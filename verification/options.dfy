/** The option setters that validate their argument before handing it to the
    engine (ext/rbsrt/rbsrt.c:966-1196): `passphrase=`, `streamid=` (with its
    getter) and `transmission_mode=`.

    Each setter returns the engine write it made, if any, together with the
    Ruby outcome; the engine's answer to that write is an input. */
module Options {
  import opened Wrappers
  import opened Srt
  import opened Errors
  import opened RubyValues
  import SocketState

  /** RBSRT_PASSPHRASE_MIN / RBSRT_PASSPHRASE_MAX. */
  const PassphraseMin: nat := 10
  const PassphraseMax: nat := 79

  /** The longest stream id `streamid=` accepts. */
  const StreamIdMax: nat := 512

  /** The size of the buffer `streamid` reads into. */
  const StreamIdBufferSize: nat := 1024

  /** One `srt_setsockflag` call: the option and the bytes it is handed (its
      length argument is the length of `data`, or 0 with a NULL pointer). */
  datatype Write =
    | PassphraseWrite(buf: Option<string>)
    | StreamIdWrite(data: string)
    | TransTypeWrite(mode: int)

  /** What a setter did: the engine write it made, and what it returned or raised. */
  datatype Outcome = Outcome(write: Option<Write>, result: Result<bool, Exception>)

  /** The engine's answer to a write that was made, as the Ruby result. */
  function Finish(w: Write, reply: EngineReply): (o: Outcome)
    ensures o.write == Some(w)
    ensures o.result == Ok(true) <==> reply == Done
    ensures reply.Failed? ==> o.result == Raise(LastErrorException(reply.code))
  {
    match reply
    case Done => Outcome(Some(w), Ok(true))
    case Failed(code) => Outcome(Some(w), Raise(LastErrorException(code)))
  }

  function Refuse(e: Exception): (o: Outcome)
    ensures o.write == None && o.result == Raise(e)
  {
    Outcome(None, Raise(e))
  }

  /** A passphrase the engine may be handed: empty, or 10 to 79 characters. */
  predicate PassphraseLengthOk(n: nat) {
    n == 0 || PassphraseMin <= n <= PassphraseMax
  }

  /** `passphrase=`: nil clears the passphrase; a String is measured with
      strnlen (capped at twice the maximum) and must be empty or within the
      bounds; anything else is a TypeError. The argument is checked before the
      socket guard. */
  function SetPassphrase(guard: int, v: Value, reply: EngineReply): (o: Outcome)
    ensures v.Other? || v.Sym? || v.Int? ==> o == Refuse(TypeError)
    ensures v.Str? && !PassphraseLengthOk(|CString(v.text)|) ==> o == Refuse(ArgumentError)
    ensures o.write.Some? <==>
      && guard != StatusNonexist
      && (v.Nil? || (v.Str? && PassphraseLengthOk(|CString(v.text)|)))
    ensures o.write.Some? && v.Nil? ==> o.write == Some(PassphraseWrite(None))
    ensures o.write.Some? && v.Str? ==> o.write == Some(PassphraseWrite(Some(CString(v.text) + [Nul])))
    ensures o.result == Ok(true) <==> o.write.Some? && reply == Done
  {
    match v
    case Nil =>
      if SocketState.CheckSocket(guard).Some? then Refuse(TypeError)
      else Finish(PassphraseWrite(None), reply)
    case Str(s) =>
      var n := StrnLen(s, 2 * PassphraseMax);
      if n != 0 && (n < PassphraseMin || n > PassphraseMax) then Refuse(ArgumentError)
      else if SocketState.CheckSocket(guard).Some? then Refuse(TypeError)
      else
        assert s[..n] == CString(s);
        Finish(PassphraseWrite(Some(s[..n] + [Nul])), reply)
    case _ => Refuse(TypeError)
  }

  /** `streamid=`: a String of at most 512 characters is handed to the engine
      with its terminating NUL; a longer one raises SRT::Error before the
      socket guard; anything else is a TypeError. */
  function SetStreamId(guard: int, v: Value, reply: EngineReply): (o: Outcome)
    ensures !v.Str? ==> o == Refuse(TypeError)
    ensures v.Str? && |v.text| > StreamIdMax ==> o == Refuse(SrtException(Base))
    ensures o.write.Some? <==> guard != StatusNonexist && v.Str? && |v.text| <= StreamIdMax
    ensures o.write.Some? ==> o.write == Some(StreamIdWrite(v.text + [Nul]))
    ensures o.result == Ok(true) <==> o.write.Some? && reply == Done
  {
    if !v.Str? then Refuse(TypeError)
    else if |v.text| > StreamIdMax then Refuse(SrtException(Base))
    else if SocketState.CheckSocket(guard).Some? then Refuse(TypeError)
    else Finish(StreamIdWrite(v.text + [Nul]), reply)
  }

  /** The engine's answer to `srt_getsockflag(SRTO_STREAMID)`: the bytes it
      wrote into the 1024-byte buffer, or an error. */
  datatype StreamIdRead = StreamIdFailed(code: int) | StreamIdBytes(data: string)

  /** `streamid`: the bytes the engine reported, nil when there are none. */
  function GetStreamId(guard: int, reply: StreamIdRead): (r: Result<Option<string>, Exception>)
    requires reply.StreamIdBytes? ==> |reply.data| <= StreamIdBufferSize
    ensures guard == StatusNonexist ==> r == Raise(TypeError)
    ensures guard != StatusNonexist && reply.StreamIdFailed? ==> r == Raise(LastErrorException(reply.code))
    ensures r.Ok? && r.value.Some? ==> reply == StreamIdBytes(r.value.value) && r.value.value != []
    ensures r == Ok(None) <==> guard != StatusNonexist && reply == StreamIdBytes([])
  {
    if SocketState.CheckSocket(guard).Some? then Raise(TypeError)
    else match reply
      case StreamIdFailed(code) => Raise(LastErrorException(code))
      case StreamIdBytes(data) => if |data| == 0 then Ok(None) else Ok(Some(data))
  }

  /** The name of each transmission type. */
  function TransTypeName(mode: int): string {
    if mode == TransLive then "live" else "file"
  }

  /** Reference: the spellings `transmission_mode=` accepts for `mode` — its
      name as a String or Symbol (as far as C string comparison sees it), or
      its integer constant. */
  predicate Spells(v: Value, mode: int) {
    && (mode == TransLive || mode == TransFile)
    && match v
       case Str(s) => CString(s) == TransTypeName(mode)
       case Sym(name) => CString(name) == TransTypeName(mode)
       case Int(i) => i == mode
       case _ => false
  }

  /** The mode a Symbol or String names, when it names one. */
  function NamedMode(name: string): (m: Option<int>)
    ensures m.Some? ==> (m.value == TransLive || m.value == TransFile) && CString(name) == TransTypeName(m.value)
    ensures m.None? ==> CString(name) != "live" && CString(name) != "file"
  {
    if CString(name) == "live" then Some(TransLive)
    else if CString(name) == "file" then Some(TransFile)
    else None
  }

  /** `transmission_mode=`: the socket guard first, then the argument. A
      Fixnum outside the C `int` range raises RangeError from FIX2INT. */
  function SetTransType(guard: int, v: Value, reply: EngineReply): (o: Outcome)
    ensures guard == StatusNonexist ==> o == Refuse(TypeError)
    ensures o.write.Some? ==> exists mode :: o.write == Some(TransTypeWrite(mode)) && Spells(v, mode)
    ensures o.result == Ok(true) ==> o.write.Some? && reply == Done
  {
    if SocketState.CheckSocket(guard).Some? then Refuse(TypeError)
    else match v
      case Str(s) =>
        (match NamedMode(s)
         case Some(mode) => Finish(TransTypeWrite(mode), reply)
         case None => Refuse(ArgumentError))
      case Sym(name) =>
        (match NamedMode(name)
         case Some(mode) => Finish(TransTypeWrite(mode), reply)
         case None => Refuse(ArgumentError))
      case Int(i) =>
        if !IsFixnum(i) then Refuse(ArgumentError)
        else (match Fix2Int(i)
              case Raise(e) => Refuse(e)
              case Ok(n) =>
                if n == TransLive || n == TransFile then Finish(TransTypeWrite(n), reply)
                else Refuse(ArgumentError))
      case _ => Refuse(ArgumentError)
  }

  /** On a valid socket, `transmission_mode=` writes `mode` exactly when the
      argument spells it; every other argument raises ArgumentError, except a
      Fixnum too wide for a C `int`, which raises RangeError. */
  lemma TransTypeAcceptsExactlySpellings(guard: int, v: Value, reply: EngineReply, mode: int)
    requires guard != StatusNonexist
    ensures SetTransType(guard, v, reply).write == Some(TransTypeWrite(mode)) <==> Spells(v, mode)
    ensures (forall m :: !Spells(v, m)) ==>
      SetTransType(guard, v, reply) ==
        Refuse(if v.Int? && IsFixnum(v.i) && (v.i < IntMin || IntMax < v.i) then RangeError else ArgumentError)
  {
    if v.Str? {
      var _ := NamedMode(v.text);
    } else if v.Sym? {
      var _ := NamedMode(v.name);
    } else if v.Int? && (forall m :: !Spells(v, m)) {
      assert !Spells(v, v.i);
    }
  }
}

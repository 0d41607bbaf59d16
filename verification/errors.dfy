/** The mapping from an engine error code to the Ruby exception class raised
    for it (ext/rbsrt/rbsrt.c:171-331), and each class's `Code` constant
    (ext/rbsrt/rbsrt.c:392-429). The numeric codes are those of the SRT
    library's SRT_ERRNO enumeration. */
module Errors {

  /** The subclasses of SRT::Error, plus `Base` for SRT::Error itself. */
  datatype ErrorClass =
    | Base
    | Unknown | ConnSetup | NoServer | ConnRej | SockFail | SecFail
    | ConnFail | ConnLost | NoConn
    | Resource | Thread | NoBuf
    | File | InvRdOff | RdPerm | InvWrOff | WrPerm
    | InvOp | BoundSock | ConnSock | InvParam | InvSock | UnboundSock | NoListen
    | RdvNoServ | RdvUnbound | InvalMsgApi | InvalBufferApi | DupListen | LargeMsg | InvPollId
    | AsyncFail | AsyncSnd | AsyncRcv | Timeout | Congest
    | PeerErr

  /** Every exception a modelled operation can raise. */
  datatype Exception =
    | TypeError
    | ArgumentError
    | RangeError
    | SrtException(cls: ErrorClass)

  /** The `Code` constant defined on each class. */
  function CodeOf(cls: ErrorClass): int {
    match cls
    case Base => 0
    case Unknown => -1
    case ConnSetup => 1000
    case NoServer => 1001
    case ConnRej => 1002
    case SockFail => 1003
    case SecFail => 1004
    case ConnFail => 2000
    case ConnLost => 2001
    case NoConn => 2002
    case Resource => 3000
    case Thread => 3001
    case NoBuf => 3002
    case File => 4000
    case InvRdOff => 4001
    case RdPerm => 4002
    case InvWrOff => 4003
    case WrPerm => 4004
    case InvOp => 5000
    case BoundSock => 5001
    case ConnSock => 5002
    case InvParam => 5003
    case InvSock => 5004
    case UnboundSock => 5005
    case NoListen => 5006
    case RdvNoServ => 5007
    case RdvUnbound => 5008
    case InvalMsgApi => 5009
    case InvalBufferApi => 5010
    case DupListen => 5011
    case LargeMsg => 5012
    case InvPollId => 5013
    case AsyncFail => 6000
    case AsyncSnd => 6001
    case AsyncRcv => 6002
    case Timeout => 6003
    case Congest => 6004
    case PeerErr => 7000
  }

  /** The engine codes the switch names explicitly: SRT codes are
      major * 1000 + minor, and the switch covers these minors of each major. */
  predicate IsKnownCode(code: int) {
    || code == -1
    || 1000 <= code <= 1004
    || 2000 <= code <= 2002
    || 3000 <= code <= 3002
    || 4000 <= code <= 4004
    || 5000 <= code <= 5013
    || 6000 <= code <= 6004
    || code == 7000
  }

  /** The cases of the switch for connection setup (1000s) codes. */
  function SetupClass(code: int): (cls: ErrorClass)
    ensures cls != Base ==> CodeOf(cls) == code
    ensures cls == Base <==> !(1000 <= code <= 1004)
  {
    match code
    case 1000 => ConnSetup
    case 1001 => NoServer
    case 1002 => ConnRej
    case 1003 => SockFail
    case 1004 => SecFail
    case _ => Base
  }

  /** The cases of the switch for connection state (2000s) codes. */
  function ConnectionClass(code: int): (cls: ErrorClass)
    ensures cls != Base ==> CodeOf(cls) == code
    ensures cls == Base <==> !(2000 <= code <= 2002)
  {
    match code
    case 2000 => ConnFail
    case 2001 => ConnLost
    case 2002 => NoConn
    case _ => Base
  }

  /** The cases of the switch for system resource (3000s) codes. */
  function SystemClass(code: int): (cls: ErrorClass)
    ensures cls != Base ==> CodeOf(cls) == code
    ensures cls == Base <==> !(3000 <= code <= 3002)
  {
    match code
    case 3000 => Resource
    case 3001 => Thread
    case 3002 => NoBuf
    case _ => Base
  }

  /** The cases of the switch for file I/O (4000s) codes. */
  function FileClass(code: int): (cls: ErrorClass)
    ensures cls != Base ==> CodeOf(cls) == code
    ensures cls == Base <==> !(4000 <= code <= 4004)
  {
    match code
    case 4000 => File
    case 4001 => InvRdOff
    case 4002 => RdPerm
    case 4003 => InvWrOff
    case 4004 => WrPerm
    case _ => Base
  }

  /** The cases of the switch for unsupported operation (5000s) codes. */
  function UnsupportedClass(code: int): (cls: ErrorClass)
    ensures cls != Base ==> CodeOf(cls) == code
    ensures cls == Base <==> !(5000 <= code <= 5013)
  {
    match code
    case 5000 => InvOp
    case 5001 => BoundSock
    case 5002 => ConnSock
    case 5003 => InvParam
    case 5004 => InvSock
    case 5005 => UnboundSock
    case 5006 => NoListen
    case 5007 => RdvNoServ
    case 5008 => RdvUnbound
    case 5009 => InvalMsgApi
    case 5010 => InvalBufferApi
    case 5011 => DupListen
    case 5012 => LargeMsg
    case 5013 => InvPollId
    case _ => Base
  }

  /** The cases of the switch for non-blocking call failure (6000s) codes. */
  function AgainClass(code: int): (cls: ErrorClass)
    ensures cls != Base ==> CodeOf(cls) == code
    ensures cls == Base <==> !(6000 <= code <= 6004)
  {
    match code
    case 6000 => AsyncFail
    case 6001 => AsyncSnd
    case 6002 => AsyncRcv
    case 6003 => Timeout
    case 6004 => Congest
    case _ => Base
  }

  /** rbstr_error_with_srt_error_code: the class raised for an engine code. */
  function ClassOf(code: int): (cls: ErrorClass)
    ensures cls != Base ==> CodeOf(cls) == code
    ensures cls == Base <==> !IsKnownCode(code)
  {
    if code == -1 then Unknown
    else if code < 2000 then SetupClass(code)
    else if code < 3000 then ConnectionClass(code)
    else if code < 4000 then SystemClass(code)
    else if code < 5000 then FileClass(code)
    else if code < 6000 then UnsupportedClass(code)
    else if code < 7000 then AgainClass(code)
    else if code == 7000 then PeerErr
    else Base
  }

  /** The exception rbsrt_raise_last_srt_error raises for the engine's last error. */
  function LastErrorException(code: int): (e: Exception)
    ensures e.SrtException?
    ensures CodeOf(e.cls) == (if IsKnownCode(code) then code else 0)
  {
    UnknownCodesRaiseBase(code);
    SrtException(ClassOf(code))
  }

  /** Raising and then reading `code` recovers the engine code for every class
      the switch names: the two tables are inverse to each other. */
  lemma ClassCodeRoundTrip(cls: ErrorClass)
    requires cls != Base
    ensures IsKnownCode(CodeOf(cls))
    ensures ClassOf(CodeOf(cls)) == cls
  {
    match cls
    case Unknown => {}
    case ConnSetup => {}
    case NoServer => {}
    case ConnRej => {}
    case SockFail => {}
    case SecFail => {}
    case ConnFail => {}
    case ConnLost => {}
    case NoConn => {}
    case Resource => {}
    case Thread => {}
    case NoBuf => {}
    case File => {}
    case InvRdOff => {}
    case RdPerm => {}
    case InvWrOff => {}
    case WrPerm => {}
    case InvOp => {}
    case BoundSock => {}
    case ConnSock => {}
    case InvParam => {}
    case InvSock => {}
    case UnboundSock => {}
    case NoListen => {}
    case RdvNoServ => {}
    case RdvUnbound => {}
    case InvalMsgApi => {}
    case InvalBufferApi => {}
    case DupListen => {}
    case LargeMsg => {}
    case InvPollId => {}
    case AsyncFail => {}
    case AsyncSnd => {}
    case AsyncRcv => {}
    case Timeout => {}
    case Congest => {}
    case PeerErr => {}
  }

  /** Exactly the codes outside the switch fall back to SRT::Error, whose
      `Code` is 0. */
  lemma UnknownCodesRaiseBase(code: int)
    ensures ClassOf(code) == Base <==> !IsKnownCode(code)
  {
    if ClassOf(code) != Base {
      ClassCodeRoundTrip(ClassOf(code));
    } else if IsKnownCode(code) {
      assert false;
    }
  }

  /** Distinct classes carry distinct codes, so `code` identifies the class. */
  lemma CodesDistinct(a: ErrorClass, b: ErrorClass)
    requires a != b
    ensures CodeOf(a) != CodeOf(b)
  {
    if a != Base {
      ClassCodeRoundTrip(a);
    }
    if b != Base {
      ClassCodeRoundTrip(b);
    }
  }
}

/** `socket.connect(host, port)` (ext/rbsrt/rbsrt.c:613-687): resolve the
    address, then try each resolved candidate in order until the engine
    accepts one.

    Resolution is an input: `None` when getaddrinfo fails, otherwise the
    engine's answer to `srt_connect` for each candidate it returned, in list
    order. */
module Connect {
  import opened Wrappers
  import opened Srt
  import opened Errors
  import opened RubyValues
  import SocketState

  /** What the call did: how many candidates it handed to `srt_connect`, and
      what it returned or raised. */
  datatype ConnectOutcome = ConnectOutcome(tried: nat, result: Result<bool, Exception>)

  /** Both arguments must be Strings, the socket must exist, and the address
      must resolve; then the first candidate the engine accepts ends the loop,
      and if none does, the last engine error is raised. */
  method Connect(guard: int, host: Value, port: Value, resolved: Option<seq<EngineReply>>)
    returns (o: ConnectOutcome)
    ensures !host.Str? || !port.Str? || guard == StatusNonexist ==> o == ConnectOutcome(0, Raise(TypeError))
    ensures host.Str? && port.Str? && guard != StatusNonexist && resolved.None? ==>
      o == ConnectOutcome(0, Raise(SrtException(Base)))
    ensures o.result.Ok? ==>
      && resolved.Some? && 0 < o.tried <= |resolved.value|
      && o.result.value
      && resolved.value[o.tried - 1] == Done
      && forall k :: 0 <= k < o.tried - 1 ==> resolved.value[k].Failed?
    ensures host.Str? && port.Str? && guard != StatusNonexist && resolved.Some? && o.result.Raise? ==>
      && o.tried == |resolved.value|
      && (forall k :: 0 <= k < o.tried ==> resolved.value[k].Failed?)
      && o.result.error == LastErrorException(if o.tried == 0 then 0 else resolved.value[o.tried - 1].code)
    ensures host.Str? && port.Str? && guard != StatusNonexist && resolved.Some? ==>
      (o.result.Ok? <==> exists k :: 0 <= k < |resolved.value| && resolved.value[k] == Done)
  {
    if !host.Str? || !port.Str? || SocketState.CheckSocket(guard).Some? {
      return ConnectOutcome(0, Raise(TypeError));
    }
    if resolved.None? {
      return ConnectOutcome(0, Raise(SrtException(Base)));
    }
    var candidates := resolved.value;
    var lastError := 0;
    var i := 0;
    while i < |candidates|
      invariant i <= |candidates|
      invariant forall k :: 0 <= k < i ==> candidates[k].Failed?
      invariant lastError == if i == 0 then 0 else candidates[i - 1].code
    {
      match candidates[i]
      case Done =>
        return ConnectOutcome(i + 1, Ok(true));
      case Failed(code) =>
        lastError := code;
      i := i + 1;
    }
    return ConnectOutcome(i, Raise(LastErrorException(lastError)));
  }
}

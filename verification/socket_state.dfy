/** The socket-state API shared by every socket class
    (ext/rbsrt/rbsrt.c:476-608) and the validity guard every base-unwrapped
    call runs first (ext/rbsrt/rbsrt.h:220-234).

    The engine state is never cached: each call queries it. A call that goes
    through the base unwrap queries it twice, once for the guard and once in
    the body, so the model takes both answers as inputs (`guard`, `status`). */
module SocketState {
  import opened Wrappers
  import opened Srt
  import opened Errors

  /** The Ruby symbols `state` can return. */
  datatype StateSymbol =
    | Ready | Opened | Listening | Connecting | Connected | Broken | Closing | Closed | Nonexist

  /** The engine status each symbol stands for. */
  function StatusOf(sym: StateSymbol): int {
    match sym
    case Ready => StatusInit
    case Opened => StatusOpened
    case Listening => StatusListening
    case Connecting => StatusConnecting
    case Connected => StatusConnected
    case Broken => StatusBroken
    case Closing => StatusClosing
    case Closed => StatusClosed
    case Nonexist => StatusNonexist
  }

  /** The symbol's name as Ruby prints it. */
  function SymbolName(sym: StateSymbol): string {
    match sym
    case Ready => "ready"
    case Opened => "opened"
    case Listening => "listening"
    case Connecting => "connecting"
    case Connected => "connected"
    case Broken => "broken"
    case Closing => "closing"
    case Closed => "closed"
    case Nonexist => "nonexist"
  }

  /** The switch of rbsrt_socket_get_socket_state; an unlisted status gives nil. */
  function SymbolOf(status: int): (r: Option<StateSymbol>)
    ensures r.Some? ==> StatusOf(r.value) == status
    ensures r.None? <==> !(StatusInit <= status <= StatusNonexist)
  {
    if status == StatusInit then Some(Ready)
    else if status == StatusOpened then Some(Opened)
    else if status == StatusListening then Some(Listening)
    else if status == StatusConnecting then Some(Connecting)
    else if status == StatusConnected then Some(Connected)
    else if status == StatusBroken then Some(Broken)
    else if status == StatusClosing then Some(Closing)
    else if status == StatusClosed then Some(Closed)
    else if status == StatusNonexist then Some(Nonexist)
    else None
  }

  /** RBSRT_CHECK_SOCKET: a handle whose engine state is NONEXIST is refused
      with TypeError before anything else happens. */
  function CheckSocket(guard: int): (r: Option<Exception>)
    ensures r.Some? ==> r.value == TypeError
    ensures r.None? <==> guard != StatusNonexist
  {
    if guard == StatusNonexist then Some(TypeError) else None
  }

  /** `socket.state` */
  function State(guard: int, status: int): (r: Result<Option<StateSymbol>, Exception>)
    ensures r.Raise? <==> guard == StatusNonexist
    ensures r.Raise? ==> r.error == TypeError
    ensures r.Ok? && r.value.Some? ==> StatusOf(r.value.value) == status
  {
    if CheckSocket(guard).Some? then Raise(TypeError) else Ok(SymbolOf(status))
  }

  /** The predicates `ready?` ... `nonexist?`: each compares the live status
      with the one status its name stands for. */
  function Is(sym: StateSymbol, guard: int, status: int): (r: Result<bool, Exception>)
    ensures r.Raise? <==> guard == StatusNonexist
    ensures r.Raise? ==> r.error == TypeError
  {
    if CheckSocket(guard).Some? then Raise(TypeError) else Ok(status == StatusOf(sym))
  }

  /** Each predicate agrees with `state`: `x?` is true exactly when `state`
      returns `:x`, so for a known status exactly one predicate holds and for
      an unknown one (where `state` is nil) none does. */
  lemma PredicatesAgreeWithState(sym: StateSymbol, guard: int, status: int)
    requires guard != StatusNonexist
    ensures Is(sym, guard, status) == Ok(State(guard, status) == Ok(Some(sym)))
  {
    var r := SymbolOf(status);
    if r == Some(sym) {
      assert StatusOf(sym) == status;
    } else if status == StatusOf(sym) {
      SymbolOfStatusOf(sym);
    }
  }

  /** Mapping a symbol to its status and back is the identity. */
  lemma SymbolOfStatusOf(sym: StateSymbol)
    ensures SymbolOf(StatusOf(sym)) == Some(sym)
  {
  }

  /** The nine symbol names are pairwise distinct. */
  lemma SymbolNamesDistinct(a: StateSymbol, b: StateSymbol)
    requires a != b
    ensures SymbolName(a) != SymbolName(b)
  {
  }

  /** Because the guard refuses NONEXIST first, a socket whose state does not
      change between the guard and the body never reports `:nonexist`, and
      `nonexist?` never answers true: both raise TypeError instead. */
  lemma NonexistIsNeverReported(status: int)
    ensures State(status, status) != Ok(Some(Nonexist))
    ensures Is(Nonexist, status, status) != Ok(true)
  {
  }

  /** The guard and the body ask the engine separately: a socket that the
      engine drops between the two questions does report `:nonexist`, and
      `nonexist?` then answers true. */
  lemma NonexistReportedAfterRace(guard: int)
    requires guard != StatusNonexist
    ensures State(guard, StatusNonexist) == Ok(Some(Nonexist))
    ensures Is(Nonexist, guard, StatusNonexist) == Ok(true)
  {
  }
}

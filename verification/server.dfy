/** The event dispatch of `SRT::Server#start` (ext/rbsrt/rbsrt.c:1646-1769)
    over the server record of ext/rbsrt/rbsrt.h:81-95.

    The state is the registry (`@connections_by_socket`, socket id to
    connection record), the sockets in the server's private poll set with
    their interest, the live-connection counter (an `atomic_size_t`, so it
    wraps modulo 2^64) and a trace of the observable effects: acceptor calls,
    sockets closed, and the user callbacks invoked.

    The engine and the user are inputs: for each ready event a `Reaction`
    gives the socket's state, and what `srt_accept`, the acceptor block,
    `srt_epoll_add_usock` and `srt_recvmsg2` answer.

    `Step` and `Batch` follow the source, including the counter decrement on
    a rejected connection; `StepCorrected` and `BatchCorrected` leave the
    counter alone there, and the counter invariant is proved of them. */
module Server {
  import opened Wrappers
  import opened Srt
  import opened Transmission
  import Poll

  /** A Ruby block registered by the user, by identity. */
  datatype Callback = Callback(id: nat)

  /** A connection record: its socket and the two callbacks, absent until the
      acceptor sets them. */
  datatype Connection = Connection(socket: int, onData: Option<Callback>, onClose: Option<Callback>)

  datatype Effect =
    | AcceptorCalled(fd: int)
    | SocketClosed(fd: int)
    | DataDelivered(callback: Callback, fd: int, data: seq<bv8>)
    | CloseNotified(callback: Callback, fd: int)

  datatype ServerState = ServerState(
    listener: int,
    registry: map<int, Connection>,
    watched: map<int, bv32>,
    count: nat,
    trace: seq<Effect>)

  /** An `atomic_size_t` holds values modulo 2^64. */
  const Modulus: int := 0x1_0000_0000_0000_0000

  /** `server->num_connections` after `atomic_fetch_add(.., 1)`. */
  function Inc(c: nat): (r: nat)
    requires c < Modulus
    ensures r < Modulus
    ensures r == (c + 1) % Modulus
  {
    if c + 1 == Modulus then 0 else c + 1
  }

  /** `server->num_connections` after `atomic_fetch_sub(.., 1)`: from 0 it
      wraps to the largest value rather than going negative. */
  function Dec(c: nat): (r: nat)
    requires c < Modulus
    ensures r < Modulus
    ensures r == (c - 1) % Modulus
  {
    if c == 0 then Modulus - 1 else c - 1
  }

  /** The interest every accepted connection is registered with. */
  const ConnectionEvents: bv32 := EpollOut | EpollIn | EpollErr

  /** The size of the buffer the server reads into. */
  const ServerReadSize: nat := 8 * PayloadSize

  /** What the acceptor block decided, and the callbacks it set on the new
      connection. */
  datatype Verdict = Verdict(accept: bool, onData: Option<Callback>, onClose: Option<Callback>)

  /** The engine's and the user's answers while one event is handled; only the
      fields the socket's state calls for are consulted. */
  datatype Reaction = Reaction(
    state: int,
    accepted: int,
    verdict: Verdict,
    addOk: bool,
    read: ReadReply)

  /** The state right after `start` has set up its poll: only the listening
      socket is watched, for IN. */
  function Initial(listener: int): ServerState {
    ServerState(listener, map[], map[listener := EpollIn], 0, [])
  }

  predicate IsTeardownState(status: int) {
    status == StatusClosed || status == StatusNonexist || status == StatusBroken
  }

  /** Handling of one event on a socket in LISTENING state, as written:
      accept, ask the acceptor, then register or close. A rejection
      decrements the counter, which was never incremented for it. */
  function AcceptStepAsWritten(s: ServerState, re: Reaction): (t: ServerState)
    requires s.count < Modulus
    ensures t.count < Modulus && t.listener == s.listener
    ensures re.verdict.accept ==> t == AcceptStep(s, re)
    ensures !re.verdict.accept ==> t == AcceptStep(s, re).(count := Dec(s.count))
  {
    var fd := re.accepted;
    var trace := s.trace + [AcceptorCalled(fd)];
    if re.verdict.accept then
      var watched := if re.addOk then s.watched[fd := ConnectionEvents] else s.watched;
      var conn := Connection(fd, re.verdict.onData, re.verdict.onClose);
      ServerState(s.listener, s.registry[fd := conn], watched, Inc(s.count), trace)
    else
      ServerState(s.listener, s.registry, s.watched, Dec(s.count), trace + [SocketClosed(fd)])
  }

  /** Handling of one event on a socket in LISTENING state, corrected: a
      rejection leaves the counter as it was, since it was never incremented
      for that socket. */
  function AcceptStep(s: ServerState, re: Reaction): (t: ServerState)
    requires s.count < Modulus
    ensures t.count < Modulus && t.listener == s.listener
    ensures re.verdict.accept ==>
      && t.registry == s.registry[re.accepted := Connection(re.accepted, re.verdict.onData, re.verdict.onClose)]
      && t.count == (s.count + 1) % Modulus
      && t.trace == s.trace + [AcceptorCalled(re.accepted)]
      && t.watched == (if re.addOk then s.watched[re.accepted := ConnectionEvents] else s.watched)
    ensures !re.verdict.accept ==>
      && t.registry == s.registry && t.watched == s.watched
      && t.count == s.count
      && t.trace == s.trace + [AcceptorCalled(re.accepted), SocketClosed(re.accepted)]
  {
    var fd := re.accepted;
    var trace := s.trace + [AcceptorCalled(fd)];
    if re.verdict.accept then
      var watched := if re.addOk then s.watched[fd := ConnectionEvents] else s.watched;
      var conn := Connection(fd, re.verdict.onData, re.verdict.onClose);
      ServerState(s.listener, s.registry[fd := conn], watched, Inc(s.count), trace)
    else
      ServerState(s.listener, s.registry, s.watched, Dec(Inc(s.count)), trace + [SocketClosed(fd)])
  }

  /** Handling of one event on a socket in CLOSED, NONEXIST or BROKEN state:
      unwatch it and, if it has a record, drop the record, decrement the
      counter and call its close callback. */
  function TeardownStep(s: ServerState, fd: int): (t: ServerState)
    requires s.count < Modulus
    ensures t.count < Modulus && t.listener == s.listener
    ensures t.watched == s.watched - {fd}
    ensures t.registry == s.registry - {fd}
    ensures fd !in s.registry ==> t.count == s.count && t.trace == s.trace
    ensures fd in s.registry ==>
      && t.count == Dec(s.count)
      && t.trace == s.trace + (match s.registry[fd].onClose
                               case Some(cb) => [CloseNotified(cb, fd)]
                               case None => [])
  {
    var watched := s.watched - {fd};
    if fd in s.registry then
      var conn := s.registry[fd];
      var notify := match conn.onClose case Some(cb) => [CloseNotified(cb, fd)] case None => [];
      ServerState(s.listener, s.registry - {fd}, watched, Dec(s.count), s.trace + notify)
    else ServerState(s.listener, s.registry, watched, s.count, s.trace)
  }

  /** Handling of a readable event on a CONNECTED socket: a read error or an
      empty read does nothing; otherwise the data goes to the registered
      data callback, if any. */
  function DataStep(s: ServerState, fd: int, read: ReadReply): (t: ServerState)
    ensures t.registry == s.registry && t.watched == s.watched && t.count == s.count
    ensures t.listener == s.listener
    ensures t.trace == s.trace || (read.Read? && exists cb :: t.trace == s.trace + [DataDelivered(cb, fd, read.data)])
  {
    match read
    case ReadFailed(_) => s
    case Read(data) =>
      if |data| > 0 && fd in s.registry && s.registry[fd].onData.Some? then
        s.(trace := s.trace + [DataDelivered(s.registry[fd].onData.value, fd, data)])
      else s
  }

  /** One iteration of the event loop's inner `for`, as written: dispatch on
      the socket's live state. */
  function Step(s: ServerState, ev: Poll.PollEvent, re: Reaction): (t: ServerState)
    requires s.count < Modulus
    ensures t.count < Modulus && t.listener == s.listener
    ensures s.trace <= t.trace
    ensures t.registry.Keys <= s.registry.Keys + {re.accepted}
    ensures re.state == StatusListening ==> t == AcceptStepAsWritten(s, re)
    ensures IsTeardownState(re.state) ==> t == TeardownStep(s, ev.fd)
    ensures re.state != StatusListening && !IsTeardownState(re.state) && t != s ==>
      re.state == StatusConnected && HasBit(ev.events, EpollIn) && t == DataStep(s, ev.fd, re.read)
  {
    if re.state == StatusListening then AcceptStepAsWritten(s, re)
    else if IsTeardownState(re.state) then TeardownStep(s, ev.fd)
    else if re.state == StatusConnected && HasBit(ev.events, EpollIn) then DataStep(s, ev.fd, re.read)
    else s
  }

  /** The events of one wait, handled in order, as written. */
  function Batch(s: ServerState, events: seq<Poll.PollEvent>, reactions: seq<Reaction>): (t: ServerState)
    requires s.count < Modulus
    requires |events| == |reactions|
    ensures t.count < Modulus && t.listener == s.listener
    ensures s.trace <= t.trace
    ensures t.registry.Keys <= s.registry.Keys + set i | 0 <= i < |reactions| :: reactions[i].accepted
    decreases |events|
  {
    if events == [] then s
    else Batch(Step(s, events[0], reactions[0]), events[1..], reactions[1..])
  }

  /** One iteration with the corrected accept handling: it differs from the
      step as written only in the counter after a rejection. */
  function StepCorrected(s: ServerState, ev: Poll.PollEvent, re: Reaction): (t: ServerState)
    requires s.count < Modulus
    ensures t.count < Modulus && t.listener == s.listener
    ensures re.state == StatusListening && !re.verdict.accept ==> t == Step(s, ev, re).(count := s.count)
    ensures !(re.state == StatusListening && !re.verdict.accept) ==> t == Step(s, ev, re)
  {
    if re.state == StatusListening then AcceptStep(s, re)
    else if IsTeardownState(re.state) then TeardownStep(s, ev.fd)
    else if re.state == StatusConnected && HasBit(ev.events, EpollIn) then DataStep(s, ev.fd, re.read)
    else s
  }

  /** The events of one wait, handled in order with the corrected step. */
  function BatchCorrected(s: ServerState, events: seq<Poll.PollEvent>, reactions: seq<Reaction>): (t: ServerState)
    requires s.count < Modulus
    requires |events| == |reactions|
    ensures t.count < Modulus && t.listener == s.listener
    ensures s.trace <= t.trace
    decreases |events|
  {
    if events == [] then s
    else BatchCorrected(StepCorrected(s, events[0], reactions[0]), events[1..], reactions[1..])
  }

  /** A step does everything but the counter the same way whatever the
      counter holds. */
  lemma StepIgnoresCount(s: ServerState, u: ServerState, ev: Poll.PollEvent, re: Reaction)
    requires s.count < Modulus && u.count < Modulus
    requires s.(count := 0) == u.(count := 0)
    ensures Step(s, ev, re).(count := 0) == Step(u, ev, re).(count := 0)
  {
  }

  /** The corrected loop differs from the loop as written only in the
      counter: the registry, the poll set and the callbacks fired agree. */
  lemma {:induction false} CorrectedBatchDiffersOnlyInCount(s: ServerState, u: ServerState, events: seq<Poll.PollEvent>, reactions: seq<Reaction>)
    requires s.count < Modulus && u.count < Modulus
    requires s.(count := 0) == u.(count := 0)
    requires |events| == |reactions|
    ensures BatchCorrected(s, events, reactions).(count := 0) == Batch(u, events, reactions).(count := 0)
    decreases |events|
  {
    if events != [] {
      var s' := StepCorrected(s, events[0], reactions[0]);
      var u' := Step(u, events[0], reactions[0]);
      StepIgnoresCount(s, u, events[0], reactions[0]);
      assert s'.(count := 0) == u'.(count := 0);
      CorrectedBatchDiffersOnlyInCount(s', u', events[1..], reactions[1..]);
    }
  }

  /** The inner loop of `start` over the events one wait reported. */
  method Dispatch(s: ServerState, events: seq<Poll.PollEvent>, reactions: seq<Reaction>) returns (t: ServerState)
    requires s.count < Modulus
    requires |events| == |reactions|
    ensures t == Batch(s, events, reactions)
    ensures t.listener == s.listener && s.trace <= t.trace
    ensures t.registry.Keys <= s.registry.Keys + set i | 0 <= i < |reactions| :: reactions[i].accepted
  {
    t := s;
    var i := 0;
    while i < |events|
      invariant i <= |events|
      invariant t.count < Modulus
      invariant Batch(s, events, reactions) == Batch(t, events[i..], reactions[i..])
    {
      assert events[i..][1..] == events[i + 1..];
      assert reactions[i..][1..] == reactions[i + 1..];
      t := Step(t, events[i], reactions[i]);
      i := i + 1;
    }
  }

  // ---------------------------------------------------------------------
  // Properties of one step

  /** As written, a rejection from a zero counter wraps it to 2^64 - 1
      although no connection is registered; the corrected step keeps 0. */
  lemma RejectionWrapsCounter(s: ServerState, re: Reaction)
    requires s.count == 0 && s.registry == map[]
    requires !re.verdict.accept
    ensures AcceptStepAsWritten(s, re).count == Modulus - 1
    ensures AcceptStepAsWritten(s, re).registry == map[]
    ensures AcceptStep(s, re).count == 0
  {
  }

  /** As written, every rejection breaks the counter's agreement with the
      registry. */
  lemma AsWrittenRejectionMiscounts(s: ServerState, re: Reaction)
    requires s.count < Modulus && Counted(s)
    requires !re.verdict.accept
    ensures !Counted(AcceptStepAsWritten(s, re))
  {
  }

  /** Tearing down is idempotent: a second CLOSED/BROKEN/NONEXIST event for
      the same socket changes nothing, so the close callback runs at most
      once. */
  lemma TeardownIdempotent(s: ServerState, ev: Poll.PollEvent, re: Reaction)
    requires s.count < Modulus
    requires IsTeardownState(re.state)
    ensures Step(Step(s, ev, re), ev, re) == Step(s, ev, re)
  {
  }

  /** A close notification names the callback the record held and is issued
      only for a socket that had a record, which is then gone. */
  lemma CloseNotifiedOnlyForRegistered(s: ServerState, ev: Poll.PollEvent, re: Reaction, cb: Callback, fd: int)
    requires s.count < Modulus
    requires CloseNotified(cb, fd) in Step(s, ev, re).trace && CloseNotified(cb, fd) !in s.trace
    ensures fd == ev.fd && fd in s.registry && s.registry[fd].onClose == Some(cb)
    ensures fd !in Step(s, ev, re).registry
  {
    var t := Step(s, ev, re);
    assert t.trace[..|s.trace|] == s.trace;
    var k :| 0 <= k < |t.trace| && t.trace[k] == CloseNotified(cb, fd);
    assert k >= |s.trace|;
  }

  /** A delivery hands the registered data callback exactly the bytes the
      engine read from that socket. */
  lemma DataDeliveredExactly(s: ServerState, ev: Poll.PollEvent, re: Reaction, cb: Callback, fd: int, d: seq<bv8>)
    requires s.count < Modulus
    requires DataDelivered(cb, fd, d) in Step(s, ev, re).trace && DataDelivered(cb, fd, d) !in s.trace
    ensures re.state == StatusConnected && HasBit(ev.events, EpollIn)
    ensures fd == ev.fd && re.read == Read(d) && |d| > 0
    ensures fd in s.registry && s.registry[fd].onData == Some(cb)
  {
    var t := Step(s, ev, re);
    assert t.trace[..|s.trace|] == s.trace;
    var k :| 0 <= k < |t.trace| && t.trace[k] == DataDelivered(cb, fd, d);
    assert k >= |s.trace|;
  }

  /** Events on sockets in any other state, and non-readable events on
      connected sockets, change nothing. */
  lemma OtherStatesIgnored(s: ServerState, ev: Poll.PollEvent, re: Reaction)
    requires s.count < Modulus
    requires re.state != StatusListening && !IsTeardownState(re.state)
    requires re.state != StatusConnected || !HasBit(ev.events, EpollIn) || re.read.ReadFailed?
    ensures Step(s, ev, re) == s
  {
  }

  // ---------------------------------------------------------------------
  // Invariants over batches

  /** The registry and the poll set agree: every record is keyed by its own
      socket, is watched, and is not the listening socket, and every watched
      socket other than the listener has a record. */
  ghost predicate Lockstep(s: ServerState) {
    && s.listener !in s.registry
    && s.registry.Keys <= s.watched.Keys
    && (forall fd :: fd in s.watched && fd != s.listener ==> fd in s.registry)
    && forall fd :: fd in s.registry ==> s.registry[fd].socket == fd
  }

  /** The engine behaves: an accepted socket is new (neither registered nor
      the listener) and the engine takes it into the poll set. */
  predicate Honest(s: ServerState, re: Reaction) {
    re.state == StatusListening ==>
      re.accepted != s.listener && re.accepted !in s.registry && (re.verdict.accept ==> re.addOk)
  }

  /** `Honest` at every step of a batch as written, each against the state it
      meets. */
  ghost predicate HonestBatch(s: ServerState, events: seq<Poll.PollEvent>, reactions: seq<Reaction>)
    requires s.count < Modulus
    requires |events| == |reactions|
    decreases |events|
  {
    events != [] ==>
      Honest(s, reactions[0])
      && HonestBatch(Step(s, events[0], reactions[0]), events[1..], reactions[1..])
  }

  /** `Honest` at every step of a corrected batch. */
  ghost predicate HonestBatchCorrected(s: ServerState, events: seq<Poll.PollEvent>, reactions: seq<Reaction>)
    requires s.count < Modulus
    requires |events| == |reactions|
    decreases |events|
  {
    events != [] ==>
      Honest(s, reactions[0])
      && HonestBatchCorrected(StepCorrected(s, events[0], reactions[0]), events[1..], reactions[1..])
  }

  lemma StepKeepsLockstep(s: ServerState, ev: Poll.PollEvent, re: Reaction)
    requires s.count < Modulus
    requires Lockstep(s) && Honest(s, re)
    ensures Lockstep(Step(s, ev, re))
  {
    if re.state == StatusListening {
      var t := AcceptStepAsWritten(s, re);
      if re.verdict.accept {
        assert t.watched.Keys == s.watched.Keys + {re.accepted};
        assert t.registry.Keys == s.registry.Keys + {re.accepted};
      }
    }
  }

  /** Under an honest engine the registry and the poll set stay in lockstep
      through any batch. */
  lemma {:induction false} BatchKeepsLockstep(s: ServerState, events: seq<Poll.PollEvent>, reactions: seq<Reaction>)
    requires s.count < Modulus
    requires |events| == |reactions|
    requires Lockstep(s) && HonestBatch(s, events, reactions)
    ensures Lockstep(Batch(s, events, reactions))
    decreases |events|
  {
    if events != [] {
      StepKeepsLockstep(s, events[0], reactions[0]);
      BatchKeepsLockstep(Step(s, events[0], reactions[0]), events[1..], reactions[1..]);
    }
  }

  /** The counter holds the number of registered connections, modulo 2^64. */
  ghost predicate Counted(s: ServerState) {
    s.count == |s.registry| % Modulus
  }

  lemma MapRemoveCard(m: map<int, Connection>, k: int)
    requires k in m
    ensures |m - {k}| == |m| - 1
  {
    assert m.Keys == (m - {k}).Keys + {k};
  }

  /** Moving the counter by one commutes with reduction modulo 2^64. */
  lemma ModShift(x: int, d: int)
    ensures (x % Modulus + d) % Modulus == (x + d) % Modulus
  {
  }

  lemma MapAddCard(m: map<int, Connection>, k: int, v: Connection)
    requires k !in m
    ensures |m[k := v]| == |m| + 1
  {
    assert m[k := v].Keys == m.Keys + {k};
  }

  lemma AcceptKeepsCount(s: ServerState, re: Reaction)
    requires s.count < Modulus
    requires Counted(s) && re.accepted !in s.registry
    ensures Counted(AcceptStep(s, re))
  {
    if re.verdict.accept {
      var t := AcceptStep(s, re);
      var conn := Connection(re.accepted, re.verdict.onData, re.verdict.onClose);
      assert t.registry == s.registry[re.accepted := conn];
      MapAddCard(s.registry, re.accepted, conn);
      ModShift(|s.registry|, 1);
    }
  }

  lemma TeardownKeepsCount(s: ServerState, fd: int)
    requires s.count < Modulus
    requires Counted(s)
    ensures Counted(TeardownStep(s, fd))
  {
    if fd in s.registry {
      MapRemoveCard(s.registry, fd);
      ModShift(|s.registry|, -1);
    }
  }

  /** With the corrected accept handling, every event keeps the counter
      equal to the registry size. */
  lemma CorrectedStepKeepsCount(s: ServerState, ev: Poll.PollEvent, re: Reaction)
    requires s.count < Modulus
    requires Counted(s) && Honest(s, re)
    ensures Counted(StepCorrected(s, ev, re))
  {
    if re.state == StatusListening {
      AcceptKeepsCount(s, re);
    } else if IsTeardownState(re.state) {
      TeardownKeepsCount(s, ev.fd);
    }
  }

  /** Under an honest engine and the corrected accept handling, the counter
      keeps its meaning through any batch. */
  lemma {:induction false} CorrectedBatchKeepsCount(s: ServerState, events: seq<Poll.PollEvent>, reactions: seq<Reaction>)
    requires s.count < Modulus
    requires |events| == |reactions|
    requires Counted(s) && HonestBatchCorrected(s, events, reactions)
    ensures Counted(BatchCorrected(s, events, reactions))
    decreases |events|
  {
    if events != [] {
      CorrectedStepKeepsCount(s, events[0], reactions[0]);
      CorrectedBatchKeepsCount(StepCorrected(s, events[0], reactions[0]), events[1..], reactions[1..]);
    }
  }

  /** As written, the loop loses the count at the first rejection: a fresh
      server that rejects its first connection reports 2^64 - 1 connections
      while none is registered; the corrected loop reports 0. */
  lemma RejectedFirstConnectionMiscounts(listener: int, fd: int, cb: Option<Callback>)
    ensures var reject := Reaction(StatusListening, fd, Verdict(false, cb, cb), false, ReadFailed(0));
      var events := [Poll.PollEvent(listener, EpollIn)];
      && Batch(Initial(listener), events, [reject]).count == Modulus - 1
      && Batch(Initial(listener), events, [reject]).registry == map[]
      && !Counted(Batch(Initial(listener), events, [reject]))
      && BatchCorrected(Initial(listener), events, [reject]).count == 0
      && Counted(BatchCorrected(Initial(listener), events, [reject]))
  {
    var reject := Reaction(StatusListening, fd, Verdict(false, cb, cb), false, ReadFailed(0));
    var events := [Poll.PollEvent(listener, EpollIn)];
    var s0 := Initial(listener);
    assert events[1..] == [] && [reject][1..] == [];
    assert Batch(s0, events, [reject]) == Step(s0, events[0], reject);
    assert BatchCorrected(s0, events, [reject]) == StepCorrected(s0, events[0], reject);
  }

  /** A fresh server satisfies both invariants. */
  lemma InitialInvariants(listener: int)
    ensures Lockstep(Initial(listener)) && Counted(Initial(listener))
  {
  }

  /** Accept one connection, receive on it, see it close: the acceptor, the
      data callback and the close callback run once each, in that order, and
      the server is back to no connections. */
  lemma AcceptReadClose(listener: int, fd: int, onData: Callback, onClose: Callback, d: seq<bv8>)
    requires fd != listener && 0 < |d| <= ServerReadSize
    ensures var accept := Reaction(StatusListening, fd, Verdict(true, Some(onData), Some(onClose)), true, ReadFailed(0));
      var read := Reaction(StatusConnected, 0, Verdict(false, None, None), false, Read(d));
      var close := Reaction(StatusBroken, 0, Verdict(false, None, None), false, ReadFailed(0));
      var t := Batch(Initial(listener),
                     [Poll.PollEvent(listener, EpollIn), Poll.PollEvent(fd, EpollIn), Poll.PollEvent(fd, EpollErr)],
                     [accept, read, close]);
      && t.trace == [AcceptorCalled(fd), DataDelivered(onData, fd, d), CloseNotified(onClose, fd)]
      && t.registry == map[] && t.count == 0 && t.watched == map[listener := EpollIn]
  {
    var accept := Reaction(StatusListening, fd, Verdict(true, Some(onData), Some(onClose)), true, ReadFailed(0));
    var read := Reaction(StatusConnected, 0, Verdict(false, None, None), false, Read(d));
    var close := Reaction(StatusBroken, 0, Verdict(false, None, None), false, ReadFailed(0));
    var evs := [Poll.PollEvent(listener, EpollIn), Poll.PollEvent(fd, EpollIn), Poll.PollEvent(fd, EpollErr)];
    var rs := [accept, read, close];
    var s0 := Initial(listener);
    var s1 := Step(s0, evs[0], accept);
    var s2 := Step(s1, evs[1], read);
    var s3 := Step(s2, evs[2], close);
    assert s1.registry == map[fd := Connection(fd, Some(onData), Some(onClose))];
    assert s1.trace == [AcceptorCalled(fd)];
    assert s2.trace == [AcceptorCalled(fd), DataDelivered(onData, fd, d)];
    assert s3.registry == map[];
    assert s3.watched == map[listener := EpollIn];
    assert evs[1..][1..][1..] == [] && rs[1..][1..][1..] == [];
    assert Batch(s0, evs, rs) == Batch(s1, evs[1..], rs[1..]);
    assert Batch(s1, evs[1..], rs[1..]) == Batch(s2, evs[1..][1..], rs[1..][1..]);
    assert Batch(s2, evs[1..][1..], rs[1..][1..]) == Batch(s3, evs[1..][1..][1..], rs[1..][1..][1..]);
  }
}

/** `SRT::Poll` (ext/rbsrt/rbsrt.c:1945-2152, state in ext/rbsrt/rbsrt.h:103-107):
    an engine poll set plus the `@sockets` map from socket id to the Ruby
    socket object that was added under it.

    The engine's poll set is part of the model state (`watched`, socket id to
    interest mask) so that what the map and the engine believe can be
    compared; the engine's answer to each add/update/remove/wait is an input. */
module Poll {
  import opened Wrappers
  import opened Srt
  import opened Errors
  import opened RubyValues
  import Interest
  import SocketState

  /** A Ruby socket object added to a poll, by identity. */
  datatype Owner = Owner(id: nat)

  datatype PollState = PollState(sockets: map<int, Owner>, watched: map<int, bv32>)

  /** A fresh poll: empty map, empty engine set. */
  const Empty := PollState(map[], map[])

  /** Every socket the map can report is in the engine's poll set. */
  ghost predicate Registered(p: PollState) {
    p.sockets.Keys <= p.watched.Keys
  }

  /** The socket argument of add/update/remove: its guard status, engine id
      and Ruby identity. */
  datatype SocketArg = SocketArg(guard: int, fd: int, owner: Owner)

  /** `add(socket, *events)`: the socket guard, then the interest tokens, then
      the engine; the map learns the socket only once the engine took it. */
  function Add(p: PollState, s: SocketArg, tokens: seq<Value>, reply: EngineReply): (r: (PollState, Result<(), Exception>))
    ensures r.1.Raise? ==> r.0 == p
    ensures s.guard == StatusNonexist ==> r.1 == Raise(TypeError)
    ensures r.1.Ok? <==> s.guard != StatusNonexist && Interest.EventMask(tokens).Ok? && reply == Done
    ensures r.1.Ok? ==>
      r.0 == PollState(p.sockets[s.fd := s.owner], p.watched[s.fd := Interest.EventMask(tokens).value])
    ensures Registered(p) ==> Registered(r.0)
  {
    if SocketState.CheckSocket(s.guard).Some? then (p, Raise(TypeError))
    else match Interest.EventMask(tokens)
      case Raise(e) => (p, Raise(e))
      case Ok(mask) =>
        match reply
        case Failed(code) => (p, Raise(LastErrorException(code)))
        case Done => (PollState(p.sockets[s.fd := s.owner], p.watched[s.fd := mask]), Ok(()))
  }

  /** `update(socket, *events)`: the tokens are read before the socket guard;
      only the engine's interest mask changes. */
  function Update(p: PollState, s: SocketArg, tokens: seq<Value>, reply: EngineReply): (r: (PollState, Result<(), Exception>))
    ensures r.0.sockets == p.sockets
    ensures r.1.Raise? ==> r.0 == p
    ensures Interest.EventMask(tokens).Raise? ==> r.1 == Raise(Interest.EventMask(tokens).error)
    ensures r.1.Ok? <==> s.guard != StatusNonexist && Interest.EventMask(tokens).Ok? && reply == Done
    ensures r.1.Ok? ==> r.0.watched == p.watched[s.fd := Interest.EventMask(tokens).value]
    ensures Registered(p) ==> Registered(r.0)
  {
    match Interest.EventMask(tokens)
    case Raise(e) => (p, Raise(e))
    case Ok(mask) =>
      if SocketState.CheckSocket(s.guard).Some? then (p, Raise(TypeError))
      else match reply
        case Failed(code) => (p, Raise(LastErrorException(code)))
        case Done => (p.(watched := p.watched[s.fd := mask]), Ok(()))
  }

  /** `remove(socket)`: after the guard the map entry is deleted before the
      engine is asked, so an engine error leaves the map already changed. The
      removed owner (or nil) is returned. */
  function Remove(p: PollState, s: SocketArg, reply: EngineReply): (r: (PollState, Result<Option<Owner>, Exception>))
    ensures s.guard == StatusNonexist ==> r == (p, Raise(TypeError))
    ensures s.guard != StatusNonexist ==> r.0.sockets == p.sockets - {s.fd}
    ensures s.guard != StatusNonexist && reply == Done ==>
      r.0.watched == p.watched - {s.fd}
      && r.1 == Ok(if s.fd in p.sockets then Some(p.sockets[s.fd]) else None)
    ensures reply.Failed? ==> r.0.watched == p.watched
    ensures Registered(p) ==> Registered(r.0)
  {
    if SocketState.CheckSocket(s.guard).Some? then (p, Raise(TypeError))
    else
      var removed := if s.fd in p.sockets then Some(p.sockets[s.fd]) else None;
      var sockets := p.sockets - {s.fd};
      match reply
      case Failed(code) => (PollState(sockets, p.watched), Raise(LastErrorException(code)))
      case Done => (PollState(sockets, p.watched - {s.fd}), Ok(removed))
  }

  /** A failing `remove` leaves the engine watching a socket the map has
      forgotten: later events on it are dropped by `wait`. */
  lemma FailedRemoveForgetsWatchedSocket(p: PollState, s: SocketArg, code: int)
    requires s.guard != StatusNonexist && s.fd in p.sockets && Registered(p)
    ensures var r := Remove(p, s, Failed(code));
      && r.1.Raise?
      && s.fd !in r.0.sockets && s.fd in r.0.watched
  {
  }

  /** One ready event the engine reports. */
  datatype PollEvent = PollEvent(fd: int, events: bv32)

  /** What one event contributes to a bucket: its socket's owner, when the
      socket is in the map and the event has the bucket's bit. */
  function Contribution(sockets: map<int, Owner>, e: PollEvent, bit: bv32): seq<Owner> {
    if e.fd in sockets && HasBit(e.events, bit) then [sockets[e.fd]] else []
  }

  /** The owners a bucket holds, in event order. */
  function Pick(sockets: map<int, Owner>, events: seq<PollEvent>, bit: bv32): (r: seq<Owner>)
    ensures |r| <= |events|
    ensures forall o :: o in r ==> o in sockets.Values
    decreases |events|
  {
    if events == [] then []
    else Contribution(sockets, events[0], bit) + Pick(sockets, events[1..], bit)
  }

  /** Picking distributes over concatenation of event lists, so the buckets
      keep event order. */
  lemma {:induction false} PickAppend(sockets: map<int, Owner>, a: seq<PollEvent>, b: seq<PollEvent>, bit: bv32)
    ensures Pick(sockets, a + b, bit) == Pick(sockets, a, bit) + Pick(sockets, b, bit)
    decreases |a|
  {
    if a != [] {
      assert (a + b)[0] == a[0];
      assert (a + b)[1..] == a[1..] + b;
      PickAppend(sockets, a[1..], b, bit);
    } else {
      assert a + b == b;
    }
  }

  /** An owner is in a bucket exactly when some event reports its socket with
      the bucket's bit. */
  lemma {:induction false} PickMembership(sockets: map<int, Owner>, events: seq<PollEvent>, bit: bv32, o: Owner)
    ensures o in Pick(sockets, events, bit) <==>
      exists i :: 0 <= i < |events| && events[i].fd in sockets && sockets[events[i].fd] == o
        && HasBit(events[i].events, bit)
    decreases |events|
  {
    if events != [] {
      PickMembership(sockets, events[1..], bit, o);
      if o in Pick(sockets, events[1..], bit) {
        var i :| 0 <= i < |events[1..]| && events[1..][i].fd in sockets && sockets[events[1..][i].fd] == o
          && HasBit(events[1..][i].events, bit);
        assert events[i + 1] == events[1..][i];
      }
      forall i | 1 <= i < |events| ensures events[i] == events[1..][i - 1] {}
    }
  }

  /** Events only on sockets the map does not hold fill no bucket. */
  lemma {:induction false} StaleEventsPickNothing(sockets: map<int, Owner>, events: seq<PollEvent>, bit: bv32)
    requires forall i :: 0 <= i < |events| ==> events[i].fd !in sockets
    ensures Pick(sockets, events, bit) == []
    decreases |events|
  {
    if events != [] {
      assert forall i :: 0 <= i < |events[1..]| ==> events[1..][i] == events[i + 1];
      StaleEventsPickNothing(sockets, events[1..], bit);
    }
  }

  /** Inserting events on sockets the map does not hold anywhere in a batch
      leaves every bucket unchanged. */
  lemma StaleEventsIgnored(sockets: map<int, Owner>, a: seq<PollEvent>, stale: seq<PollEvent>, b: seq<PollEvent>, bit: bv32)
    requires forall i :: 0 <= i < |stale| ==> stale[i].fd !in sockets
    ensures Pick(sockets, a + stale + b, bit) == Pick(sockets, a + b, bit)
  {
    StaleEventsPickNothing(sockets, stale, bit);
    PickAppend(sockets, a + stale, b, bit);
    PickAppend(sockets, a, stale, bit);
    PickAppend(sockets, a, b, bit);
  }

  /** The three buckets `wait` returns. */
  datatype Buckets = Buckets(readables: seq<Owner>, writables: seq<Owner>, errors: seq<Owner>)

  /** The engine's answer to `srt_epoll_uwait`, and the event array after the
      call. `count` is what the call returns: -1 on error, 0 on timeout,
      otherwise the number of ready sockets, reported as capacity + 1 when
      more are ready than the capacity it was given. The engine writes at
      most `capacity` entries; the rest of `buffer` holds whatever the stack
      held before. */
  datatype WaitReply = WaitReply(count: int, buffer: seq<PollEvent>)

  /** What `wait` did: the timeout and capacity it handed the engine, the
      buckets, and whether they went to a block (then `wait` returns true). */
  datatype WaitResult = WaitResult(timeout: int, capacity: nat, buckets: Buckets, yielded: bool)

  /** The length of the event array `wait` allocates for `n` mapped sockets. */
  function EventArraySize(n: nat): (size: nat)
    ensures size >= 8 && size >= n + 1
  {
    if n < 8 then 8 else n + 8
  }

  /** A reply the engine can give when handed `capacity`: an array of the size
      `wait` allocates, and a count of at most capacity + 1. */
  predicate Fits(reply: WaitReply, capacity: nat) {
    |reply.buffer| == EventArraySize(capacity) && reply.count <= capacity + 1
  }

  /** The entries the loop reads, as written: the first `count` of them. */
  function ReadAsWritten(reply: WaitReply): (events: seq<PollEvent>)
    requires reply.count <= |reply.buffer|
    ensures |events| == if reply.count <= 0 then 0 else reply.count
    ensures events <= reply.buffer
  {
    if reply.count <= 0 then [] else reply.buffer[..reply.count]
  }

  /** The entries the engine wrote: at most `capacity` of them. */
  function Filled(reply: WaitReply, capacity: nat): (events: seq<PollEvent>)
    requires capacity <= |reply.buffer|
    ensures |events| <= capacity && events <= reply.buffer
    ensures reply.count <= capacity ==> events == ReadAsWritten(reply)
  {
    if reply.count <= 0 then []
    else if reply.count <= capacity then reply.buffer[..reply.count]
    else reply.buffer[..capacity]
  }

  /** Sorting events into the three buckets by their bits. */
  function Sort(sockets: map<int, Owner>, events: seq<PollEvent>): Buckets {
    Buckets(Pick(sockets, events, EpollIn), Pick(sockets, events, EpollOut), Pick(sockets, events, EpollErr))
  }

  /** The timeout argument: nil waits forever (-1); a Fixnum is converted with
      FIX2INT; anything else is a TypeError. */
  function WaitTimeout(v: Value): (r: Result<int, Exception>)
    ensures v.Nil? ==> r == Ok(-1)
    ensures r.Ok? && !v.Nil? ==> v == Int(r.value) && IntMin <= r.value <= IntMax
    ensures r.Raise? ==> r.error == (if v.Int? && IsFixnum(v.i) then RangeError else TypeError)
  {
    match v
    case Nil => Ok(-1)
    case Int(i) => if IsFixnum(i) then Fix2Int(i) else Raise(TypeError)
    case _ => Raise(TypeError)
  }

  /** `wait(timeout = nil, &block)`, as written: the engine is given the map
      size as capacity, and the loop sorts the first `count` entries of the
      array into the buckets their bits name, skipping sockets the map does
      not hold. When the engine answers capacity + 1, the last entry read is
      one it did not write. */
  method Wait(p: PollState, timeout: Value, block: bool, reply: WaitReply) returns (r: Result<WaitResult, Exception>)
    requires Fits(reply, |p.sockets|)
    ensures WaitTimeout(timeout).Raise? ==> r == Raise(WaitTimeout(timeout).error)
    ensures r.Ok? ==> WaitTimeout(timeout) == Ok(r.value.timeout)
    ensures r.Ok? ==> r.value.capacity == |p.sockets| && r.value.yielded == block
    ensures r.Ok? ==> r.value.buckets == Sort(p.sockets, ReadAsWritten(reply))
    ensures r.Ok? && reply.count <= |p.sockets| ==> r.value.buckets == Sort(p.sockets, Filled(reply, |p.sockets|))
  {
    var t := WaitTimeout(timeout);
    if t.Raise? {
      return Raise(t.error);
    }
    var events := reply.buffer;
    var readables, writables, errors := [], [], [];
    var i := 0;
    while i < reply.count
      invariant 0 <= i <= |events| && (reply.count > 0 ==> i <= reply.count)
      invariant reply.count <= 0 ==> i == 0
      invariant Buckets(readables, writables, errors) == Sort(p.sockets, events[..i])
    {
      var e := events[i];
      SortExtend(p.sockets, events, i);
      if e.fd in p.sockets {
        var sock := p.sockets[e.fd];
        if HasBit(e.events, EpollIn) {
          readables := readables + [sock];
        }
        if HasBit(e.events, EpollOut) {
          writables := writables + [sock];
        }
        if HasBit(e.events, EpollErr) {
          errors := errors + [sock];
        }
      }
      i := i + 1;
    }
    assert events[..i] == ReadAsWritten(reply);
    return Ok(WaitResult(t.value, |p.sockets|, Buckets(readables, writables, errors), block));
  }

  /** The buckets with the loop bounded by what the engine wrote: the count,
      capped at the capacity. Whenever the count fits, they are the buckets of
      `wait` as written. */
  function WaitBucketsCorrected(p: PollState, reply: WaitReply): (b: Buckets)
    requires Fits(reply, |p.sockets|)
    ensures reply.count <= |p.sockets| ==> b == Sort(p.sockets, ReadAsWritten(reply))
    ensures forall o :: o in b.readables ==> o in p.sockets.Values
  {
    Sort(p.sockets, Filled(reply, |p.sockets|))
  }

  /** The corrected buckets depend only on the entries the engine wrote. */
  lemma CorrectedReadsOnlyFilled(p: PollState, r1: WaitReply, r2: WaitReply)
    requires Fits(r1, |p.sockets|) && Fits(r2, |p.sockets|)
    requires r1.count == r2.count
    requires r1.buffer[..|p.sockets|] == r2.buffer[..|p.sockets|]
    ensures WaitBucketsCorrected(p, r1) == WaitBucketsCorrected(p, r2)
  {
    var n := |p.sockets|;
    if 0 < r1.count {
      var k := if r1.count <= n then r1.count else n;
      assert r1.buffer[..k] == r1.buffer[..n][..k];
      assert r2.buffer[..k] == r2.buffer[..n][..k];
    }
  }

  /** As written, the buckets can depend on an entry the engine never wrote.
      Socket 1 is added and socket 2, never added, is watched through
      `update`; with both ready the engine writes one entry (capacity 1) and
      answers 2. Two arrays that agree on that entry but hold different stale
      data after it give different buckets; the corrected buckets agree. */
  lemma AsWrittenReadsUnfilledSlot()
    ensures var o := Owner(0);
      var s1 := SocketArg(StatusConnected, 1, o);
      var s2 := SocketArg(StatusConnected, 2, Owner(1));
      var p := Update(Add(Empty, s1, [Sym("in")], Done).0, s2, [Sym("in")], Done).0;
      var ready := PollEvent(2, EpollIn);
      var r1 := WaitReply(2, [ready] + seq(7, _ => PollEvent(1, EpollIn)));
      var r2 := WaitReply(2, [ready] + seq(7, _ => PollEvent(0, 0)));
      && p.sockets == map[1 := o] && p.watched.Keys == {1, 2}
      && Fits(r1, |p.sockets|) && Fits(r2, |p.sockets|)
      && r1.buffer[..1] == r2.buffer[..1]
      && Sort(p.sockets, ReadAsWritten(r1)).readables == [o]
      && Sort(p.sockets, ReadAsWritten(r2)).readables == []
      && WaitBucketsCorrected(p, r1) == WaitBucketsCorrected(p, r2)
  {
    var o := Owner(0);
    var s1 := SocketArg(StatusConnected, 1, o);
    var s2 := SocketArg(StatusConnected, 2, Owner(1));
    assert Interest.EventMask([Sym("in")]) == Ok(EpollIn) by {
      assert [Sym("in")][..0] == [];
      assert Interest.BitOfName("in") == Ok(EpollIn);
    }
    var p := Update(Add(Empty, s1, [Sym("in")], Done).0, s2, [Sym("in")], Done).0;
    assert p.sockets == map[1 := o];
    var ready := PollEvent(2, EpollIn);
    var r1 := WaitReply(2, [ready] + seq(7, _ => PollEvent(1, EpollIn)));
    var r2 := WaitReply(2, [ready] + seq(7, _ => PollEvent(0, 0)));
    assert p.watched.Keys == {1, 2};
    assert r1.buffer[..1] == [ready] == r2.buffer[..1];
    assert ReadAsWritten(r1) == [ready, PollEvent(1, EpollIn)];
    assert ReadAsWritten(r2) == [ready, PollEvent(0, 0)];
    assert Contribution(p.sockets, ready, EpollIn) == [];
    assert Contribution(p.sockets, PollEvent(1, EpollIn), EpollIn) == [o];
    assert Contribution(p.sockets, PollEvent(0, 0), EpollIn) == [];
    assert Pick(p.sockets, [ready, PollEvent(1, EpollIn)], EpollIn) == [o] by {
      assert [ready, PollEvent(1, EpollIn)][1..] == [PollEvent(1, EpollIn)];
    }
    assert Pick(p.sockets, [ready, PollEvent(0, 0)], EpollIn) == [] by {
      assert [ready, PollEvent(0, 0)][1..] == [PollEvent(0, 0)];
    }
    CorrectedReadsOnlyFilled(p, r1, r2);
  }

  /** Sorting one more event adds its contribution to each bucket. */
  lemma SortExtend(sockets: map<int, Owner>, events: seq<PollEvent>, i: nat)
    requires i < |events|
    ensures var b := Sort(sockets, events[..i]);
      Sort(sockets, events[..i + 1]) == Buckets(b.readables + Contribution(sockets, events[i], EpollIn),
                                                b.writables + Contribution(sockets, events[i], EpollOut),
                                                b.errors + Contribution(sockets, events[i], EpollErr))
  {
    PickExtend(sockets, events, i, EpollIn);
    PickExtend(sockets, events, i, EpollOut);
    PickExtend(sockets, events, i, EpollErr);
  }

  /** Picking from one more event adds that event's contribution. */
  lemma PickExtend(sockets: map<int, Owner>, events: seq<PollEvent>, i: nat, bit: bv32)
    requires i < |events|
    ensures Pick(sockets, events[..i + 1], bit) == Pick(sockets, events[..i], bit) + Contribution(sockets, events[i], bit)
  {
    assert events[..i + 1] == events[..i] + [events[i]];
    PickAppend(sockets, events[..i], [events[i]], bit);
    assert Pick(sockets, [events[i]], bit) == Contribution(sockets, events[i], bit) + Pick(sockets, [], bit);
  }

  /** A socket removed from the map is never reported again, whatever the
      engine says about it. */
  lemma RemovedSocketNeverReported(p: PollState, s: SocketArg, reply: EngineReply, events: seq<PollEvent>, bit: bv32)
    requires s.guard != StatusNonexist
    requires forall fd :: fd in p.sockets && fd != s.fd ==> p.sockets[fd] != s.owner
    ensures s.owner !in Pick(Remove(p, s, reply).0.sockets, events, bit)
  {
    PickMembership(Remove(p, s, reply).0.sockets, events, bit, s.owner);
  }

  /** A poll to which nothing was added reports nothing. */
  lemma EmptyPollReportsNothing(events: seq<PollEvent>, bit: bv32)
    ensures Pick(Empty.sockets, events, bit) == []
  {
    StaleEventsPickNothing(Empty.sockets, events, bit);
  }
}

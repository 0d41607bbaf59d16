/** Message transmission on a socket: `sendmsg` splits a message into
    payload-sized engine writes (ext/rbsrt/rbsrt.c:795-857) and `recvmsg`
    reads one message into a buffer of two payloads
    (ext/rbsrt/rbsrt.c:859-888).

    The engine's answers to successive `srt_sendmsg2` calls are a finite list
    `replies`. The source keeps calling while bytes remain; when the list runs
    out first the model stops with `Unfinished`. */
module Transmission {
  import opened Wrappers
  import opened Srt
  import opened Errors
  import SocketState

  /** The engine's answer to one `srt_sendmsg2`: bytes taken, or SRT_ERROR. */
  datatype SendReply = Accepted(n: nat) | SendFailed(code: int)

  /** One engine write: `size` bytes of the message starting at `offset`. */
  datatype Chunk = Chunk(offset: nat, size: nat)

  datatype SendOutcome =
    | Sent(total: nat)
    | SendRaised(error: Exception)
    | Unfinished(total: nat)

  /** The argument to `sendmsg`: only a String is accepted. */
  datatype Message = Text(bytes: seq<bv8>) | NotText

  /** The size of the write that starts at `offset`: a full payload, or what remains. */
  function ChunkSize(len: nat, offset: nat): (size: nat)
    requires offset <= len
    ensures size <= PayloadSize
    ensures offset + size <= len
    ensures size == PayloadSize || offset + size == len
  {
    if len - offset > PayloadSize then PayloadSize else len - offset
  }

  /** Reference definition of the do-while loop, as a recursion over the
      replies still to come. */
  function SendFrom(len: nat, offset: nat, replies: seq<SendReply>): (r: (SendOutcome, seq<Chunk>))
    requires offset <= len
    ensures |r.1| <= |replies|
    ensures replies != [] ==> r.1 != [] && r.1[0] == Chunk(offset, ChunkSize(len, offset))
    ensures r.0.Sent? ==> len <= r.0.total
    ensures r.0.Unfinished? ==> offset <= r.0.total < len || replies == []
    ensures r.0.Unfinished? ==> |r.1| == |replies|
    decreases |replies|
  {
    if replies == [] then (Unfinished(offset), [])
    else
      var c := Chunk(offset, ChunkSize(len, offset));
      match replies[0]
      case SendFailed(code) => (SendRaised(LastErrorException(code)), [c])
      case Accepted(n) =>
        if offset + n < len then
          var rest := SendFrom(len, offset + n, replies[1..]);
          (rest.0, [c] + rest.1)
        else (Sent(offset + n), [c])
  }

  /** The writes form a chain: the first starts at 0, each one is a full
      payload or the remainder, and each starts where the bytes the engine
      took from the previous one end. */
  ghost predicate Chained(len: nat, start: nat, calls: seq<Chunk>, replies: seq<SendReply>) {
    && |calls| <= |replies|
    && (|calls| > 0 ==> calls[0].offset == start)
    && (forall k :: 0 <= k < |calls| ==>
          calls[k].offset <= len && calls[k].size == ChunkSize(len, calls[k].offset))
    && (forall j :: 1 <= j < |calls| ==> Linked(len, calls, replies, j))
  }

  /** Write `j` starts where the bytes the engine took from write `j - 1`
      end, and some bytes are still left at that point. */
  ghost predicate Linked(len: nat, calls: seq<Chunk>, replies: seq<SendReply>, j: int) {
    && 1 <= j < |calls| && j <= |replies|
    && replies[j - 1].Accepted?
    && calls[j].offset == calls[j - 1].offset + replies[j - 1].n
    && calls[j].offset < len
  }

  /** How the loop ended, in terms of the last write it made. */
  ghost predicate Ended(len: nat, start: nat, outcome: SendOutcome, calls: seq<Chunk>, replies: seq<SendReply>)
    requires |calls| <= |replies|
  {
    && (|calls| == 0 <==> |replies| == 0)
    && (|calls| == 0 ==> outcome == Unfinished(start))
    && (outcome.Sent? ==>
          |calls| > 0 && replies[|calls| - 1].Accepted?
          && outcome.total == calls[|calls| - 1].offset + replies[|calls| - 1].n
          && outcome.total >= len)
    && (outcome.SendRaised? ==>
          |calls| > 0 && replies[|calls| - 1].SendFailed?
          && outcome.error == LastErrorException(replies[|calls| - 1].code))
    && (outcome.Unfinished? ==>
          |calls| == |replies|
          && (|calls| > 0 ==>
                (replies[|calls| - 1].Accepted?
                 && outcome.total == calls[|calls| - 1].offset + replies[|calls| - 1].n
                 && outcome.total < len)))
  }

  /** Prefixing a write whose reply carries the offset to the next chain start
      keeps the writes chained. */
  lemma ChainedCons(len: nat, offset: nat, rest: seq<Chunk>, replies: seq<SendReply>)
    requires offset <= len && |replies| > 0 && replies[0].Accepted?
    requires offset + replies[0].n < len
    requires Chained(len, offset + replies[0].n, rest, replies[1..])
    ensures Chained(len, offset, [Chunk(offset, ChunkSize(len, offset))] + rest, replies)
  {
    var calls := [Chunk(offset, ChunkSize(len, offset))] + rest;
    forall j | 1 <= j < |calls|
      ensures Linked(len, calls, replies, j)
    {
      assert calls[j] == rest[j - 1];
      if j > 1 {
        assert Linked(len, rest, replies[1..], j - 1);
        assert calls[j - 1] == rest[j - 2];
        assert replies[j - 1] == replies[1..][j - 2];
      }
    }
  }

  /** Prefixing an accepted write keeps the description of the end valid. */
  lemma EndedCons(len: nat, offset: nat, outcome: SendOutcome, rest: seq<Chunk>, replies: seq<SendReply>)
    requires |replies| > 0 && |rest| <= |replies| - 1 && replies[0].Accepted?
    requires offset + replies[0].n < len
    requires Ended(len, offset + replies[0].n, outcome, rest, replies[1..])
    ensures Ended(len, offset, outcome, [Chunk(offset, ChunkSize(len, offset))] + rest, replies)
  {
    var calls := [Chunk(offset, ChunkSize(len, offset))] + rest;
    if |rest| > 0 {
      assert calls[|calls| - 1] == rest[|rest| - 1];
      assert replies[|calls| - 1] == replies[1..][|rest| - 1];
    }
  }

  /** The reference loop makes a chain of writes and ends as described. */
  lemma {:induction false} SendFromShape(len: nat, offset: nat, replies: seq<SendReply>)
    requires offset <= len
    requires offset > 0 ==> offset < len
    ensures var r := SendFrom(len, offset, replies);
      Chained(len, offset, r.1, replies) && Ended(len, offset, r.0, r.1, replies)
    decreases |replies|
  {
    if replies != [] && replies[0].Accepted? && offset + replies[0].n < len {
      var n := replies[0].n;
      SendFromShape(len, offset + n, replies[1..]);
      var rest := SendFrom(len, offset + n, replies[1..]);
      assert SendFrom(len, offset, replies) == (rest.0, [Chunk(offset, ChunkSize(len, offset))] + rest.1);
      ChainedCons(len, offset, rest.1, replies);
      EndedCons(len, offset, rest.0, rest.1, replies);
    }
  }

  /** When every write succeeds and the engine never claims more bytes than it
      was handed, `sendmsg` returns exactly the message length. */
  lemma SentTotalIsLength(len: nat, replies: seq<SendReply>)
    requires var r := SendFrom(len, 0, replies);
      && r.0.Sent?
      && |r.1| <= |replies|
      && forall k :: 0 <= k < |r.1| ==> replies[k].Accepted? && replies[k].n <= r.1[k].size
    ensures SendFrom(len, 0, replies).0 == Sent(len)
  {
    SendFromShape(len, 0, replies);
  }

  /** The replies of an engine that takes every write whole. */
  function FullReplies(len: nat, offset: nat): (rs: seq<SendReply>)
    requires offset <= len
    decreases len - offset
  {
    var size := ChunkSize(len, offset);
    if offset + size < len then [Accepted(size)] + FullReplies(len, offset + size)
    else [Accepted(size)]
  }

  /** The bytes of the message one write hands to the engine. */
  function ChunkBytes(msg: seq<bv8>, c: Chunk): seq<bv8>
    requires c.offset + c.size <= |msg|
  {
    msg[c.offset..c.offset + c.size]
  }

  /** Concatenation of the bytes of a list of writes. */
  function Concat(msg: seq<bv8>, calls: seq<Chunk>): seq<bv8>
    requires forall k :: 0 <= k < |calls| ==> calls[k].offset + calls[k].size <= |msg|
  {
    if calls == [] then [] else ChunkBytes(msg, calls[0]) + Concat(msg, calls[1..])
  }

  /** The writes of a message from `offset` on when every one is taken whole. */
  function FullChunks(len: nat, offset: nat): seq<Chunk>
    requires offset <= len
    decreases len - offset
  {
    var size := ChunkSize(len, offset);
    if offset + size < len then [Chunk(offset, size)] + FullChunks(len, offset + size)
    else [Chunk(offset, size)]
  }

  /** Against an engine that takes every write whole, the message goes out in
      ceil(len / 1316) writes (one for the empty message), their bytes
      concatenate back to the message, and `sendmsg` returns its length. */
  lemma FullAcceptance(msg: seq<bv8>, offset: nat, extra: seq<SendReply>)
    requires offset < |msg| || offset == 0
    ensures var r := SendFrom(|msg|, offset, FullReplies(|msg|, offset) + extra);
      && r.0 == Sent(|msg|)
      && |r.1| == (if |msg| == offset then 1 else (|msg| - offset + PayloadSize - 1) / PayloadSize)
      && (forall k :: 0 <= k < |r.1| ==> r.1[k].offset + r.1[k].size <= |msg|)
      && Concat(msg, r.1) == msg[offset..]
  {
    FullRepliesSendFullChunks(|msg|, offset, extra);
    FullChunksCount(|msg|, offset);
    FullChunksBytes(msg, offset);
  }

  lemma {:induction false} FullRepliesSendFullChunks(len: nat, offset: nat, extra: seq<SendReply>)
    requires offset <= len
    ensures SendFrom(len, offset, FullReplies(len, offset) + extra) == (Sent(len), FullChunks(len, offset))
    decreases len - offset
  {
    var size := ChunkSize(len, offset);
    var replies := FullReplies(len, offset) + extra;
    assert replies[0] == Accepted(size);
    if offset + size < len {
      assert replies[1..] == FullReplies(len, offset + size) + extra;
      FullRepliesSendFullChunks(len, offset + size, extra);
    }
  }

  lemma {:induction false} FullChunksCount(len: nat, offset: nat)
    requires offset < len || offset == 0
    ensures |FullChunks(len, offset)| == (if len == offset then 1 else (len - offset + PayloadSize - 1) / PayloadSize)
    ensures forall k :: 0 <= k < |FullChunks(len, offset)| ==>
      FullChunks(len, offset)[k].offset + FullChunks(len, offset)[k].size <= len
    decreases len - offset
  {
    var size := ChunkSize(len, offset);
    if offset + size < len {
      FullChunksCount(len, offset + size);
      CeilStep(len - offset);
    }
  }

  lemma {:induction false} FullChunksBytes(msg: seq<bv8>, offset: nat)
    requires offset <= |msg|
    ensures forall k :: 0 <= k < |FullChunks(|msg|, offset)| ==>
      FullChunks(|msg|, offset)[k].offset + FullChunks(|msg|, offset)[k].size <= |msg|
    ensures Concat(msg, FullChunks(|msg|, offset)) == msg[offset..]
    decreases |msg| - offset
  {
    var size := ChunkSize(|msg|, offset);
    var calls := FullChunks(|msg|, offset);
    if offset + size < |msg| {
      FullChunksBytes(msg, offset + size);
      assert calls[1..] == FullChunks(|msg|, offset + size);
      assert msg[offset..] == msg[offset..offset + size] + msg[offset + size..];
    } else {
      assert Concat(msg, calls) == msg[offset..offset + size] + [];
    }
  }

  /** One more full payload adds one write to the count. */
  lemma CeilStep(d: nat)
    requires d > PayloadSize
    ensures (d + PayloadSize - 1) / PayloadSize == 1 + (d - PayloadSize + PayloadSize - 1) / PayloadSize
  {
  }

  /** One unfolding of the reference loop at the `k`-th reply. */
  lemma SendFromStep(len: nat, total: nat, replies: seq<SendReply>, k: nat)
    requires total <= len && k < |replies|
    ensures var c := Chunk(total, ChunkSize(len, total));
      match replies[k]
      case SendFailed(code) =>
        SendFrom(len, total, replies[k..]) == (SendRaised(LastErrorException(code)), [c])
      case Accepted(n) =>
        if total + n < len then
          var rest := SendFrom(len, total + n, replies[k + 1..]);
          SendFrom(len, total, replies[k..]) == (rest.0, [c] + rest.1)
        else SendFrom(len, total, replies[k..]) == (Sent(total + n), [c])
  {
    assert replies[k..][0] == replies[k];
    assert replies[k..][1..] == replies[k + 1..];
  }

  /** The do-while loop of rbsrt_socket_sendmsg, for a message of `len` bytes. */
  method SendChunks(len: nat, replies: seq<SendReply>) returns (outcome: SendOutcome, calls: seq<Chunk>)
    ensures (outcome, calls) == SendFrom(len, 0, replies)
  {
    ghost var goal := SendFrom(len, 0, replies);
    var total: nat := 0;
    var k := 0;
    calls := [];
    assert replies[k..] == replies;
    assert goal.1 == calls + goal.1;
    while k < |replies|
      invariant k <= |replies| && total <= len && |calls| == k
      invariant goal == (SendFrom(len, total, replies[k..]).0, calls + SendFrom(len, total, replies[k..]).1)
    {
      var size := ChunkSize(len, total);
      SendFromStep(len, total, replies, k);
      ghost var before := calls;
      calls := calls + [Chunk(total, size)];
      match replies[k]
      case SendFailed(code) =>
        return SendRaised(LastErrorException(code)), calls;
      case Accepted(n) =>
        if total + n < len {
          ghost var rest := SendFrom(len, total + n, replies[k + 1..]);
          assert before + ([Chunk(total, size)] + rest.1) == calls + rest.1;
        }
        total := total + n;
        k := k + 1;
        if total >= len {
          return Sent(total), calls;
        }
    }
    assert replies[k..] == [];
    assert calls + [] == calls;
    outcome := Unfinished(total);
  }

  /** `socket.sendmsg(message)`: the guard, the String check, then the loop. */
  method Sendmsg(guard: int, msg: Message, replies: seq<SendReply>) returns (outcome: SendOutcome, calls: seq<Chunk>)
    ensures guard == StatusNonexist ==> outcome == SendRaised(TypeError) && calls == []
    ensures guard != StatusNonexist && msg.NotText? ==> outcome == SendRaised(ArgumentError) && calls == []
    ensures guard != StatusNonexist && msg.Text? ==>
      Chained(|msg.bytes|, 0, calls, replies) && Ended(|msg.bytes|, 0, outcome, calls, replies)
  {
    if SocketState.CheckSocket(guard).Some? {
      return SendRaised(TypeError), [];
    }
    if msg.NotText? {
      return SendRaised(ArgumentError), [];
    }
    outcome, calls := SendChunks(|msg.bytes|, replies);
    SendFromShape(|msg.bytes|, 0, replies);
  }

  /** The engine's answer to one `srt_recvmsg2`: the message read, or SRT_ERROR. */
  datatype ReadReply = ReadFailed(code: int) | Read(data: seq<bv8>)

  /** `recvmsg` reads into a buffer of two payloads. */
  const RecvBufferSize: nat := 2 * PayloadSize

  /** `socket.recvmsg`: an engine error raises, an empty read gives nil, and
      otherwise exactly the bytes the engine delivered are returned. */
  function Recvmsg(guard: int, reply: ReadReply): (r: Result<Option<seq<bv8>>, Exception>)
    requires reply.Read? ==> |reply.data| <= RecvBufferSize
    ensures guard == StatusNonexist ==> r == Raise(TypeError)
    ensures guard != StatusNonexist && reply.ReadFailed? ==> r == Raise(LastErrorException(reply.code))
    ensures r.Ok? && r.value.Some? ==>
      reply == Read(r.value.value) && 0 < |r.value.value| <= 2 * PayloadSize
    ensures r == Ok(None) <==> guard != StatusNonexist && reply == Read([])
  {
    if SocketState.CheckSocket(guard).Some? then Raise(TypeError)
    else match reply
      case ReadFailed(code) => Raise(LastErrorException(code))
      case Read(data) => if |data| == 0 then Ok(None) else Ok(Some(data))
  }
}

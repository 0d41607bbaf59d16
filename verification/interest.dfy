/** The poll interest tokens (`rbsrt_epoll_event_with_splat`,
    ext/rbsrt/rbsrt.c:1898-1943): the symbols or strings passed to
    `Poll#add`/`Poll#update` are folded, left to right, into an SRT_EPOLL_OPT
    bit mask. */
module Interest {
  import opened Wrappers
  import opened Srt
  import opened Errors
  import opened RubyValues

  /** The bit a token name stands for, with its alias. */
  function BitOfName(name: string): (r: Result<bv32, Exception>)
    ensures r.Ok? <==> name in {"in", "read", "out", "write", "err", "error", "et", "edge"}
    ensures r.Ok? ==> r.value in {EpollIn, EpollOut, EpollErr, EpollEdge}
    ensures r == Ok(EpollIn) <==> name == "in" || name == "read"
    ensures r == Ok(EpollOut) <==> name == "out" || name == "write"
    ensures r == Ok(EpollErr) <==> name == "err" || name == "error"
    ensures r == Ok(EpollEdge) <==> name == "et" || name == "edge"
    ensures r.Raise? ==> r.error == ArgumentError
  {
    if name == "in" || name == "read" then Ok(EpollIn)
    else if name == "out" || name == "write" then Ok(EpollOut)
    else if name == "err" || name == "error" then Ok(EpollErr)
    else if name == "et" || name == "edge" then Ok(EpollEdge)
    else Raise(ArgumentError)
  }

  /** One token: `rb_to_id` takes a Symbol or a String and raises TypeError
      for anything else. */
  function TokenBit(v: Value): (r: Result<bv32, Exception>)
    ensures r.Raise? ==> r.error == (if v.Sym? || v.Str? then ArgumentError else TypeError)
  {
    match v
    case Sym(name) => BitOfName(name)
    case Str(text) => BitOfName(text)
    case _ => Raise(TypeError)
  }

  /** The mask with exactly the chosen bits among IN, OUT, ERR and ET. */
  function Compose(hasIn: bool, hasOut: bool, hasErr: bool, hasEdge: bool): bv32 {
    (if hasIn then EpollIn else 0) | (if hasOut then EpollOut else 0)
    | (if hasErr then EpollErr else 0) | (if hasEdge then EpollEdge else 0)
  }

  /** Some token of `tokens` stands for `bit`. */
  predicate Requests(tokens: seq<Value>, bit: bv32) {
    exists i :: 0 <= i < |tokens| && TokenBit(tokens[i]) == Ok(bit)
  }

  /** Reference: the mask of the bits the tokens request, in no order. */
  function RequestedMask(tokens: seq<Value>): bv32 {
    Compose(Requests(tokens, EpollIn), Requests(tokens, EpollOut),
            Requests(tokens, EpollErr), Requests(tokens, EpollEdge))
  }

  /** Setting one of the four bits in a composed mask. */
  lemma ComposeOr(a: bool, b: bool, c: bool, d: bool, bit: bv32)
    requires bit in {EpollIn, EpollOut, EpollErr, EpollEdge}
    ensures Compose(a, b, c, d) | bit
         == Compose(a || bit == EpollIn, b || bit == EpollOut, c || bit == EpollErr, d || bit == EpollEdge)
  {
  }

  /** The C loop: OR the tokens' bits together left to right; the first bad
      token raises. */
  function EventMask(tokens: seq<Value>): (r: Result<bv32, Exception>)
    ensures r.Raise? ==> r.error == ArgumentError || r.error == TypeError
    decreases |tokens|
  {
    if tokens == [] then Ok(0)
    else
      match EventMask(tokens[..|tokens| - 1])
      case Raise(e) => Raise(e)
      case Ok(m) =>
        match TokenBit(tokens[|tokens| - 1])
        case Raise(e) => Raise(e)
        case Ok(bit) => Ok(m | bit)
  }

  /** The fold succeeds exactly when every token is valid. */
  lemma {:induction false} EventMaskOkIff(tokens: seq<Value>)
    ensures EventMask(tokens).Ok? <==> forall i :: 0 <= i < |tokens| ==> TokenBit(tokens[i]).Ok?
    decreases |tokens|
  {
    if tokens != [] {
      var init := tokens[..|tokens| - 1];
      EventMaskOkIff(init);
      assert forall i :: 0 <= i < |init| ==> init[i] == tokens[i];
    }
  }

  /** A successful fold yields exactly the bits the tokens request. */
  lemma {:induction false} EventMaskIsRequestedMask(tokens: seq<Value>)
    requires EventMask(tokens).Ok?
    ensures EventMask(tokens).value == RequestedMask(tokens)
    decreases |tokens|
  {
    if tokens != [] {
      var init := tokens[..|tokens| - 1];
      var last := tokens[|tokens| - 1];
      assert tokens == init + [last];
      EventMaskIsRequestedMask(init);
      var bit := TokenBit(last).value;
      RequestsSnoc(init, last);
      ComposeOr(Requests(init, EpollIn), Requests(init, EpollOut),
                Requests(init, EpollErr), Requests(init, EpollEdge), bit);
      assert Requests(tokens, EpollIn) == (Requests(init, EpollIn) || bit == EpollIn);
      assert Requests(tokens, EpollOut) == (Requests(init, EpollOut) || bit == EpollOut);
      assert Requests(tokens, EpollErr) == (Requests(init, EpollErr) || bit == EpollErr);
      assert Requests(tokens, EpollEdge) == (Requests(init, EpollEdge) || bit == EpollEdge);
    }
  }

  /** A failing fold raises the error of its first bad token. */
  lemma {:induction false} EventMaskFirstError(tokens: seq<Value>)
    requires EventMask(tokens).Raise?
    ensures exists i :: (0 <= i < |tokens| && TokenBit(tokens[i]) == Raise(EventMask(tokens).error)
      && forall j :: 0 <= j < i ==> TokenBit(tokens[j]).Ok?)
    decreases |tokens|
  {
    var init := tokens[..|tokens| - 1];
    var last := tokens[|tokens| - 1];
    assert forall i :: 0 <= i < |init| ==> init[i] == tokens[i];
    if EventMask(init).Raise? {
      EventMaskFirstError(init);
      var i :| 0 <= i < |init| && TokenBit(init[i]) == Raise(EventMask(init).error)
        && forall j :: 0 <= j < i ==> TokenBit(init[j]).Ok?;
      assert TokenBit(tokens[i]) == Raise(EventMask(tokens).error);
    } else {
      EventMaskOkIff(init);
      assert TokenBit(tokens[|init|]) == Raise(EventMask(tokens).error);
    }
  }

  /** Which bits a list requests after one more token. */
  lemma RequestsSnoc(init: seq<Value>, last: Value)
    requires TokenBit(last).Ok?
    ensures forall bit :: Requests(init + [last], bit) <==> Requests(init, bit) || TokenBit(last) == Ok(bit)
  {
    var tokens := init + [last];
    forall bit | Requests(tokens, bit)
      ensures Requests(init, bit) || TokenBit(last) == Ok(bit)
    {
      var i :| 0 <= i < |tokens| && TokenBit(tokens[i]) == Ok(bit);
      if i < |init| {
        assert tokens[i] == init[i];
      }
    }
    forall bit | Requests(init, bit)
      ensures Requests(tokens, bit)
    {
      var i :| 0 <= i < |init| && TokenBit(init[i]) == Ok(bit);
      assert tokens[i] == init[i];
    }
    assert tokens[|init|] == last;
  }

  /** The mask does not depend on the order of the tokens nor on repeats:
      two lists with the same tokens give the same answer. */
  lemma MaskIgnoresOrderAndRepeats(a: seq<Value>, b: seq<Value>)
    requires forall v :: v in a <==> v in b
    ensures EventMask(a).Ok? <==> EventMask(b).Ok?
    ensures EventMask(a).Ok? ==> EventMask(a) == EventMask(b)
  {
    EventMaskOkIff(a);
    EventMaskOkIff(b);
    if EventMask(a).Ok? && EventMask(b).Ok? {
      EventMaskIsRequestedMask(a);
      EventMaskIsRequestedMask(b);
    }
    forall bit ensures Requests(a, bit) <==> Requests(b, bit) {
      if Requests(a, bit) {
        var i :| 0 <= i < |a| && TokenBit(a[i]) == Ok(bit);
        assert a[i] in b;
      }
      if Requests(b, bit) {
        var i :| 0 <= i < |b| && TokenBit(b[i]) == Ok(bit);
        assert b[i] in a;
      }
    }
    if !EventMask(a).Ok? {
      var i :| 0 <= i < |a| && TokenBit(a[i]).Raise?;
      assert a[i] in b;
    }
    if !EventMask(b).Ok? {
      var i :| 0 <= i < |b| && TokenBit(b[i]).Raise?;
      assert b[i] in a;
    }
  }
}

/**
 * Reader and conforming card on a link that loses blocks, and loses or damages answers: what the
 * card makes of the requests, over sessions of any length and from any state, and what a call
 * that reports success is worth.
 */
module LossyLink {
  import opened Bytes
  import opened Blocks
  import opened CrcA
  import opened Link
  import opened TclReader
  import opened TclCard
  import opened Delivery
  import opened OutOfStep

  /** What becomes of one turn: it passes, the reader's block does not arrive, or the card's answer
      does not, but perhaps another one in its place. A damaged block is a lost one, as the card
      ignores it. */
  datatype Fate = Passed | BlockLost | AnswerLost(instead: Answer)

  /** The card after the turn, and what the reader's device makes of it. */
  function TurnUnder(c: Picc, block: seq<Byte>, fate: Fate): (Picc, Answer) {
    var t := HearFrame(c, WithCrc(block));
    match fate
    case Passed => (t.card, AnswerOf(t))
    case BlockLost => (c, SILENCE)
    case AnswerLost(instead) => (t.card, if t.Mute? then SILENCE else instead)
  }

  /** A whole exchange, and where it leaves the two. When the fates are used up, everything is lost. */
  function Exchange(c: Picc, r: Reader, fates: seq<Fate>): (e: (Picc, Reader))
    requires r.Valid()
    ensures e.1.Valid() && e.1.phase.Done?
    decreases |fates|
  {
    if r.phase.Done? then (c, r)
    else if fates == [] then (c, Step(r, SILENCE))
    else
      var (c', a) := TurnUnder(c, Out(r), fates[0]);
      Exchange(c', Step(r, a), fates[1..])
  }

  // ----- The card's side ----------------------------------------------------------------

  /** `k` bytes are a number of full pieces. */
  predicate FullPieces(k: nat, inf: nat)
    decreases k
  {
    k == 0 || (0 < inf <= k && FullPieces(k - inf, inf))
  }

  /** The card has been given the first `k` bytes of the request, in full pieces, and not all. */
  predicate Partly(c: Picc, c0: Picc, tx: seq<Byte>, inf: nat, k: nat) {
    && c.got == c0.got && k <= |tx| && (k == 0 || k < |tx|) && FullPieces(k, inf)
    && c.part == c0.part + tx[..k]
  }

  /** How much longer the card's part has become. */
  function Held(c: Picc, c0: Picc): nat {
    if |c0.part| <= |c.part| then |c.part| - |c0.part| else 0
  }

  /** The card has completed the request, behind what it had before. */
  predicate Wholly(c: Picc, c0: Picc, tx: seq<Byte>) {
    c.got == c0.got + [c0.part + tx] && c.part == []
  }

  /** An I-block of the request is out, and what comes before it has reached the card. */
  predicate Asks(c: Picc, r: Reader, c0: Picc, tx: seq<Byte>)
    requires r.Valid()
  {
    && (r.phase.Chaining? || r.phase.Replying?) && |r.tx| <= |tx|
    && Out(r) == [IHeader(r.phase.Chaining?, Number(r.block))]
                 + (if r.phase.Chaining? then r.tx[..r.inf] else r.tx)
    && r.tx == tx[|tx| - |r.tx|..]
    && Partly(c, c0, tx, r.inf, |tx| - |r.tx|)
  }

  /** The card has heard a chained I-block, and no I-block is out. */
  predicate Told(c: Picc, r: Reader, c0: Picc, tx: seq<Byte>)
    requires r.Valid()
  {
    && r.InChain() && |r.tx| <= |tx|
    && r.tx == tx[|tx| - |r.tx|..]
    && Partly(c, c0, tx, r.inf, |tx| - |r.tx| + r.inf)
  }

  /** What every turn keeps, whatever state the card was in and whatever is lost: each piece
      reaches the card at most once, in its place. */
  predicate Orderly(c: Picc, r: Reader, c0: Picc, tx: seq<Byte>, inf: nat) {
    r.Valid() && r.inf == inf &&
    (|| (r.phase.Done? && !Succeeded(r) && Partly(c, c0, tx, inf, Held(c, c0)))
     || (!r.phase.Done? && Asks(c, r, c0, tx))
     || (!r.phase.Done? && Told(c, r, c0, tx) && !IsIBlock(Out(r)[0]))
     || (!r.InChain() && Wholly(c, c0, tx) && (r.phase.Done? || !IsIBlock(Out(r)[0]))))
  }

  // ----- One turn -----------------------------------------------------------------------

  /** Only an I-block changes what the card has of the requests. */
  lemma OthersTellNothing(c: Picc, block: seq<Byte>)
    requires block != [] && !IsIBlock(block[0])
    ensures var c' := Hear(c, block).card; c'.got == c.got && c'.part == c.part
  {
  }

  /** An I-block without CID and NAD is ignored by a card that waits for time, and taken by every
      other. */
  lemma IBlockHeard(c: Picc, more: bool, number: bool, data: seq<Byte>)
    ensures var t := Hear(c, [IHeader(more, number)] + data);
      if c.due.After? then t == Mute(c)
      else if more then t.Speak? && t.card.got == c.got && t.card.part == c.part + data
      else t.Speak? && t.card.got == c.got + [c.part + data] && t.card.part == []
  {
    IHeaderCoding(more, number);
    WtxCoding();
    var block := [IHeader(more, number)] + data;
    assert block[0] == IHeader(more, number) && block[1..] == data;
    assert block[0] != WTX;
  }

  /** In the chaining loop, whatever is heard: the call fails, or the next piece goes out, or what
      goes out is no I-block. */
  lemma ChainGoesOn(r: Reader, a: Answer)
    requires r.Valid() && r.InChain()
    ensures var s := Step(r, a);
      && s.inf == r.inf
      && (if s.phase.Done? then !Succeeded(s)
          else if s.block == r.block then s.InChain() && s.tx == r.tx && !IsIBlock(Out(s)[0])
          else s.tx == r.tx[r.inf..] && Shows(s, Out(s)) && (s.phase.Chaining? || s.phase.Replying?))
  {
    BlockMoves(r.block);
    if 3 <= Returned(a, 3) {
      var b := Listen(r, a).buf[0];
      if IsWtx(b) {
        WtxIsNoIBlock(b);
      } else if IsAck(b) {
        AckIsNoIBlock(b);
        Prepared(Listen(r, a).(tx := r.tx[r.inf..], block := Increment(r.block)));
      }
    }
  }

  /** In the reply loop no I-block goes out. */
  lemma ReplyGoesOn(r: Reader, a: Answer)
    requires r.Valid() && (r.phase.Replying? || r.phase.ReplyWtx?)
    ensures var s := Step(r, a);
      && s.inf == r.inf && !s.InChain() && (s.phase.Done? || !IsIBlock(Out(s)[0]))
  {
    if 3 <= Returned(a, MAX_FRAME_SIZE) {
      var l := Listen(r, a);
      if IsWtx(l.buf[0]) {
        WtxIsNoIBlock(l.buf[0]);
      } else {
        AckHeaderCoding(Number(Increment(r.block)));
      }
    }
  }

  lemma OnePieceLonger(k: nat, inf: nat)
    requires FullPieces(k, inf)
    ensures FullPieces(k + inf, inf)
  {
    if inf > 0 {
      assert k + inf - inf == k;
    }
  }

  lemma FailedCall(c: Picc, r: Reader, c0: Picc, tx: seq<Byte>, inf: nat, k: nat)
    requires r.Valid() && r.phase.Done? && !Succeeded(r) && r.inf == inf && Partly(c, c0, tx, inf, k)
    ensures Orderly(c, r, c0, tx, inf)
  {
    assert Held(c, c0) == k;
  }

  /** The card has the piece; whatever the reader hears then, things stay in order. */
  lemma TurnTold(c: Picc, r: Reader, c0: Picc, tx: seq<Byte>, a: Answer)
    requires r.Valid() && Told(c, r, c0, tx)
    ensures Orderly(c, Step(r, a), c0, tx, r.inf)
  {
    hide Step;
    var s := Step(r, a);
    ChainGoesOn(r, a);
    var k := |tx| - |r.tx| + r.inf;
    if s.phase.Done? {
      FailedCall(c, s, c0, tx, r.inf, k);
    } else if s.block != r.block {
      assert tx[|tx| - |r.tx|..][r.inf..] == tx[k..];
      assert Asks(c, s, c0, tx);
    }
  }

  /** The card has heard the chained block that is out. */
  lemma PieceTold(c: Picc, r: Reader, c0: Picc, tx: seq<Byte>)
    requires r.Valid() && r.phase.Chaining? && Asks(c, r, c0, tx) && c.due.Nothing?
    ensures Told(Hear(c, Out(r)).card, r, c0, tx)
  {
    hide Hear, IHeader, FullPieces;
    IBlockHeard(c, true, Number(r.block), r.tx[..r.inf]);
    var k := |tx| - |r.tx|;
    OnePieceLonger(k, r.inf);
    assert tx[k..][..r.inf] == tx[k..k + r.inf];
    assert c0.part + tx[..k] + tx[k..k + r.inf] == c0.part + tx[..k + r.inf];
  }

  lemma LastTold(c: Picc, r: Reader, c0: Picc, tx: seq<Byte>)
    requires r.Valid() && r.phase.Replying? && Asks(c, r, c0, tx) && c.due.Nothing?
    ensures Wholly(Hear(c, Out(r)).card, c0, tx)
  {
    IBlockHeard(c, false, Number(r.block), r.tx);
    var k := |tx| - |r.tx|;
    assert c0.part + tx[..k] + tx[k..] == c0.part + tx;
  }

  lemma TurnAsks(c: Picc, r: Reader, c0: Picc, tx: seq<Byte>, fate: Fate)
    requires r.Valid() && !r.phase.Done? && Asks(c, r, c0, tx)
    ensures var (c', a) := TurnUnder(c, Out(r), fate);
      Orderly(c', Step(r, a), c0, tx, r.inf)
  {
    hide Step, Asks, Told, Partly, Wholly;
    var (c', a) := TurnUnder(c, Out(r), fate);
    AsksIBlock(c, r, c0, tx);
    HearIntactFrame(c, Out(r));
    if fate.BlockLost? || c.due.After? {
      SilenceFails(r);
      FailedCall(c, Step(r, SILENCE), c0, tx, r.inf, |tx| - |r.tx|);
    } else if r.phase.Chaining? {
      PieceTold(c, r, c0, tx);
      TurnTold(c', r, c0, tx, a);
    } else {
      LastTold(c, r, c0, tx);
      ReplyGoesOn(r, a);
    }
  }

  /** What `Asks` says of the block, and how a card that waits for time takes it. */
  lemma AsksIBlock(c: Picc, r: Reader, c0: Picc, tx: seq<Byte>)
    requires r.Valid() && !r.phase.Done? && Asks(c, r, c0, tx)
    ensures (r.phase.Chaining? || r.phase.Replying?) && |r.tx| <= |tx|
    ensures Partly(c, c0, tx, r.inf, |tx| - |r.tx|)
    ensures c.due.After? ==> Hear(c, Out(r)) == Mute(c)
  {
    IBlockHeard(c, r.phase.Chaining?, Number(r.block), if r.phase.Chaining? then r.tx[..r.inf] else r.tx);
  }

  /** Things stay in order in every turn. */
  lemma TurnKeepsOrder(c: Picc, r: Reader, c0: Picc, tx: seq<Byte>, inf: nat, fate: Fate)
    requires Orderly(c, r, c0, tx, inf) && !r.phase.Done?
    ensures var (c', a) := TurnUnder(c, Out(r), fate);
      Orderly(c', Step(r, a), c0, tx, inf)
  {
    hide Step, Asks, Partly;
    var (c', a) := TurnUnder(c, Out(r), fate);
    if Asks(c, r, c0, tx) {
      TurnAsks(c, r, c0, tx, fate);
    } else {
      HearIntactFrame(c, Out(r));
      OthersTellNothing(c, Out(r));
      if r.InChain() {
        SamePart(c, c', c0, tx, r.inf, |tx| - |r.tx| + r.inf);
        TurnTold(c', r, c0, tx, a);
      } else {
        ReplyGoesOn(r, a);
      }
    }
  }

  lemma SamePart(c: Picc, c': Picc, c0: Picc, tx: seq<Byte>, inf: nat, k: nat)
    requires Partly(c, c0, tx, inf, k) && c'.got == c.got && c'.part == c.part
    ensures Partly(c', c0, tx, inf, k)
  {
  }

  // ----- Calls --------------------------------------------------------------------------

  lemma {:induction false} ExchangeKeepsOrder(c: Picc, r: Reader, c0: Picc, tx: seq<Byte>, inf: nat,
                                              fates: seq<Fate>)
    requires Orderly(c, r, c0, tx, inf)
    ensures var (c', end) := Exchange(c, r, fates);
      Orderly(c', end, c0, tx, inf)
    decreases |fates|
  {
    hide Step, Orderly;
    OrderlyIsValid(c, r, c0, tx, inf);
    if r.phase.Done? {
    } else if fates == [] {
      TurnKeepsOrder(c, r, c0, tx, inf, BlockLost);
    } else {
      TurnKeepsOrder(c, r, c0, tx, inf, fates[0]);
      var (c', a) := TurnUnder(c, Out(r), fates[0]);
      ExchangeKeepsOrder(c', Step(r, a), c0, tx, inf, fates[1..]);
    }
  }

  lemma OrderlyIsValid(c: Picc, r: Reader, c0: Picc, tx: seq<Byte>, inf: nat)
    requires Orderly(c, r, c0, tx, inf)
    ensures r.Valid()
  {
  }

  /** One call, from any state of the card and whatever gets lost or damaged: the card completes
      the request once, behind what it had before, or is left with some full pieces of it. If
      the call succeeds, it has completed it. */
  lemma CallInOrder(c: Picc, block: Counter, inf: nat, stack: seq<Byte>, tx: seq<Byte>, room: nat,
                    fates: seq<Fate>)
    requires |stack| == MAX_FRAME_SIZE
    ensures var (c', end) := Exchange(c, Start(block, inf, stack, tx, room), fates);
      && (Wholly(c', c, tx) || Partly(c', c, tx, inf, Held(c', c)))
      && (Succeeded(end) ==> Wholly(c', c, tx))
  {
    hide Step, Exchange;
    var r := Start(block, inf, stack, tx, room);
    Prepared(Reader(Chaining, inf, block, stack, tx, [], room));
    assert c.part + tx[..0] == c.part;
    if r.phase.Done? {
      FailedCall(c, r, c, tx, inf, 0);
    } else {
      assert tx[0..] == tx;
      assert Asks(c, r, c, tx);
    }
    ExchangeKeepsOrder(c, r, c, tx, inf, fates);
  }

  // ----- What a success is worth --------------------------------------------------------

  /** Answers get lost, but none is replaced by another. */
  predicate Undamaged(fates: seq<Fate>) {
    forall i :: 0 <= i < |fates| ==> fates[i].AnswerLost? ==> fates[i].instead == SILENCE
  }

  /** A call that succeeds on such a link has lost nothing: the exchange is one that the card and
      the reader have by themselves. */
  lemma {:induction false} SuccessLostNothing(c: Picc, r: Reader, fates: seq<Fate>)
    returns (script: seq<Answer>)
    requires r.Valid() && Undamaged(fates) && Succeeded(Exchange(c, r, fates).1)
    ensures Obeys(c, r, script)
    ensures Exchange(c, r, fates) == (CardAfter(c, r, script), Finish(r, script))
    decreases |fates|
  {
    hide Step;
    script := [];
    if r.phase.Done? {
    } else {
      SilenceFails(r);
      var (c', a) := TurnUnder(c, Out(r), fates[0]);
      script := SuccessLostNothing(c', Step(r, a), fates[1..]);
      assert a == AnswerOf(HearFrame(c, WithCrc(Out(r))));
      OneTurnMore(c, r, script);
      script := [a] + script;
    }
  }

  /** On a link that loses what it likes, a call that succeeds has done what it is for exactly when
      the card had no part of an earlier request, and either the numbers differed or the reply
      has several pieces. */
  lemma SuccessIsTrueIff(c: Picc, block: Counter, inf: nat, stack: seq<Byte>, tx: seq<Byte>, room: nat,
                         fates: seq<Fate>)
    requires |stack| == MAX_FRAME_SIZE && Sendable(tx, inf) && PiecesFit(NextReply(c)) && Undamaged(fates)
    ensures var (c', end) := Exchange(c, Start(block, inf, stack, tx, room), fates);
      Fulfilled(c, c', end, tx, room)
      <==> Succeeded(end) && c.part == [] && (c.number != Number(block) || |NextReply(c)| >= 2)
  {
    hide Step, Start, Exchange, Finish, Obeys, CardAfter, PiecesFit, Sendable;
    var r := Start(block, inf, stack, tx, room);
    var (c', end) := Exchange(c, r, fates);
    if Succeeded(end) {
      var script := SuccessLostNothing(c, r, fates);
      CallDeliversIff(c, block, inf, stack, tx, room, script);
      SuccessGotThrough(c, block, inf, stack, tx, room, script);
    }
  }

  lemma SuccessGotThrough(c: Picc, block: Counter, inf: nat, stack: seq<Byte>, tx: seq<Byte>, room: nat,
                          script: seq<Answer>)
    requires |stack| == MAX_FRAME_SIZE && Sendable(tx, inf) && PiecesFit(NextReply(c))
    requires Obeys(c, Start(block, inf, stack, tx, room), script)
    requires Succeeded(Finish(Start(block, inf, stack, tx, room), script))
    ensures c.due.Nothing? && (c.number != Number(block) || |tx| <= inf)
  {
    hide Step, Start, Finish, Obeys, CardAfter, Frames;
    if c.due.After? {
      DeafCall(c, block, inf, stack, tx, room, script);
    } else if c.number == Number(block) {
      CallOutOfStep(c, block, inf, stack, tx, room, script);
    }
  }

  // ----- Sessions -----------------------------------------------------------------------

  /** What the card has got of one request: all of it, or its first bytes. */
  datatype Reach = Whole | Part(k: nat)

  function ReachOf(c: Picc, c0: Picc): Reach {
    if c.got == c0.got then Part(Held(c, c0)) else Whole
  }

  /** Where the calls of a session leave the card, the reader at the end of each, and what the
      card got of each. */
  datatype Record = Record(card: Picc, ends: seq<Reader>, reaches: seq<Reach>)

  function Meet(c: Picc, block: Counter, inf: nat, calls: seq<Errand>, fates: seq<seq<Fate>>): (m: Record)
    requires |fates| == |calls| && forall i :: 0 <= i < |calls| ==> |calls[i].stack| == MAX_FRAME_SIZE
    ensures |m.ends| == |m.reaches| == |calls|
    decreases |calls|
  {
    if calls == [] then Record(c, [], [])
    else
      var (c', end) :=
        Exchange(c, Start(block, inf, calls[0].stack, calls[0].tx, calls[0].room), fates[0]);
      var m := Meet(c', end.block, inf, calls[1..], fates[1..]);
      Record(m.card, [end] + m.ends, [ReachOf(c', c)] + m.reaches)
  }

  /** The requests that come out of this, and the part that is left: what is not complete goes in
      front of what comes next. */
  function Assembled(part: seq<Byte>, requests: seq<seq<Byte>>, reaches: seq<Reach>)
    : (a: (seq<seq<Byte>>, seq<Byte>))
    requires |requests| == |reaches|
    decreases |requests|
  {
    if requests == [] then ([], part)
    else
      match reaches[0]
      case Part(k) => Assembled(part + Take(requests[0], k), requests[1..], reaches[1..])
      case Whole =>
        var (got, rest) := Assembled([], requests[1..], reaches[1..]);
        ([part + requests[0]] + got, rest)
  }

  /** What a call may reach: all, if it succeeds; otherwise all, or full pieces short of all. */
  predicate Reachable(call: Errand, end: Reader, reach: Reach, inf: nat) {
    match reach
    case Whole => true
    case Part(k) => !Succeeded(end) && FullPieces(k, inf) && (k == 0 || k < |call.tx|)
  }

  /** A session of any length, from any state of the card, on a link that loses and damages what
      it likes: the card's requests are those of the calls in their order, each once at most and
      behind the pieces of the calls before it that failed; those of the successful calls are
      among them. */
  lemma {:induction false} SessionInOrder(c: Picc, block: Counter, inf: nat, calls: seq<Errand>,
                                          fates: seq<seq<Fate>>)
    requires |fates| == |calls| && forall i :: 0 <= i < |calls| ==> |calls[i].stack| == MAX_FRAME_SIZE
    ensures var m := Meet(c, block, inf, calls, fates);
      var (got, part) := Assembled(c.part, Requests(calls), m.reaches);
      && m.card.got == c.got + got && m.card.part == part
      && forall i :: 0 <= i < |calls| ==> Reachable(calls[i], m.ends[i], m.reaches[i], inf)
    decreases |calls|
  {
    hide Exchange, Start, FullPieces, Partly, Wholly, ReachOf, Reachable;
    if calls == [] {
      assert c.got + [] == c.got;
    } else {
      var r := Start(block, inf, calls[0].stack, calls[0].tx, calls[0].room);
      var (c', end) := Exchange(c, r, fates[0]);
      CallInOrder(c, block, inf, calls[0].stack, calls[0].tx, calls[0].room, fates[0]);
      CallReaches(c, c', calls[0], end, inf);
      SessionInOrder(c', end.block, inf, calls[1..], fates[1..]);
      var m := Meet(c', end.block, inf, calls[1..], fates[1..]);
      assert Requests(calls) == [calls[0].tx] + Requests(calls[1..]);
      CallAdds(c, c', calls[0].tx, inf, Requests(calls[1..]), m.reaches);
    }
  }

  lemma CallReaches(c: Picc, c': Picc, call: Errand, end: Reader, inf: nat)
    requires Wholly(c', c, call.tx) || Partly(c', c, call.tx, inf, Held(c', c))
    requires Succeeded(end) ==> Wholly(c', c, call.tx)
    ensures Reachable(call, end, ReachOf(c', c), inf)
  {
    if Wholly(c', c, call.tx) {
      assert |c'.got| == |c.got| + 1;
    }
  }

  lemma WholeAdds(part: seq<Byte>, tx: seq<Byte>, requests: seq<seq<Byte>>, reaches: seq<Reach>)
    requires |requests| == |reaches|
    ensures var (got, rest) := Assembled([], requests, reaches);
      Assembled(part, [tx] + requests, [Whole] + reaches) == ([part + tx] + got, rest)
  {
    assert ([tx] + requests)[1..] == requests && ([Whole] + reaches)[1..] == reaches;
  }

  lemma PartAdds(part: seq<Byte>, k: nat, tx: seq<Byte>, requests: seq<seq<Byte>>, reaches: seq<Reach>)
    requires |requests| == |reaches|
    ensures Assembled(part, [tx] + requests, [Part(k)] + reaches)
      == Assembled(part + Take(tx, k), requests, reaches)
  {
    assert ([tx] + requests)[1..] == requests && ([Part(k)] + reaches)[1..] == reaches;
  }

  lemma CallAdds(c: Picc, c': Picc, tx: seq<Byte>, inf: nat, requests: seq<seq<Byte>>, reaches: seq<Reach>)
    requires |requests| == |reaches|
    requires Wholly(c', c, tx) || Partly(c', c, tx, inf, Held(c', c))
    ensures var (got', part') := Assembled(c'.part, requests, reaches);
      var (got, part) := Assembled(c.part, [tx] + requests, [ReachOf(c', c)] + reaches);
      c'.got + got' == c.got + got && part' == part
  {
    hide FullPieces, Assembled;
    if Wholly(c', c, tx) {
      assert |c'.got| == |c.got| + 1;
      WholeAdds(c.part, tx, requests, reaches);
      var got := Assembled([], requests, reaches).0;
      assert c.got + [c.part + tx] + got == c.got + ([c.part + tx] + got);
    } else {
      PartAdds(c.part, Held(c', c), tx, requests, reaches);
    }
  }

  function Results(ends: seq<Reader>): seq<seq<Byte>> {
    seq(|ends|, i requires 0 <= i < |ends| => ends[i].rx)
  }

  lemma AnyBlock(c: Picc, calls: seq<Errand>, s: Session, block: Counter)
    requires Delivered(c, calls, s)
    ensures Delivered(c, calls, s.(block := block))
  {
  }

  lemma NothingDelivered(c: Picc, calls: seq<Errand>, block: Counter)
    requires calls == []
    ensures Delivered(c, calls, Session(c, block, []))
  {
    assert c.got + Requests(calls) == c.got;
  }

  /** As long as no call fails, each does what it is for, whatever the link may lose: from a card
      that is ready, on a link that damages nothing, a list of calls that all succeed is delivered
      like one on which nothing is lost. */
  lemma {:induction false} DeliveredUntilFailure(c: Picc, block: Counter, inf: nat, calls: seq<Errand>,
                                                 fates: seq<seq<Fate>>)
    requires |fates| == |calls| && CallsValid(calls, inf)
    requires Ready(c, block) && RepliesFit(c.replies)
    requires forall i :: 0 <= i < |calls| ==> Undamaged(fates[i])
    requires forall i :: 0 <= i < |calls| ==> Succeeded(Meet(c, block, inf, calls, fates).ends[i])
    ensures var m := Meet(c, block, inf, calls, fates);
      Delivered(c, calls, Session(m.card, block, Results(m.ends)))
    decreases |calls|
  {
    hide Exchange, Start, Undamaged, PlannedReply, Flatten, Take, Delivered;
    if calls == [] {
      NothingDelivered(c, calls, block);
    } else {
      var call, r := calls[0], Start(block, inf, calls[0].stack, calls[0].tx, calls[0].room);
      var (c', end) := Exchange(c, r, fates[0]);
      var m := Meet(c', end.block, inf, calls[1..], fates[1..]);
      var ends := [end] + m.ends;
      assert ends == Meet(c, block, inf, calls, fates).ends;
      assert ends[0] == end;
      SuccessIsTrueIff(c, block, inf, call.stack, call.tx, call.room, fates[0]);
      assert forall i :: 0 <= i < |calls[1..]| ==> m.ends[i] == ends[i + 1];
      DeliveredUntilFailure(c', end.block, inf, calls[1..], fates[1..]);
      OneMore(c, Served(c', end.block, end.rx), calls, Session(m.card, end.block, Results(m.ends)));
      AnyBlock(c, calls, Session(m.card, end.block, [end.rx] + Results(m.ends)), block);
      assert Results(ends) == [end.rx] + Results(m.ends);
    }
  }
}

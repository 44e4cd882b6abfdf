/**
 * Calls that begin with reader and card out of step, on a link that loses nothing from then on:
 * which of them still deliver, how the others end, and how one lost answer leads there. The
 * reader keeps its block number over a failed call; only `Open` sets it to 0.
 */
module OutOfStep {
  import opened Bytes
  import opened Blocks
  import opened CrcA
  import opened Link
  import opened TclReader
  import opened TclCard
  import opened Delivery

  /** The card owes nothing, but its number is the one the reader is about to use. */
  predicate Crossed(c: Picc, block: Counter) {
    c.due.Nothing? && c.number == Number(block)
  }

  // ----- Requests of one block ----------------------------------------------------------

  /** The last block of the request is out under a number the card has used already. */
  predicate SendsCrossed(c: Picc, r: Reader, more: bool, g: Goal)
    requires r.Valid()
  {
    && r.phase.Replying? && Crossed(c, r.block) && Asking(c, r, r.tx, g)
    && Out(r) == [IHeader(false, Number(r.block))] + r.tx
    && more == (|NextReply(c)| > 1)
  }

  /** The card has the request and owes a piece under a number the reader does not expect. */
  predicate OwesCrossed(c: Picc, r: Reader, piece: seq<Byte>, more: bool, g: Goal) {
    && r.Valid() && (r.phase.Replying? || r.phase.ReplyWtx?) && c.number != Number(r.block)
    && Telling(c, r, [piece] + c.out, g) && more == (c.out != [])
  }

  predicate GrantsCrossed(c: Picc, r: Reader, more: bool, g: Goal)
    requires r.Valid()
  {
    && r.phase.ReplyWtx? && OwesCrossed(c, r, HeldPiece(c), more, g)
    && c.due.After? && c.due.block == [IHeader(more, c.number)] + HeldPiece(c)
    && Out(r) == [WTX, Granted(c.due.power)]
  }

  /** The reader has dropped a piece and acknowledges it under the card's current number, which
      by rule 11 is to ask for it again. */
  predicate AsksAgain(c: Picc, r: Reader, piece: seq<Byte>, g: Goal)
    requires r.Valid()
  {
    && r.phase.Replying? && Crossed(c, r.block) && c.out != []
    && c.last == [IHeader(true, c.number)] + piece
    && Telling(c, r, [piece] + c.out, g)
    && Out(r) == [AckHeader(Number(r.block))]
  }

  function LastPiece(c: Picc): seq<Byte> {
    if c.last == [] then [] else c.last[1..]
  }

  /** The caller is told of an empty reply; the card has the request, and has been answered for
      all it knows. The two are still out of step. */
  predicate Missed(c: Picc, r: Reader, g: Goal) {
    && r.phase == Done(Return(|r.rx|)) && Crossed(c, r.block) && c.out == [] && c.part == []
    && c.got == g.past + [g.request] && c.replies == g.later
  }

  /** What holds before every turn; `more` says whether the reply has a second piece. */
  predicate Astray(c: Picc, r: Reader, more: bool, g: Goal) {
    r.Valid() &&
    (|| SendsCrossed(c, r, more, g) || GrantsCrossed(c, r, more, g)
     || (more && AsksAgain(c, r, LastPiece(c), g)))
  }

  /** Where this leads: back into step, or past the reply. */
  predicate BackOrMissed(c: Picc, r: Reader, more: bool, g: Goal) {
    if more then InStep(c, r, g) else Missed(c, r, g)
  }

  /** One turn is lost when a piece has to be asked for again. */
  function TurnsAstray(c: Picc, r: Reader, more: bool, g: Goal): nat {
    TurnsLeft(c, r, g) + (if more then 1 else 0)
  }

  lemma PieceDropped(r: Reader, more: bool, number: bool, piece: seq<Byte>)
    requires r.Valid() && (r.phase.Replying? || r.phase.ReplyWtx?)
    requires number != Number(r.block) && |piece| + 3 <= MAX_FRAME_SIZE
    ensures var s := Step(r, Frame(WithCrc([IHeader(more, number)] + piece)));
      && s.rx == r.rx && s.room == r.room && Number(s.block) == number
      && (more ==> s.phase.Replying? && s.tx == [] && Out(s) == [AckHeader(number)])
      && (!more ==> s.phase == Done(Return(|s.rx|)))
  {
    var h := IHeader(more, number);
    var a := Frame(WithCrc([h] + piece));
    assert Heard(a, MAX_FRAME_SIZE)[0] == h;
    IHeaderCoding(more, number);
    WrongNumberDropped(r, a);
  }

  /** The card says what it owes, or asks for more time. */
  lemma CrossedPieceArrives(c: Picc, r: Reader, piece: seq<Byte>, more: bool, g: Goal)
    requires OwesCrossed(c, r, piece, more, g)
    ensures var t := Say(c, [IHeader(more, c.number)] + piece);
      var s := Step(r, AnswerOf(t));
      && (Astray(t.card, s, more, g) || (!more && Missed(t.card, s, g)))
      && TurnsLeft(t.card, s, g) == Turns(c.waits, 1 + |c.out|) - 1
      && (!more ==> s.rx == r.rx)
  {
    hide Step;
    var block := [IHeader(more, c.number)] + piece;
    var t := Say(c, block);
    assert block[1..] == piece;
    if c.waits != [] && c.waits[0] != [] {
      ReaderGrants(r, c.waits[0][0]);
      AskMoreTime(c, block, 1 + |c.out|);
      assert GrantsCrossed(t.card, Step(r, AnswerOf(t)), more, g);
    } else {
      assert ([piece] + c.out)[0] == piece;
      PieceDropped(r, more, c.number, piece);
      assert more ==> AsksAgain(t.card, Step(r, AnswerOf(t)), piece, g);
    }
  }

  lemma TurnSendsCrossed(c: Picc, r: Reader, more: bool, g: Goal)
    requires r.Valid() && SendsCrossed(c, r, more, g)
    ensures var t := Hear(c, Out(r));
      var s := Step(r, AnswerOf(t));
      && (Astray(t.card, s, more, g) || (!more && Missed(t.card, s, g)))
      && TurnsLeft(t.card, s, g) == TurnsLeft(c, r, g) - 1
      && (!more ==> s.rx == r.rx)
  {
    hide Step;
    IHeaderCoding(false, Number(r.block));
    assert Out(r)[1..] == r.tx;
    var pieces := NextReply(c);
    var next := c.(part := [], got := c.got + [c.part + r.tx], replies := LaterReplies(c),
                   number := !c.number, out := pieces[1..]);
    assert [pieces[0]] + pieces[1..] == pieces;
    CrossedPieceArrives(next, r, pieces[0], more, g);
  }

  /** A piece that was dropped because of its number is not lost when more is to follow: the
      card repeats it, and the reader, which has counted up, takes it. */
  lemma RepeatTaken(c: Picc, r: Reader, piece: seq<Byte>, g: Goal)
    requires r.Valid() && AsksAgain(c, r, piece, g)
    ensures var t := Hear(c, Out(r));
      var s := Step(r, AnswerOf(t));
      && t == Speak(c, c.last) && SendsAck(c, s, g) && s.rx == r.rx + Take(piece, r.room)
      && TurnsLeft(c, s, g) == TurnsLeft(c, r, g)
  {
    hide Step;
    AckHeaderCoding(c.number);
    assert ([piece] + c.out)[0] == piece && ([piece] + c.out)[1..] == c.out;
    PieceAccepted(r, true, c.number, piece);
    TakeConcat(piece, Flatten(c.out), r.room);
    PiecesFitLater(piece, c.out);
  }

  /** One turn of an exchange that began out of step. */
  lemma AstrayTurn(c: Picc, r: Reader, more: bool, g: Goal)
    requires Astray(c, r, more, g)
    ensures var t := HearFrame(c, WithCrc(Out(r)));
      var s := Step(r, AnswerOf(t));
      && (|| (Astray(t.card, s, more, g)
              && TurnsAstray(t.card, s, more, g) == TurnsAstray(c, r, more, g) - 1)
          || (BackOrMissed(t.card, s, more, g)
              && TurnsLeft(t.card, s, g) == TurnsAstray(c, r, more, g) - 1))
      && (!more ==> s.rx == r.rx)
  {
    hide Step;
    HearIntactFrame(c, Out(r));
    if SendsCrossed(c, r, more, g) {
      TurnSendsCrossed(c, r, more, g);
    } else if GrantsCrossed(c, r, more, g) {
      CrossedPieceArrives(c, r, HeldPiece(c), more, g);
    } else {
      RepeatTaken(c, r, LastPiece(c), g);
    }
  }

  /** Every exchange that goes astray gets back into step and achieves its goal, one turn late,
      if the reply has a second piece, and misses the reply if it has not. */
  lemma {:induction false} AstrayEnds(c: Picc, r: Reader, more: bool, g: Goal, script: seq<Answer>)
    requires Astray(c, r, more, g) && Obeys(c, r, script)
    ensures var c', end := CardAfter(c, r, script), Finish(r, script);
      && (if more then Achieved(c', end, g) else Missed(c', end, g) && end.rx == r.rx)
      && |Frames(r, script)| == TurnsAstray(c, r, more, g)
    decreases |script|
  {
    hide Step;
    var c', s := HearFrame(c, WithCrc(Out(r))).card, Step(r, script[0]);
    AstrayTurn(c, r, more, g);
    if Astray(c', s, more, g) && TurnsAstray(c', s, more, g) == TurnsAstray(c, r, more, g) - 1 {
      AstrayEnds(c', s, more, g, script[1..]);
    } else if more {
      Delivery.Delivery(c', s, g, script[1..]);
    }
  }

  lemma OneTurnMore(c: Picc, r: Reader, rest: seq<Answer>)
    requires r.Valid() && !r.phase.Done?
    requires var t := HearFrame(c, WithCrc(Out(r)));
      Obeys(t.card, Step(r, AnswerOf(t)), rest)
    ensures Obeys(c, r, [AnswerOf(HearFrame(c, WithCrc(Out(r))))] + rest)
  {
    var t := HearFrame(c, WithCrc(Out(r)));
    assert ([AnswerOf(t)] + rest)[1..] == rest;
  }

  lemma {:induction false} AstrayHappens(c: Picc, r: Reader, more: bool, g: Goal) returns (script: seq<Answer>)
    requires Astray(c, r, more, g)
    ensures Obeys(c, r, script)
    decreases TurnsAstray(c, r, more, g)
  {
    hide Step;
    var t := HearFrame(c, WithCrc(Out(r)));
    var s := Step(r, AnswerOf(t));
    AstrayTurn(c, r, more, g);
    var rest;
    if Astray(t.card, s, more, g) && TurnsAstray(t.card, s, more, g) == TurnsAstray(c, r, more, g) - 1 {
      rest := AstrayHappens(t.card, s, more, g);
    } else {
      rest := if more then Converse(t.card, s, g) else [];
    }
    OneTurnMore(c, r, rest);
    script := [AnswerOf(t)] + rest;
  }

  // ----- Requests of several blocks -----------------------------------------------------

  /** The first block of a chained request goes out and is refused; `c0` is the card before it.
      What goes out next is no block the card knows, as it is longer than an R-block. */
  predicate Stalls(c: Picc, r: Reader, c0: Picc) {
    && r.Valid() && r.InChain() && r.inf > 0 && c.got == c0.got && c.replies == c0.replies
    && (|| SendsFirst(c, r, c0)
        || (c.part == c0.part + r.tx[..r.inf] && c.number != Number(r.block)
            && (GrantsFirst(c, r) || SendsGarbage(c, r))))
  }

  predicate SendsFirst(c: Picc, r: Reader, c0: Picc)
    requires r.Valid() && r.InChain()
  {
    && r.phase.Chaining? && Crossed(c, r.block) && c.part == c0.part
    && Out(r) == [IHeader(true, Number(r.block))] + r.tx[..r.inf]
  }

  predicate GrantsFirst(c: Picc, r: Reader)
    requires r.Valid()
  {
    && r.phase.ChainWtx? && c.due.After? && c.due.block == [AckHeader(c.number)]
    && Out(r) == [WTX, Granted(c.due.power)]
  }

  predicate SendsGarbage(c: Picc, r: Reader)
    requires r.Valid()
  {
    r.phase.Chaining? && c.due.Nothing? && |Out(r)| > 1 && IsRBlock(Out(r)[0])
  }

  /** The call has failed; the card keeps the first piece, and listens. */
  predicate Stuck(c: Picc, r: Reader, c0: Picc) {
    && r.Valid() && r.phase == Done(Return(EIO)) && Listening(c, r.block)
    && c.got == c0.got && c.replies == c0.replies
    && r.inf <= |r.tx| && c.part == c0.part + r.tx[..r.inf]
  }

  function TurnsStalled(c: Picc, r: Reader): nat {
    if r.phase.Done? then 0
    else if r.phase.Chaining? && c.number != Number(r.block) then 1
    else Turns(c.waits, 1) + 1
  }

  lemma RefusedAckArrives(c: Picc, r: Reader, c0: Picc)
    requires r.Valid() && r.InChain() && r.inf > 0 && c.got == c0.got && c.replies == c0.replies
    requires c.part == c0.part + r.tx[..r.inf] && c.number != Number(r.block)
    ensures var t := Say(c, [AckHeader(c.number)]);
      var s := Step(r, AnswerOf(t));
      && Stalls(t.card, s, c0) && s == r.(phase := s.phase, buf := s.buf)
      && TurnsStalled(t.card, s) == Turns(c.waits, 1)
  {
    hide Step;
    var t := Say(c, [AckHeader(c.number)]);
    if c.waits != [] && c.waits[0] != [] {
      ReaderGrants(r, c.waits[0][0]);
      GrantChangesNothing(r, c.waits[0][0]);
      AskMoreTime(c, [AckHeader(c.number)], 1);
      assert GrantsFirst(t.card, Step(r, AnswerOf(t)));
    } else {
      AckRefused(r, c.number);
      AckHeaderCoding(c.number);
      assert SendsGarbage(t.card, Step(r, AnswerOf(t)));
      assert Turns(c.waits, 1) == 1;
    }
  }

  lemma GrantChangesNothing(r: Reader, power: Byte)
    requires r.Valid() && r.InChain()
    ensures var s := Step(r, Frame(WithCrc([WTX, power])));
      s == r.(phase := s.phase, buf := s.buf)
  {
    var a := Frame(WithCrc([WTX, power]));
    WtxCoding();
    assert Heard(a, Capacity(r))[0] == WTX;
    WtxStep(r, a);
  }

  /** The reader's device reports that nobody answers. */
  lemma SilenceFails(r: Reader)
    requires r.Valid() && !r.phase.Done?
    ensures Step(r, SILENCE) == r.(phase := Done(Return(EIO)))
  {
    assert Overwrite(r.buf, 0, []) == r.buf;
  }

  lemma StallTurn(c: Picc, r: Reader, c0: Picc)
    requires Stalls(c, r, c0)
    ensures var t := HearFrame(c, WithCrc(Out(r)));
      var s := Step(r, AnswerOf(t));
      && s == r.(phase := s.phase, buf := s.buf)
      && (Stalls(t.card, s, c0) || Stuck(t.card, s, c0))
      && TurnsStalled(t.card, s) == TurnsStalled(c, r) - 1
  {
    hide Step;
    HearIntactFrame(c, Out(r));
    IHeaderCoding(true, Number(r.block));
    if SendsFirst(c, r, c0) {
      assert Out(r)[1..] == r.tx[..r.inf];
      RefusedAckArrives(c.(number := !c.number, part := c.part + Out(r)[1..]), r, c0);
    } else if GrantsFirst(c, r) {
      RefusedAckArrives(c, r, c0);
    } else {
      RBlockIsNoIBlock(Out(r)[0]);
      SilenceFails(r);
    }
  }

  lemma RBlockIsNoIBlock(b: Byte)
    requires IsRBlock(b)
    ensures !IsIBlock(b)
  {
  }

  lemma {:induction false} StallEnds(c: Picc, r: Reader, c0: Picc, script: seq<Answer>)
    requires Stalls(c, r, c0) && Obeys(c, r, script)
    ensures var end := Finish(r, script);
      && Stuck(CardAfter(c, r, script), end, c0)
      && end.tx == r.tx && end.inf == r.inf && end.rx == r.rx && end.block == r.block
      && |Frames(r, script)| == TurnsStalled(c, r)
    decreases |script|
  {
    hide Step;
    StallTurn(c, r, c0);
    var c', s := HearFrame(c, WithCrc(Out(r))).card, Step(r, script[0]);
    if Stalls(c', s, c0) {
      StallEnds(c', s, c0, script[1..]);
    }
  }

  lemma {:induction false} StallHappens(c: Picc, r: Reader, c0: Picc) returns (script: seq<Answer>)
    requires Stalls(c, r, c0)
    ensures Obeys(c, r, script)
    decreases TurnsStalled(c, r)
  {
    hide Step;
    var t := HearFrame(c, WithCrc(Out(r)));
    StallTurn(c, r, c0);
    var rest := [];
    if Stalls(t.card, Step(r, AnswerOf(t)), c0) {
      rest := StallHappens(t.card, Step(r, AnswerOf(t)), c0);
    }
    OneTurnMore(c, r, rest);
    script := [AnswerOf(t)] + rest;
  }

  // ----- A card that is still waiting for time ------------------------------------------

  /** A card that has asked for more time answers nothing but the grant; a call that begins then
      fails at its first block and changes nothing, so every later one fails as well. */
  lemma Deaf(c: Picc, r: Reader, script: seq<Answer>)
    requires r.Valid() && (r.phase.Chaining? || r.phase.Replying?) && c.due.After?
    requires IsIBlock(Out(r)[0]) && Obeys(c, r, script)
    ensures Finish(r, script) == r.(phase := Done(Return(EIO))) && CardAfter(c, r, script) == c
    ensures |Frames(r, script)| == 1
  {
    hide Step;
    WtxCoding();
    HearIntactFrame(c, Out(r));
    SilenceFails(r);
  }

  // ----- Calls --------------------------------------------------------------------------

  lemma StartsCrossed(c: Picc, block: Counter, inf: nat, stack: seq<Byte>, tx: seq<Byte>, room: nat)
    requires |stack| == MAX_FRAME_SIZE && Sendable(tx, inf)
    requires Crossed(c, block) && PiecesFit(NextReply(c))
    ensures var r := Start(block, inf, stack, tx, room);
      && r == Reader(r.phase, inf, block, r.buf, tx, [], room)
      && (if |tx| > inf then SendsFirst(c, r, c) && Stalls(c, r, c)
          else SendsCrossed(c, r, |NextReply(c)| > 1, GoalOf(c, tx, room)))
  {
    Prepared(Reader(Chaining, inf, block, stack, tx, [], room));
    assert [] + Take(Flatten(NextReply(c)), room) == GoalOf(c, tx, room).result;
  }

  /** A call that begins out of step ends in one of three ways. A request of several blocks fails,
      and its first piece stays with the card. A request of one block reaches the card; if the
      reply has several pieces it is delivered and the two are in step again, if it has one the
      caller is told of an empty reply, and the next call begins out of step like this one. */
  lemma CallOutOfStep(c: Picc, block: Counter, inf: nat, stack: seq<Byte>, tx: seq<Byte>, room: nat,
                      script: seq<Answer>)
    requires |stack| == MAX_FRAME_SIZE && Sendable(tx, inf)
    requires Crossed(c, block) && PiecesFit(NextReply(c))
    requires Obeys(c, Start(block, inf, stack, tx, room), script)
    ensures var r := Start(block, inf, stack, tx, room);
      var end, c', pieces := Finish(r, script), CardAfter(c, r, script), |NextReply(c)|;
      if |tx| > inf then
        && end.phase == Done(Return(EIO)) && end.rx == [] && end.block == block
        && Listening(c', end.block) && c'.part == c.part + tx[..inf]
        && c'.got == c.got && c'.replies == c.replies
        && |Frames(r, script)| == Turns(c.waits, 1) + 1
      else if pieces == 1 then
        && end.phase == Done(Return(0)) && end.rx == [] && Crossed(c', end.block) && c'.part == []
        && c'.got == c.got + [c.part + tx] && c'.replies == LaterReplies(c)
        && |Frames(r, script)| == Turns(c.waits, 1)
      else
        && Achieved(c', end, GoalOf(c, tx, room))
        && |Frames(r, script)| == Turns(c.waits, pieces) + 1
  {
    hide Step, Finish, Frames, Obeys, CardAfter, Unused;
    var r, g := Start(block, inf, stack, tx, room), GoalOf(c, tx, room);
    StartsCrossed(c, block, inf, stack, tx, room);
    if |tx| > inf {
      StallEnds(c, r, c, script);
    } else {
      AstrayEnds(c, r, |NextReply(c)| > 1, g, script);
    }
  }

  /** The call did what it is for: the caller has the full reply, cut at its room; the card has
      completed this request and nothing else; and both are ready for the next call. */
  predicate Fulfilled(c: Picc, c': Picc, end: Reader, tx: seq<Byte>, room: nat) {
    var result := Take(Flatten(NextReply(c)), room);
    && end.phase == Done(Return(|result|)) && end.rx == result
    && c'.got == c.got + [tx] && c'.replies == LaterReplies(c)
    && c'.out == [] && Ready(c', end.block)
  }

  /** The call returns a count. */
  predicate Succeeded(end: Reader) {
    end.phase.Done? && end.phase.outcome.Return? && end.phase.outcome.value >= 0
  }

  lemma DeafCall(c: Picc, block: Counter, inf: nat, stack: seq<Byte>, tx: seq<Byte>, room: nat,
                 script: seq<Answer>)
    requires |stack| == MAX_FRAME_SIZE && Least(|tx|, inf) < MAX_FRAME_SIZE && c.due.After?
    requires Obeys(c, Start(block, inf, stack, tx, room), script)
    ensures var r := Start(block, inf, stack, tx, room);
      var end := Finish(r, script);
      && end.phase == Done(Return(EIO)) && end.rx == [] && end.block == block
      && CardAfter(c, r, script) == c
  {
    hide Step, Finish, Frames, Obeys, CardAfter;
    Prepared(Reader(Chaining, inf, block, stack, tx, [], room));
    IHeaderCoding(true, Number(block));
    IHeaderCoding(false, Number(block));
    Deaf(c, Start(block, inf, stack, tx, room), script);
  }

  /** What an exchange achieves, exactly: the card's part and the request after it, delivered as
      one, and both ready. */
  lemma CallAchievesIff(c: Picc, block: Counter, inf: nat, stack: seq<Byte>, tx: seq<Byte>, room: nat,
                        script: seq<Answer>)
    requires |stack| == MAX_FRAME_SIZE && Sendable(tx, inf) && PiecesFit(NextReply(c))
    requires Obeys(c, Start(block, inf, stack, tx, room), script)
    ensures var r := Start(block, inf, stack, tx, room);
      Achieved(CardAfter(c, r, script), Finish(r, script), GoalOf(c, tx, room))
      <==> c.due.Nothing?
           && (c.number != Number(block) || (|tx| <= inf && |NextReply(c)| >= 2))
  {
    hide Step, Finish, Frames, Obeys, CardAfter, Unused;
    var r := Start(block, inf, stack, tx, room);
    if c.due.After? {
      DeafCall(c, block, inf, stack, tx, room, script);
    } else if c.number != Number(block) {
      StartsInStep(c, block, inf, stack, tx, room);
      Delivery.Delivery(c, r, GoalOf(c, tx, room), script);
    } else {
      CallOutOfStep(c, block, inf, stack, tx, room, script);
    }
  }

  lemma OtherRequest(got: seq<seq<Byte>>, part: seq<Byte>, tx: seq<Byte>)
    ensures got + [part + tx] == got + [tx] <==> part == []
  {
    assert (got + [part + tx])[|got|] == part + tx && (got + [tx])[|got|] == tx;
    if part == [] {
      assert part + tx == tx;
    } else {
      assert |part + tx| > |tx|;
    }
  }

  /** Whatever state a conforming card is in: a call does what it is for exactly when the card has
      no part of an earlier request, is not waiting for time, and either the numbers differ, or
      the request fits one block and the reply takes several. */
  lemma CallDeliversIff(c: Picc, block: Counter, inf: nat, stack: seq<Byte>, tx: seq<Byte>, room: nat,
                        script: seq<Answer>)
    requires |stack| == MAX_FRAME_SIZE && Sendable(tx, inf) && PiecesFit(NextReply(c))
    requires Obeys(c, Start(block, inf, stack, tx, room), script)
    ensures var r := Start(block, inf, stack, tx, room);
      Fulfilled(c, CardAfter(c, r, script), Finish(r, script), tx, room)
      <==> c.part == [] && c.due.Nothing?
           && (c.number != Number(block) || (|tx| <= inf && |NextReply(c)| >= 2))
  {
    hide Step, Start, Finish, Frames, Obeys, CardAfter, Unused;
    CallAchievesIff(c, block, inf, stack, tx, room, script);
    OtherRequest(c.got, c.part, tx);
    if c.due.After? {
      DeafCall(c, block, inf, stack, tx, room, script);
    } else if c.number == Number(block) {
      CallOutOfStep(c, block, inf, stack, tx, room, script);
    }
  }

  /** The caller alone cannot tell: it gets the reply, as a success, whatever request it answers,
      and a reply that was missed looks like an empty one. */
  lemma CallerServedIff(c: Picc, block: Counter, inf: nat, stack: seq<Byte>, tx: seq<Byte>, room: nat,
                        script: seq<Answer>)
    requires |stack| == MAX_FRAME_SIZE && Sendable(tx, inf) && PiecesFit(NextReply(c))
    requires Obeys(c, Start(block, inf, stack, tx, room), script)
    ensures var end := Finish(Start(block, inf, stack, tx, room), script);
      var result := Take(Flatten(NextReply(c)), room);
      end.phase == Done(Return(|result|)) && end.rx == result
      <==> c.due.Nothing?
           && (c.number != Number(block)
               || (|tx| <= inf && (|NextReply(c)| >= 2 || result == [])))
  {
    hide Step, Start, Finish, Frames, Obeys, CardAfter, Unused;
    CallAchievesIff(c, block, inf, stack, tx, room, script);
    if c.due.After? {
      DeafCall(c, block, inf, stack, tx, room, script);
    } else if c.number == Number(block) {
      CallOutOfStep(c, block, inf, stack, tx, room, script);
    }
  }

  /** A part that a failed call has left at the card is put in front of the next request, and the
      call reports success: exactly when there is such a part, and the request gets through. */
  lemma CallCorruptsIff(c: Picc, block: Counter, inf: nat, stack: seq<Byte>, tx: seq<Byte>, room: nat,
                        script: seq<Answer>)
    requires |stack| == MAX_FRAME_SIZE && Sendable(tx, inf) && PiecesFit(NextReply(c))
    requires Obeys(c, Start(block, inf, stack, tx, room), script)
    ensures var r := Start(block, inf, stack, tx, room);
      var c', end := CardAfter(c, r, script), Finish(r, script);
      && (Succeeded(end) && c'.got != c.got + [tx]
          <==> c.part != [] && c.due.Nothing? && (c.number != Number(block) || |tx| <= inf))
      && (Succeeded(end) ==> c'.got == c.got + [c.part + tx])
  {
    hide Step, Start, Finish, Frames, Obeys, CardAfter, Unused;
    CallAchievesIff(c, block, inf, stack, tx, room, script);
    OtherRequest(c.got, c.part, tx);
    if c.due.After? {
      DeafCall(c, block, inf, stack, tx, room, script);
    } else if c.number == Number(block) {
      CallOutOfStep(c, block, inf, stack, tx, room, script);
    }
  }

  lemma Witness(c: Picc, r: Reader, script: seq<Answer>)
    requires r.Valid() && Obeys(c, r, script)
    ensures exists s :: Obeys(c, r, s)
  {
  }

  /** A call to a conforming card comes to its end exactly when the card is waiting for time, or
      there is nothing to send, or a block has room for at least one byte. Otherwise the reader
      goes on to send empty chained blocks for ever. */
  lemma CallEndsIff(c: Picc, block: Counter, inf: nat, stack: seq<Byte>, tx: seq<Byte>, room: nat)
    requires |stack| == MAX_FRAME_SIZE && Least(|tx|, inf) < MAX_FRAME_SIZE && PiecesFit(NextReply(c))
    ensures (exists script :: Obeys(c, Start(block, inf, stack, tx, room), script))
        <==> (c.due.After? || inf > 0 || tx == [])
  {
    hide Step, Obeys;
    var r := Start(block, inf, stack, tx, room);
    if c.due.After? {
      DeafHappens(c, block, inf, stack, tx, room);
    } else if inf == 0 && tx != [] {
      IdleFromStart(c, block, stack, tx, room);
      forall script ensures !Obeys(c, r, script) {
        NeverDone(c, r, script);
      }
    } else if c.number != Number(block) {
      ExchangeHappens(c, block, inf, stack, tx, room);
    } else {
      StartsCrossed(c, block, inf, stack, tx, room);
      var script;
      if |tx| > inf {
        script := StallHappens(c, r, c);
      } else {
        script := AstrayHappens(c, r, |NextReply(c)| > 1, GoalOf(c, tx, room));
      }
      Witness(c, r, script);
    }
  }

  lemma DeafHappens(c: Picc, block: Counter, inf: nat, stack: seq<Byte>, tx: seq<Byte>, room: nat)
    requires |stack| == MAX_FRAME_SIZE && Least(|tx|, inf) < MAX_FRAME_SIZE && c.due.After?
    ensures exists script :: Obeys(c, Start(block, inf, stack, tx, room), script)
  {
    hide Step;
    var r := Start(block, inf, stack, tx, room);
    Prepared(Reader(Chaining, inf, block, stack, tx, [], room));
    IHeaderCoding(true, Number(block));
    IHeaderCoding(false, Number(block));
    WtxCoding();
    HearIntactFrame(c, Out(r));
    SilenceFails(r);
    OneTurnMore(c, r, []);
    Witness(c, r, [SILENCE]);
  }

  // ----- How it comes to this -----------------------------------------------------------

  /** Whenever an answer of the card gets lost, the call fails, and the next one finds the card
      waiting for time, or out of step. */
  lemma LostAnswer(c: Picc, r: Reader, g: Goal)
    requires InStep(c, r, g) && !r.phase.Done?
    ensures var c', s := HearFrame(c, WithCrc(Out(r))).card, Step(r, SILENCE);
      && s == r.(phase := Done(Return(EIO)))
      && (c'.due.After? || Crossed(c', s.block))
  {
    hide Step;
    SilenceFails(r);
    HearIntactFrame(c, Out(r));
    IHeaderCoding(true, Number(r.block));
    IHeaderCoding(false, Number(r.block));
    AckHeaderCoding(Number(r.block));
  }

  /** When a block of the reader gets lost, the next call finds the card waiting for time if the
      block was to grant it, and in step otherwise; but then the card keeps what it has been sent
      of a request that it has not completed. */
  lemma LostBlock(c: Picc, r: Reader, g: Goal)
    requires InStep(c, r, g) && !r.phase.Done?
    ensures var s := Step(r, SILENCE);
      && s == r.(phase := Done(Return(EIO)))
      && (if r.phase.ChainWtx? || r.phase.ReplyWtx? then c.due.After? else Listening(c, s.block))
      && (if c.got == g.past then r.phase.ReplyWtx? || c.part + Unacknowledged(r) == g.request
          else c.part == [] && c.got == g.past + [g.request])
  {
    hide Step;
    SilenceFails(r);
    if r.phase.ChainWtx? {
      assert Unacknowledged(r) == r.tx[r.inf..];
    }
  }

  /** What the card has not yet been sent, or has not yet answered for. */
  function Unacknowledged(r: Reader): seq<Byte>
    requires r.Valid()
  {
    if r.phase.ChainWtx? then r.tx[r.inf..] else r.tx
  }

  /** After a lost answer, then, a call does what it is for only if its request takes one block
      and the reply several pieces, and nothing of the failed request is left. */
  lemma CallAfterLostAnswer(c: Picc, r: Reader, g: Goal, inf: nat, stack: seq<Byte>, tx: seq<Byte>,
                            room: nat, script: seq<Answer>)
    requires InStep(c, r, g) && !r.phase.Done?
    requires |stack| == MAX_FRAME_SIZE && Sendable(tx, inf)
    requires PiecesFit(NextReply(HearFrame(c, WithCrc(Out(r))).card))
    requires Obeys(HearFrame(c, WithCrc(Out(r))).card,
                   Start(Step(r, SILENCE).block, inf, stack, tx, room), script)
    ensures var c' := HearFrame(c, WithCrc(Out(r))).card;
      var s := Start(Step(r, SILENCE).block, inf, stack, tx, room);
      Fulfilled(c', CardAfter(c', s, script), Finish(s, script), tx, room)
      <==> c'.part == [] && c'.due.Nothing? && |tx| <= inf && |NextReply(c')| >= 2
  {
    hide Step, Finish, Obeys, CardAfter, HearFrame, Start, Fulfilled;
    LostAnswer(c, r, g);
    CallDeliversIff(HearFrame(c, WithCrc(Out(r))).card, Step(r, SILENCE).block, inf, stack, tx, room,
                    script);
  }

  /** After a lost block it does exactly if that was not to grant time and nothing of the failed
      request is left. */
  lemma CallAfterLostBlock(c: Picc, r: Reader, g: Goal, inf: nat, stack: seq<Byte>, tx: seq<Byte>,
                           room: nat, script: seq<Answer>)
    requires InStep(c, r, g) && !r.phase.Done?
    requires |stack| == MAX_FRAME_SIZE && Sendable(tx, inf) && PiecesFit(NextReply(c))
    requires Obeys(c, Start(Step(r, SILENCE).block, inf, stack, tx, room), script)
    ensures var s := Start(Step(r, SILENCE).block, inf, stack, tx, room);
      Fulfilled(c, CardAfter(c, s, script), Finish(s, script), tx, room)
      <==> c.part == [] && !r.phase.ChainWtx? && !r.phase.ReplyWtx?
  {
    hide Step, Finish, Obeys, CardAfter, Start, Fulfilled;
    LostBlock(c, r, g);
    CallDeliversIff(c, Step(r, SILENCE).block, inf, stack, tx, room, script);
  }

  /** It happens to every call on a ready card: if its first answer gets lost, the card waits for
      time when it has asked for it, and is out of step when it has not. */
  lemma FirstAnswerLost(c: Picc, block: Counter, inf: nat, stack: seq<Byte>, tx: seq<Byte>, room: nat)
    requires |stack| == MAX_FRAME_SIZE && Sendable(tx, inf)
    requires Ready(c, block) && PiecesFit(NextReply(c))
    ensures var r := Start(block, inf, stack, tx, room);
      var c', end := HearFrame(c, WithCrc(Out(r))).card, Finish(r, [SILENCE]);
      && end.phase == Done(Return(EIO)) && end.rx == [] && end.block == block
      && (if c.waits != [] && c.waits[0] != [] then c'.due.After? else Crossed(c', end.block))
      && c'.part == (if |tx| > inf then tx[..inf] else [])
  {
    hide Step;
    var r, g := Start(block, inf, stack, tx, room), GoalOf(c, tx, room);
    StartsInStep(c, block, inf, stack, tx, room);
    Prepared(Reader(Chaining, inf, block, stack, tx, [], room));
    SilenceFails(r);
    HearIntactFrame(c, Out(r));
    IHeaderCoding(true, Number(block));
    IHeaderCoding(false, Number(block));
    if |tx| > inf {
      assert Out(r)[1..] == tx[..inf] && [] + tx[..inf] == tx[..inf];
    }
  }

  lemma ThenSilence(r: Reader, a: Answer)
    requires r.Valid() && !r.phase.Done? && !Step(r, a).phase.Done?
    ensures Finish(r, [a, SILENCE]) == Step(r, a).(phase := Done(Return(EIO)))
  {
    hide Step;
    var script := [a, SILENCE];
    assert script[1..] == [SILENCE] && [SILENCE][1..] == [];
    var s := Step(r, a);
    SilenceFails(s);
    var end := Step(s, SILENCE);
    assert Finish(r, script) == Finish(s, [SILENCE]) == Finish(end, []) == end;
  }

  /** And a part is left at every ready card that acknowledges the first of several blocks at once,
      if the second block gets lost. The numbers differ: the next request goes through, and the
      card takes the two for one. */
  lemma SecondBlockLost(c: Picc, block: Counter, inf: nat, stack: seq<Byte>, tx: seq<Byte>, room: nat)
    requires |stack| == MAX_FRAME_SIZE && 0 < inf < |tx| && inf < MAX_FRAME_SIZE
    requires Ready(c, block) && (c.waits == [] || c.waits[0] == [])
    ensures var r := Start(block, inf, stack, tx, room);
      var t := HearFrame(c, WithCrc(Out(r)));
      var end := Finish(r, [AnswerOf(t), SILENCE]);
      && end.phase == Done(Return(EIO)) && end.rx == []
      && Listening(t.card, end.block) && t.card.got == c.got && t.card.part == tx[..inf] != []
  {
    hide Step;
    var r := Start(block, inf, stack, tx, room);
    Prepared(Reader(Chaining, inf, block, stack, tx, [], room));
    HearIntactFrame(c, Out(r));
    IHeaderCoding(true, Number(block));
    assert Out(r)[1..] == tx[..inf] && [] + tx[..inf] == tx[..inf];
    AckAccepted(r, Number(block));
    var t := HearFrame(c, WithCrc(Out(r)));
    assert t.block == [AckHeader(Number(block))];
    ThenSilence(r, AnswerOf(t));
  }

  // ----- Sessions -----------------------------------------------------------------------

  /** The answers of each of these calls are those of the card, call after call. */
  predicate ObeysAll(c: Picc, block: Counter, inf: nat, calls: seq<Errand>, scripts: seq<seq<Answer>>)
    requires CallsValid(calls, inf) && |scripts| == |calls|
    decreases |calls|
  {
    calls == [] ||
    (var r := Start(block, inf, calls[0].stack, calls[0].tx, calls[0].room);
     && Obeys(c, r, scripts[0])
     && ObeysAll(CardAfter(c, r, scripts[0]), Finish(r, scripts[0]).block, inf, calls[1..], scripts[1..]))
  }

  /** The readers at the end of these calls. */
  function Ends(block: Counter, inf: nat, calls: seq<Errand>, scripts: seq<seq<Answer>>): (ends: seq<Reader>)
    requires CallsValid(calls, inf) && |scripts| == |calls|
    ensures |ends| == |calls|
    decreases |calls|
  {
    if calls == [] then []
    else
      var end := Finish(Start(block, inf, calls[0].stack, calls[0].tx, calls[0].room), scripts[0]);
      [end] + Ends(end.block, inf, calls[1..], scripts[1..])
  }

  predicate OnePieceReplies(c: Picc) {
    forall i :: 0 <= i < |c.replies| ==> |c.replies[i]| <= 1
  }

  predicate OneBlockRequests(calls: seq<Errand>, inf: nat) {
    forall i :: 0 <= i < |calls| ==> |calls[i].tx| <= inf
  }

  /** Nothing brings the two back into step while requests and replies are short: every call
      reports success and an empty reply, however many there are. */
  lemma {:induction false} ShortRepliesNeverArrive(c: Picc, block: Counter, inf: nat, calls: seq<Errand>,
                                                   scripts: seq<seq<Answer>>)
    requires CallsValid(calls, inf) && |scripts| == |calls| && OneBlockRequests(calls, inf)
    requires Crossed(c, block) && RepliesFit(c.replies) && OnePieceReplies(c)
    requires ObeysAll(c, block, inf, calls, scripts)
    ensures forall i :: 0 <= i < |calls| ==>
      var end := Ends(block, inf, calls, scripts)[i];
      end.phase == Done(Return(0)) && end.rx == []
    decreases |calls|
  {
    hide Start, Finish, Obeys, CardAfter;
    if calls == [] {
    } else {
      var r := Start(block, inf, calls[0].stack, calls[0].tx, calls[0].room);
      CallOutOfStep(c, block, inf, calls[0].stack, calls[0].tx, calls[0].room, scripts[0]);
      var c', end := CardAfter(c, r, scripts[0]), Finish(r, scripts[0]);
      ShortRepliesNeverArrive(c', end.block, inf, calls[1..], scripts[1..]);
      assert Ends(block, inf, calls, scripts) == [end] + Ends(end.block, inf, calls[1..], scripts[1..]);
    }
  }
}

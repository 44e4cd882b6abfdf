/**
 * The reader and a conforming card together, on a link that loses nothing: what every turn
 * keeps, that an exchange ends, and what it delivers, over sessions of any length.
 */
module Delivery {
  import opened Bytes
  import opened Blocks
  import opened CrcA
  import opened Link
  import opened TclReader
  import opened TclCard

  /** What an exchange is to achieve: the request the card must assemble, the bytes the caller
      must get, what the card had assembled before, and the replies it must have left. */
  datatype Goal = Goal(request: seq<Byte>, result: seq<Byte>, past: seq<seq<Byte>>,
                       later: seq<seq<seq<Byte>>>)

  /** Every piece, with header and checksum, fits the largest frame there is. */
  predicate PiecesFit(pieces: seq<seq<Byte>>) {
    forall i :: 0 <= i < |pieces| ==> |pieces[i]| + 3 <= MAX_FRAME_SIZE
  }

  predicate RepliesFit(replies: seq<seq<seq<Byte>>>) {
    forall i :: 0 <= i < |replies| ==> PiecesFit(replies[i])
  }

  /** Request not complete yet; `unheard` is its part the card has not got. */
  predicate Asking(c: Picc, r: Reader, unheard: seq<Byte>, g: Goal) {
    && c.part + unheard == g.request && c.got == g.past
    && LaterReplies(c) == g.later && PiecesFit(NextReply(c))
    && r.rx + Take(Flatten(NextReply(c)), r.room) == g.result
  }

  /** Request complete; `unread` are the pieces of the reply the reader has not got. */
  predicate Telling(c: Picc, r: Reader, unread: seq<seq<Byte>>, g: Goal) {
    && c.part == [] && c.got == g.past + [g.request]
    && c.replies == g.later && PiecesFit(unread)
    && r.rx + Take(Flatten(unread), r.room) == g.result
  }

  /** The reader is about to send: nothing is held back, and the block numbers differ. */
  predicate ReaderTurn(c: Picc, r: Reader) {
    c.due.Nothing? && c.number != Number(r.block)
  }

  /** The card owes an acknowledgement, or a piece of its reply: the block numbers agree. */
  predicate OwesAck(c: Picc, r: Reader, g: Goal) {
    && r.Valid() && r.InChain() && r.inf > 0 && c.number == Number(r.block)
    && Asking(c, r, r.tx[r.inf..], g)
  }

  predicate OwesPiece(c: Picc, r: Reader, piece: seq<Byte>, g: Goal) {
    && r.Valid() && (r.phase.Replying? || r.phase.ReplyWtx?) && c.number == Number(r.block)
    && Telling(c, r, [piece] + c.out, g)
  }

  predicate SendsChained(c: Picc, r: Reader, g: Goal)
    requires r.Valid()
  {
    && r.phase.Chaining? && r.inf > 0 && ReaderTurn(c, r) && Asking(c, r, r.tx, g)
    && Out(r) == [IHeader(true, Number(r.block))] + r.tx[..r.inf]
  }

  predicate SendsLast(c: Picc, r: Reader, g: Goal)
    requires r.Valid()
  {
    && r.phase.Replying? && ReaderTurn(c, r) && Asking(c, r, r.tx, g)
    && Out(r) == [IHeader(false, Number(r.block))] + r.tx
  }

  predicate SendsAck(c: Picc, r: Reader, g: Goal)
    requires r.Valid()
  {
    && r.phase.Replying? && ReaderTurn(c, r) && c.out != [] && Telling(c, r, c.out, g)
    && Out(r) == [AckHeader(Number(r.block))]
  }

  predicate GrantsInChain(c: Picc, r: Reader, g: Goal)
    requires r.Valid()
  {
    && r.phase.ChainWtx? && OwesAck(c, r, g)
    && c.due.After? && c.due.block == [AckHeader(c.number)]
    && Out(r) == [WTX, Granted(c.due.power)]
  }

  /** The piece the card holds back behind an S(WTX) request. */
  function HeldPiece(c: Picc): seq<Byte> {
    if c.due.After? && c.due.block != [] then c.due.block[1..] else []
  }

  predicate GrantsInReply(c: Picc, r: Reader, g: Goal)
    requires r.Valid()
  {
    && r.phase.ReplyWtx? && OwesPiece(c, r, HeldPiece(c), g)
    && c.due.After? && c.due.block == [IHeader(c.out != [], c.number)] + HeldPiece(c)
    && Out(r) == [WTX, Granted(c.due.power)]
  }

  predicate Achieved(c: Picc, r: Reader, g: Goal) {
    && r.phase == Done(Return(|g.result|)) && r.rx == g.result
    && ReaderTurn(c, r) && c.out == [] && c.part == []
    && c.got == g.past + [g.request] && c.replies == g.later
  }

  /** What holds before every turn of an exchange. */
  predicate InStep(c: Picc, r: Reader, g: Goal) {
    r.Valid() &&
    (|| SendsChained(c, r, g) || GrantsInChain(c, r, g)
     || SendsLast(c, r, g) || SendsAck(c, r, g) || GrantsInReply(c, r, g)
     || Achieved(c, r, g))
  }

  // ----- How many turns are left --------------------------------------------------------

  /** How many chained blocks `length` bytes take, `inf` at a time. */
  function ChainedBlocks(length: nat, inf: nat): nat {
    if 0 < inf < length then 1 + ChainedBlocks(length - inf, inf) else 0
  }

  /** The blocks the card has still to send in this exchange, S(WTX) requests not counted. */
  function BlocksLeft(c: Picc, r: Reader, g: Goal): nat {
    if r.phase.Done? then 0
    else if r.InChain() then ChainedBlocks(|r.tx|, r.inf) + |NextReply(c)|
    else if r.phase.Replying? && c.got == g.past then |NextReply(c)|
    else if r.phase.Replying? then |c.out|
    else 1 + |c.out|
  }

  /** The turns that `blocks` blocks take, with the waits planned before them. */
  function Turns(waits: seq<seq<Byte>>, blocks: nat): nat
    decreases blocks
  {
    if blocks == 0 then 0
    else if waits == [] then 1 + Turns([], blocks - 1)
    else |waits[0]| + 1 + Turns(waits[1..], blocks - 1)
  }

  function TurnsLeft(c: Picc, r: Reader, g: Goal): nat {
    Turns(c.waits, BlocksLeft(c, r, g))
  }

  // ----- One turn -----------------------------------------------------------------------

  lemma AskMoreTime(c: Picc, block: seq<Byte>, blocks: nat)
    requires c.waits != [] && c.waits[0] != [] && blocks > 0
    ensures Turns(Say(c, block).card.waits, blocks) == Turns(c.waits, blocks) - 1
  {
    var later := [c.waits[0][1..]] + c.waits[1..];
    assert later[1..] == c.waits[1..];
  }

  lemma ReaderGrants(r: Reader, power: Byte)
    requires r.Valid() && !r.phase.Done?
    ensures var s := Step(r, Frame(WithCrc([WTX, power])));
      && s.phase == (if r.InChain() then ChainWtx else ReplyWtx)
      && Out(s) == [WTX, Granted(power)]
      && s.block == r.block && s.tx == r.tx && s.inf == r.inf && s.rx == r.rx && s.room == r.room
  {
    var a := Frame(WithCrc([WTX, power]));
    var l := Listen(r, a);
    WtxCoding();
    assert Heard(a, Capacity(r))[0] == WTX;
    WtxStep(r, a);
    assert l.buf[0] == WTX && l.buf[1] == power;
  }

  /** The card says what it owes in the chaining loop, or asks for more time. */
  lemma AckArrives(c: Picc, r: Reader, g: Goal)
    requires OwesAck(c, r, g)
    ensures var t := Say(c, [AckHeader(c.number)]);
      var s := Step(r, AnswerOf(t));
      && InStep(t.card, s, g)
      && TurnsLeft(t.card, s, g) == Turns(c.waits, ChainedBlocks(|r.tx|, r.inf) + |NextReply(c)|) - 1
  {
    if c.waits != [] && c.waits[0] != [] {
      AckDelayed(c, r, g);
    } else {
      AckSaid(c, r, g);
    }
  }

  lemma AckDelayed(c: Picc, r: Reader, g: Goal)
    requires OwesAck(c, r, g) && c.waits != [] && c.waits[0] != []
    ensures var t := Say(c, [AckHeader(c.number)]);
      var s := Step(r, AnswerOf(t));
      && GrantsInChain(t.card, s, g)
      && TurnsLeft(t.card, s, g) == Turns(c.waits, ChainedBlocks(|r.tx|, r.inf) + |NextReply(c)|) - 1
  {
    hide Step;
    ReaderGrants(r, c.waits[0][0]);
    AskMoreTime(c, [AckHeader(c.number)], ChainedBlocks(|r.tx|, r.inf) + |NextReply(c)|);
  }

  lemma AckSaid(c: Picc, r: Reader, g: Goal)
    requires OwesAck(c, r, g) && (c.waits == [] || c.waits[0] == [])
    ensures var t := Say(c, [AckHeader(c.number)]);
      var s := Step(r, AnswerOf(t));
      && (if s.phase.Chaining? then SendsChained(t.card, s, g) else SendsLast(t.card, s, g))
      && TurnsLeft(t.card, s, g) == Turns(c.waits, ChainedBlocks(|r.tx|, r.inf) + |NextReply(c)|) - 1
  {
    hide Step;
    AckAccepted(r, c.number);
  }

  lemma AckAccepted(r: Reader, number: bool)
    requires r.Valid() && r.InChain() && number == Number(r.block)
    ensures var s := Step(r, Frame(WithCrc([AckHeader(number)])));
      && s.block == Increment(r.block) && Number(s.block) == !number
      && s.tx == r.tx[r.inf..] && s.inf == r.inf && s.rx == r.rx && s.room == r.room
      && s.phase == (if |s.tx| > s.inf then Chaining else Replying)
      && Shows(s, Out(s))
  {
    var a := Frame(WithCrc([AckHeader(number)]));
    var l := Listen(r, a);
    assert Heard(a, 3)[0] == AckHeader(number);
    AckHeaderCoding(number);
    NumberAlternates(r.block);
    AckStep(r, a);
    Prepared(l.(tx := r.tx[r.inf..], block := Increment(r.block)));
  }

  /** The card says what it owes in the reply loop, or asks for more time. */
  lemma PieceArrives(c: Picc, r: Reader, piece: seq<Byte>, g: Goal)
    requires OwesPiece(c, r, piece, g)
    ensures var t := Say(c, [IHeader(c.out != [], c.number)] + piece);
      var s := Step(r, AnswerOf(t));
      && InStep(t.card, s, g)
      && TurnsLeft(t.card, s, g) == Turns(c.waits, 1 + |c.out|) - 1
  {
    if c.waits != [] && c.waits[0] != [] {
      PieceDelayed(c, r, piece, g);
    } else {
      PieceSaid(c, r, piece, g);
    }
  }

  lemma PieceDelayed(c: Picc, r: Reader, piece: seq<Byte>, g: Goal)
    requires OwesPiece(c, r, piece, g) && c.waits != [] && c.waits[0] != []
    ensures var t := Say(c, [IHeader(c.out != [], c.number)] + piece);
      var s := Step(r, AnswerOf(t));
      && GrantsInReply(t.card, s, g)
      && TurnsLeft(t.card, s, g) == Turns(c.waits, 1 + |c.out|) - 1
  {
    hide Step;
    var block := [IHeader(c.out != [], c.number)] + piece;
    ReaderGrants(r, c.waits[0][0]);
    AskMoreTime(c, block, 1 + |c.out|);
    assert block[1..] == piece;
  }

  lemma PieceSaid(c: Picc, r: Reader, piece: seq<Byte>, g: Goal)
    requires OwesPiece(c, r, piece, g) && (c.waits == [] || c.waits[0] == [])
    ensures var t := Say(c, [IHeader(c.out != [], c.number)] + piece);
      var s := Step(r, AnswerOf(t));
      && (if c.out == [] then Achieved(t.card, s, g) else SendsAck(t.card, s, g))
      && TurnsLeft(t.card, s, g) == Turns(c.waits, 1 + |c.out|) - 1
  {
    var t := Say(c, [IHeader(c.out != [], c.number)] + piece);
    assert ([piece] + c.out)[0] == piece;
    PieceAccepted(r, c.out != [], c.number, piece);
    PieceTaken(c, r, piece, g, t.card, Step(r, AnswerOf(t)));
  }

  /** Has this piece been taken, by a reader that is now `s`? */
  predicate Took(r: Reader, piece: seq<Byte>, more: bool, s: Reader) {
    && s.Valid()
    && s.rx == r.rx + Take(piece, r.room) && s.room == r.room - |Take(piece, r.room)|
    && s.block == Increment(r.block) && Number(s.block) == !Number(r.block)
    && (more ==> s.phase.Replying? && s.tx == [] && Out(s) == [AckHeader(Number(s.block))])
    && (!more ==> s.phase == Done(Return(|s.rx|)))
  }

  lemma PieceTaken(c: Picc, r: Reader, piece: seq<Byte>, g: Goal, c': Picc, s: Reader)
    requires OwesPiece(c, r, piece, g) && (c.waits == [] || c.waits[0] == [])
    requires c' == Say(c, [IHeader(c.out != [], c.number)] + piece).card
    requires Took(r, piece, c.out != [], s)
    ensures if c.out == [] then Achieved(c', s, g) else SendsAck(c', s, g)
    ensures TurnsLeft(c', s, g) == Turns(c.waits, 1 + |c.out|) - 1
  {
    hide Number, IHeader, AckHeader, Increment;
    assert ([piece] + c.out)[0] == piece && ([piece] + c.out)[1..] == c.out;
    TakeConcat(piece, Flatten(c.out), r.room);
    PiecesFitLater(piece, c.out);
  }

  lemma PiecesFitLater(piece: seq<Byte>, later: seq<seq<Byte>>)
    requires PiecesFit([piece] + later)
    ensures PiecesFit(later)
  {
    forall i | 0 <= i < |later| ensures |later[i]| + 3 <= MAX_FRAME_SIZE {
      assert ([piece] + later)[i + 1] == later[i];
    }
  }

  lemma PieceAccepted(r: Reader, more: bool, number: bool, piece: seq<Byte>)
    requires r.Valid() && (r.phase.Replying? || r.phase.ReplyWtx?)
    requires number == Number(r.block) && |piece| + 3 <= MAX_FRAME_SIZE
    ensures Took(r, piece, more, Step(r, Frame(WithCrc([IHeader(more, number)] + piece))))
  {
    var h := IHeader(more, number);
    var frame := WithCrc([h] + piece);
    var a := Frame(frame);
    assert Heard(a, MAX_FRAME_SIZE) == frame && frame[0] == h;
    assert frame[1..|frame| - 2] == piece;
    IHeaderCoding(more, number);
    IBlockIsNoWtx(h);
    NumberAlternates(r.block);
    LongCopy(r, a);
    AcceptMovesOn(r, a);
  }

  lemma TurnChained(c: Picc, r: Reader, g: Goal)
    requires r.Valid() && SendsChained(c, r, g)
    ensures var t := Hear(c, Out(r));
      && t.Speak? && InStep(t.card, Step(r, AnswerOf(t)), g)
      && TurnsLeft(t.card, Step(r, AnswerOf(t)), g) == TurnsLeft(c, r, g) - 1
  {
    hide Step;
    var piece := r.tx[..r.inf];
    IHeaderCoding(true, Number(r.block));
    var next := c.(number := !c.number, part := c.part + Out(r)[1..]);
    assert Out(r)[1..] == piece;
    assert c.part + piece + r.tx[r.inf..] == c.part + r.tx;
    AckArrives(next, r, g);
  }

  lemma TurnLast(c: Picc, r: Reader, g: Goal)
    requires r.Valid() && SendsLast(c, r, g)
    ensures var t := Hear(c, Out(r));
      && t.Speak? && InStep(t.card, Step(r, AnswerOf(t)), g)
      && TurnsLeft(t.card, Step(r, AnswerOf(t)), g) == TurnsLeft(c, r, g) - 1
  {
    hide Step;
    IHeaderCoding(false, Number(r.block));
    assert Out(r)[1..] == r.tx;
    var pieces := NextReply(c);
    var next := c.(part := [], got := c.got + [c.part + r.tx], replies := LaterReplies(c),
                   number := !c.number, out := pieces[1..]);
    assert [pieces[0]] + pieces[1..] == pieces;
    PieceArrives(next, r, pieces[0], g);
  }

  lemma TurnAck(c: Picc, r: Reader, g: Goal)
    requires r.Valid() && SendsAck(c, r, g)
    ensures var t := Hear(c, Out(r));
      && t.Speak? && InStep(t.card, Step(r, AnswerOf(t)), g)
      && TurnsLeft(t.card, Step(r, AnswerOf(t)), g) == TurnsLeft(c, r, g) - 1
  {
    hide Step;
    AckHeaderCoding(Number(r.block));
    var next := c.(number := !c.number, out := c.out[1..]);
    assert [c.out[0]] + c.out[1..] == c.out;
    PieceArrives(next, r, c.out[0], g);
  }

  lemma TurnGrant(c: Picc, r: Reader, g: Goal)
    requires r.Valid() && (GrantsInChain(c, r, g) || GrantsInReply(c, r, g))
    ensures var t := Hear(c, Out(r));
      && t.Speak? && InStep(t.card, Step(r, AnswerOf(t)), g)
      && TurnsLeft(t.card, Step(r, AnswerOf(t)), g) == TurnsLeft(c, r, g) - 1
  {
    hide Step;
    if GrantsInChain(c, r, g) {
      AckArrives(c, r, g);
    } else {
      PieceArrives(c, r, HeldPiece(c), g);
    }
  }

  /** One turn keeps the two in step, and is never met with silence. */
  lemma TurnKeepsStep(c: Picc, r: Reader, g: Goal)
    requires InStep(c, r, g) && !r.phase.Done?
    ensures var t := HearFrame(c, WithCrc(Out(r)));
      && t.Speak? && InStep(t.card, Step(r, AnswerOf(t)), g)
      && TurnsLeft(t.card, Step(r, AnswerOf(t)), g) == TurnsLeft(c, r, g) - 1
  {
    HearIntactFrame(c, Out(r));
    if SendsChained(c, r, g) {
      TurnChained(c, r, g);
    } else if SendsLast(c, r, g) {
      TurnLast(c, r, g);
    } else if SendsAck(c, r, g) {
      TurnAck(c, r, g);
    } else {
      TurnGrant(c, r, g);
    }
  }

  /** A block that carries this number, or an S-block, which carries none. */
  predicate NumberedOrWtx(block: seq<Byte>, number: bool) {
    block != [] && (IsSBlock(block[0]) || Toggle(block[0]) == number)
  }

  lemma SayNumbered(c: Picc, block: seq<Byte>)
    requires block != [] && Toggle(block[0]) == c.number
    ensures NumberedOrWtx(Say(c, block).block, c.number)
  {
    WtxCoding();
  }

  /** Block-number lockstep: what the reader sends never carries the card's current number, and
      what the card answers always carries the number the reader expects. So in an exchange that
      begins in step, on a link that loses nothing, the reader never resends a block and never
      skips one. */
  lemma Lockstep(c: Picc, r: Reader, g: Goal)
    requires InStep(c, r, g) && !r.phase.Done?
    ensures !IsSBlock(Out(r)[0]) ==> Toggle(Out(r)[0]) != c.number
    ensures var t := HearFrame(c, WithCrc(Out(r)));
      t.Speak? && NumberedOrWtx(t.block, Number(r.block))
  {
    var n := Number(r.block);
    HearIntactFrame(c, Out(r));
    IHeaderCoding(true, n);
    IHeaderCoding(false, n);
    AckHeaderCoding(n);
    WtxCoding();
    if SendsChained(c, r, g) {
      SayNumbered(c.(number := n, part := c.part + Out(r)[1..]), [AckHeader(n)]);
    } else if SendsLast(c, r, g) {
      PieceNumbered(c.(part := [], got := c.got + [c.part + Out(r)[1..]],
                       replies := LaterReplies(c)), NextReply(c), n);
    } else if SendsAck(c, r, g) {
      PieceNumbered(c, c.out, n);
    } else {
      IHeaderCoding(c.out != [], n);
      SayNumbered(c, c.due.block);
    }
  }

  lemma PieceNumbered(c: Picc, pieces: seq<seq<Byte>>, n: bool)
    requires pieces != [] && c.number != n
    ensures NumberedOrWtx(SayPiece(c, pieces).block, n)
  {
    IHeaderCoding(|pieces| > 1, n);
    SayNumbered(c.(number := n, out := pieces[1..]), [IHeader(|pieces| > 1, n)] + pieces[0]);
  }

  // ----- Whole exchanges ----------------------------------------------------------------

  /** The device gives the answers of this card, for as long as the reader asks. */
  predicate Obeys(c: Picc, r: Reader, script: seq<Answer>)
    requires r.Valid()
    decreases |script|
  {
    r.phase.Done? ||
    (script != [] &&
     var t := HearFrame(c, WithCrc(Out(r)));
     script[0] == AnswerOf(t) && Obeys(t.card, Step(r, script[0]), script[1..]))
  }

  /** The card at the end of the exchange. */
  function CardAfter(c: Picc, r: Reader, script: seq<Answer>): Picc
    requires r.Valid()
    decreases |script|
  {
    if r.phase.Done? || script == [] then c
    else CardAfter(HearFrame(c, WithCrc(Out(r))).card, Step(r, script[0]), script[1..])
  }

  /** Any exchange with the card that begins in step achieves its goal, in exactly the turns
      that the pieces and the planned waits take. */
  lemma {:induction false} Delivery(c: Picc, r: Reader, g: Goal, script: seq<Answer>)
    requires InStep(c, r, g) && Obeys(c, r, script)
    ensures Achieved(CardAfter(c, r, script), Finish(r, script), g)
    ensures |script| - |Unused(r, script)| == |Frames(r, script)| == TurnsLeft(c, r, g)
    decreases |script|
  {
    if r.phase.Done? {
    } else {
      TurnKeepsStep(c, r, g);
      Delivery(HearFrame(c, WithCrc(Out(r))).card, Step(r, script[0]), g, script[1..]);
    }
  }

  /** The exchange itself: the answers that reader and card produce by talking. It ends. */
  function Converse(c: Picc, r: Reader, g: Goal): (script: seq<Answer>)
    requires InStep(c, r, g)
    ensures Obeys(c, r, script) && |script| == TurnsLeft(c, r, g)
    decreases TurnsLeft(c, r, g)
  {
    if r.phase.Done? then []
    else
      TurnKeepsStep(c, r, g);
      var t := HearFrame(c, WithCrc(Out(r)));
      var rest := Converse(t.card, Step(r, AnswerOf(t)), g);
      assert ([AnswerOf(t)] + rest)[1..] == rest;
      [AnswerOf(t)] + rest
  }

  /** The card owes nothing, and its number is not the one the reader will use. */
  predicate Listening(c: Picc, block: Counter) {
    c.due.Nothing? && c.number != Number(block)
  }

  /** And it has not begun to assemble a request. */
  predicate Ready(c: Picc, block: Counter) {
    Listening(c, block) && c.part == []
  }

  /** The request has no byte to send, or the reader's blocks have room for at least one, and no
      block is larger than the buffer. */
  predicate Sendable(tx: seq<Byte>, inf: nat) {
    (inf > 0 || tx == []) && Least(|tx|, inf) < MAX_FRAME_SIZE
  }

  /** A request is appended to what the card has assembled already. */
  function GoalOf(c: Picc, tx: seq<Byte>, room: nat): Goal {
    Goal(c.part + tx, Take(Flatten(NextReply(c)), room), c.got, LaterReplies(c))
  }

  lemma StartsInStep(c: Picc, block: Counter, inf: nat, stack: seq<Byte>, tx: seq<Byte>, room: nat)
    requires |stack| == MAX_FRAME_SIZE && Sendable(tx, inf)
    requires Listening(c, block) && PiecesFit(NextReply(c))
    ensures InStep(c, Start(block, inf, stack, tx, room), GoalOf(c, tx, room))
  {
    var r := Reader(Chaining, inf, block, stack, tx, [], room);
    Prepared(r);
    var s := Prepare(r);
    assert [] + Take(Flatten(NextReply(c)), room) == GoalOf(c, tx, room).result;
    assert if |tx| > inf then SendsChained(c, s, GoalOf(c, tx, room))
           else SendsLast(c, s, GoalOf(c, tx, room));
  }

  /** One call of nfc_iso14443_transceive over a link on which this card answers: the call
      returns the card's reply cut at the caller's room, the card has the request once, and both
      are ready for the next call. It takes one turn for every block and every planned wait. */
  lemma ExchangeDelivers(c: Picc, block: Counter, inf: nat, stack: seq<Byte>, tx: seq<Byte>, room: nat,
                         script: seq<Answer>)
    requires |stack| == MAX_FRAME_SIZE && Sendable(tx, inf)
    requires Listening(c, block) && PiecesFit(NextReply(c))
    requires Obeys(c, Start(block, inf, stack, tx, room), script)
    ensures var r := Start(block, inf, stack, tx, room);
      var end, c' := Finish(r, script), CardAfter(c, r, script);
      var result := Take(Flatten(NextReply(c)), room);
      && end.phase == Done(Return(|result|)) && end.rx == result
      && c'.got == c.got + [c.part + tx] && c'.replies == LaterReplies(c) && Ready(c', end.block)
      && |Frames(r, script)| == Turns(c.waits, ChainedBlocks(|tx|, inf) + |NextReply(c)|)
  {
    hide Step, Finish, Frames, Obeys, CardAfter, Unused;
    var r, g := Start(block, inf, stack, tx, room), GoalOf(c, tx, room);
    StartsInStep(c, block, inf, stack, tx, room);
    Delivery(c, r, g, script);
  }

  /** And there is such an exchange, for every request and every plan of the card. */
  lemma ExchangeHappens(c: Picc, block: Counter, inf: nat, stack: seq<Byte>, tx: seq<Byte>, room: nat)
    requires |stack| == MAX_FRAME_SIZE && Sendable(tx, inf)
    requires Listening(c, block) && PiecesFit(NextReply(c))
    ensures exists script :: Obeys(c, Start(block, inf, stack, tx, room), script)
  {
    StartsInStep(c, block, inf, stack, tx, room);
    var script := Converse(c, Start(block, inf, stack, tx, room), GoalOf(c, tx, room));
  }

  // ----- Blocks without room for data ---------------------------------------------------

  /** The reader chains blocks that carry no data; whatever the two say to each other, nothing
      gets done. In or out of step, the card owes an acknowledgement or repeats it. */
  predicate Idles(c: Picc, r: Reader) {
    && r.Valid() && r.InChain() && r.inf == 0
    && (|| (r.phase.Chaining? && c.due.Nothing? && Out(r) == [IHeader(true, Number(r.block))])
        || (r.phase.ChainWtx? && c.due.After? && c.due.block == [AckHeader(c.number)]
            && Out(r) == [WTX, Granted(c.due.power)])
        || (r.phase.Chaining? && c.due.Nothing? && c.number != Number(r.block)
            && c.last == [AckHeader(c.number)] == Out(r)))
  }

  lemma AckIdles(c: Picc, r: Reader)
    requires r.Valid() && r.InChain() && r.inf == 0
    ensures var t := Say(c, [AckHeader(c.number)]);
      Idles(t.card, Step(r, AnswerOf(t)))
  {
    hide Step;
    if c.waits != [] && c.waits[0] != [] {
      ReaderGrants(r, c.waits[0][0]);
    } else if c.number == Number(r.block) {
      AckAccepted(r, c.number);
    } else {
      AckRefused(r, c.number);
    }
  }

  /** An acknowledgement under the wrong number goes back as it came, with what else a block of
      that length has in the buffer. */
  lemma AckRefused(r: Reader, number: bool)
    requires r.Valid() && r.InChain() && number != Number(r.block)
    ensures var s := Step(r, Frame(WithCrc([AckHeader(number)])));
      && s == r.(phase := Chaining, buf := s.buf)
      && |Out(s)| == r.inf + 1 && Out(s)[0] == AckHeader(number)
  {
    var a := Frame(WithCrc([AckHeader(number)]));
    assert Heard(a, 3)[0] == AckHeader(number);
    AckHeaderCoding(number);
    AckIsNoIBlock(AckHeader(number));
    assert Listen(r, a).buf[0] == AckHeader(number);
  }

  lemma StillIdle(c: Picc, r: Reader)
    requires Idles(c, r)
    ensures var t := HearFrame(c, WithCrc(Out(r)));
      Idles(t.card, Step(r, AnswerOf(t)))
  {
    hide Step;
    HearIntactFrame(c, Out(r));
    IHeaderCoding(true, Number(r.block));
    AckHeaderCoding(c.number);
    if c.due.After? {
      AckIdles(c, r);
    } else if Out(r) == [IHeader(true, Number(r.block))] {
      AckIdles(c.(number := !c.number, part := c.part + Out(r)[1..]), r);
    } else {
      AckRefused(r, c.number);
    }
  }

  lemma {:induction false} NeverDone(c: Picc, r: Reader, script: seq<Answer>)
    requires Idles(c, r)
    ensures !Obeys(c, r, script)
    decreases |script|
  {
    if Obeys(c, r, script) {
      StillIdle(c, r);
      NeverDone(HearFrame(c, WithCrc(Out(r))).card, Step(r, script[0]), script[1..]);
    }
  }

  lemma IdleFromStart(c: Picc, block: Counter, stack: seq<Byte>, tx: seq<Byte>, room: nat)
    requires |stack| == MAX_FRAME_SIZE && c.due.Nothing? && tx != []
    ensures Idles(c, Start(block, 0, stack, tx, room))
  {
    Prepared(Reader(Chaining, 0, block, stack, tx, [], room));
  }

  /** A new session: the reader resets its counter, the card its number. */
  lemma SessionStartsReady(waits: seq<seq<Byte>>, replies: seq<seq<seq<Byte>>>)
    ensures Ready(FreshCard(waits, replies), Counter(0))
  {
  }

  // ----- Sessions -----------------------------------------------------------------------

  /** One call of the caller: what the stack holds, the request, and the room for the reply. */
  datatype Errand = Errand(stack: seq<Byte>, tx: seq<Byte>, room: nat)

  /** Where a session leaves the two, and what each call returned to its caller. */
  datatype Session = Session(card: Picc, block: Counter, results: seq<seq<Byte>>)

  predicate CallsValid(calls: seq<Errand>, inf: nat) {
    forall i :: 0 <= i < |calls| ==>
      |calls[i].stack| == MAX_FRAME_SIZE && Sendable(calls[i].tx, inf)
  }

  /** One call, and the card and the block counter it leaves. */
  datatype Served = Served(card: Picc, block: Counter, result: seq<Byte>)

  function Serve(c: Picc, block: Counter, inf: nat, call: Errand): (s: Served)
    requires |call.stack| == MAX_FRAME_SIZE && Sendable(call.tx, inf)
    requires Ready(c, block) && PiecesFit(NextReply(c))
    ensures Ready(s.card, s.block) && s.card.replies == LaterReplies(c)
    ensures s.card.got == c.got + [call.tx]
    ensures s.result == Take(Flatten(NextReply(c)), call.room)
  {
    var r, g := Start(block, inf, call.stack, call.tx, call.room), GoalOf(c, call.tx, call.room);
    StartsInStep(c, block, inf, call.stack, call.tx, call.room);
    var script := Converse(c, r, g);
    Delivery(c, r, g, script);
    assert [] + call.tx == call.tx;
    var end := Finish(r, script);
    Served(CardAfter(c, r, script), end.block, end.rx)
  }

  /** The calls of a session one after the other, with one card. */
  function Talk(c: Picc, block: Counter, inf: nat, calls: seq<Errand>): (s: Session)
    requires CallsValid(calls, inf)
    requires Ready(c, block) && RepliesFit(c.replies)
    ensures Ready(s.card, s.block)
    decreases |calls|
  {
    if calls == [] then Session(c, block, [])
    else
      var served := Serve(c, block, inf, calls[0]);
      var s := Talk(served.card, served.block, inf, calls[1..]);
      Session(s.card, s.block, [served.result] + s.results)
  }

  function Requests(calls: seq<Errand>): seq<seq<Byte>> {
    seq(|calls|, i requires 0 <= i < |calls| => calls[i].tx)
  }

  /** The reply planned for the `i`-th request. */
  function PlannedReply(c: Picc, i: nat): seq<seq<Byte>> {
    NextReply(c.(replies := if i <= |c.replies| then c.replies[i..] else []))
  }

  /** Every call was answered with the card's reply to it, cut at the caller's room, and the
      card assembled exactly the requests, each once and in order. */
  predicate Delivered(c: Picc, calls: seq<Errand>, s: Session) {
    && |s.results| == |calls|
    && (forall i :: 0 <= i < |calls| ==>
          s.results[i] == Take(Flatten(PlannedReply(c, i)), calls[i].room))
    && s.card.got == c.got + Requests(calls)
  }

  lemma PlanStarts(c: Picc)
    ensures PlannedReply(c, 0) == NextReply(c)
  {
    assert c.replies[0..] == c.replies;
  }

  lemma PlanAdvances(c: Picc, c': Picc, i: nat)
    requires c'.replies == LaterReplies(c) && i > 0
    ensures PlannedReply(c, i) == PlannedReply(c', i - 1)
  {
    if 0 < |c.replies| && i <= |c.replies| {
      assert c.replies[1..][i - 1..] == c.replies[i..];
    }
  }

  lemma OneMore(c: Picc, served: Served, calls: seq<Errand>, s: Session)
    requires calls != [] && served.card.replies == LaterReplies(c)
    requires served.card.got == c.got + [calls[0].tx]
    requires served.result == Take(Flatten(NextReply(c)), calls[0].room)
    requires Delivered(served.card, calls[1..], s)
    ensures Delivered(c, calls, Session(s.card, s.block, [served.result] + s.results))
  {
    hide PlannedReply, NextReply, LaterReplies, Flatten, Take;
    var results := [served.result] + s.results;
    assert Requests(calls) == [calls[0].tx] + Requests(calls[1..]);
    forall i | 0 <= i < |calls|
      ensures results[i] == Take(Flatten(PlannedReply(c, i)), calls[i].room)
    {
      if i == 0 {
        PlanStarts(c);
      } else {
        PlanAdvances(c, served.card, i);
        assert results[i] == s.results[i - 1] && calls[i] == calls[1..][i - 1];
      }
    }
  }

  lemma {:induction false} SessionDelivers(c: Picc, block: Counter, inf: nat, calls: seq<Errand>)
    requires CallsValid(calls, inf)
    requires Ready(c, block) && RepliesFit(c.replies)
    ensures Delivered(c, calls, Talk(c, block, inf, calls))
    decreases |calls|
  {
    if calls == [] {
    } else {
      var served := Serve(c, block, inf, calls[0]);
      SessionDelivers(served.card, served.block, inf, calls[1..]);
      OneMore(c, served, calls, Talk(served.card, served.block, inf, calls[1..]));
    }
  }

  /** So in a session from `Open` on: the reader has reset its counter, the card its number. */
  lemma FreshSessionDelivers(waits: seq<seq<Byte>>, replies: seq<seq<seq<Byte>>>, inf: nat,
                             calls: seq<Errand>)
    requires CallsValid(calls, inf) && RepliesFit(replies)
    ensures var c := FreshCard(waits, replies);
      && Ready(c, Counter(0))
      && Delivered(c, calls, Talk(c, Counter(0), inf, calls))
      && Talk(c, Counter(0), inf, calls).card.got == Requests(calls)
  {
    hide Talk;
    SessionStartsReady(waits, replies);
    SessionDelivers(FreshCard(waits, replies), Counter(0), inf, calls);
    assert [] + Requests(calls) == Requests(calls);
  }
}

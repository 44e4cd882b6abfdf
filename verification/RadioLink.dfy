/**
 * The block protocol over the transceiver: the transceiver driver is a device as `Link` has it,
 * and an exchange whose answers all come in is one on a link that loses nothing. So what is
 * proved of reader and card holds of the two with this transceiver between them.
 */
module RadioLink {
  import opened Bytes
  import opened Blocks
  import opened CrcA
  import opened Link
  import opened TclReader
  import opened TclCard
  import opened Delivery
  import opened OutOfStep
  import opened TrfChip
  import opened TrfSend
  import TrfReceive
  import TrfSchedule
  import opened FrameBudget

  /** The result of a call of the transceiver driver, and what is in the buffer, as the answer of
      a device. */
  function AnswerFrom(result: TrfReceive.Result, got: seq<Byte>): Answer {
    match result
    case Return(value) => if value < 0 then Failure(value, got) else Frame(got)
    case BeyondList => SILENCE
  }

  /** What the reader hears when it sends its block with this chip. */
  function AirAnswer(r: Reader, c: Chip): Answer
    requires r.Valid() && !r.phase.Done?
  {
    var (result, v) := TrfReceive.Transceived(FrameList(Out(r)), c, Capacity(r));
    AnswerFrom(result, v.got)
  }

  /** The call has returned a count, and all that the chip was to receive had come in when the
      status was read that ended it. */
  predicate Completes(r: Reader, c: Chip)
    requires r.Valid() && !r.phase.Done?
  {
    var (result, v) := TrfReceive.Transceived(FrameList(Out(r)), c, Capacity(r));
    result.Return? && result.value >= 0 && TrfReceive.AllIn(FrameList(Out(r)), c, Capacity(r))
  }

  /** The driver keeps the device's contract for every frame of the block protocol, every state
      and schedule of the chip: its result and the buffer are those of one answer, which is the
      frame that was to come in when all of it has. */
  lemma DriverIsADevice(r: Reader, c: Chip)
    requires r.Valid() && !r.phase.Done? && r.inf + 3 <= FIFO_SIZE
    ensures var (result, v) := TrfReceive.Transceived(FrameList(Out(r)), c, Capacity(r));
      var a := AirAnswer(r, c);
      && result == TrfReceive.Return(Returned(a, Capacity(r)))
      && v.got == Heard(a, Capacity(r)) && v.got <= c.incoming
      && (result.value >= 0 ==> v.chip.air == WithCrc(Out(r)))
      && (Completes(r, c) ==>
            && result == TrfReceive.Return(Returned(Frame(c.incoming), Capacity(r)))
            && v.got == Heard(Frame(c.incoming), Capacity(r)))
  {
    hide TrfReceive.Transceived, TrfReceive.AllIn, WithCrc, Out, Capacity, FrameList;
    FrameGoesOut(r, c, Capacity(r));
  }

  // ----- Whole exchanges ----------------------------------------------------------------

  /** What a card sends, as it comes over the air. */
  function Spoken(t: Turn): seq<Byte> {
    if t.Speak? then WithCrc(t.block) else []
  }

  /** The reader talks to the card over these chips, one for every block it sends: each is to
      receive what the card says, and does. */
  predicate OverAir(c: Picc, r: Reader, chips: seq<Chip>)
    requires r.Valid() && r.inf + 3 <= FIFO_SIZE
    decreases |chips|
  {
    r.phase.Done? ||
    (chips != [] &&
     var t := HearFrame(c, WithCrc(Out(r)));
     InfKept(r, AirAnswer(r, chips[0]));
     && chips[0].incoming == Spoken(t) && (t.Speak? ==> Completes(r, chips[0]))
     && OverAir(t.card, Step(r, AirAnswer(r, chips[0])), chips[1..]))
  }

  function CardOverAir(c: Picc, r: Reader, chips: seq<Chip>): Picc
    requires r.Valid()
    decreases |chips|
  {
    if r.phase.Done? || chips == [] then c
    else
      CardOverAir(HearFrame(c, WithCrc(Out(r))).card, Step(r, AirAnswer(r, chips[0])), chips[1..])
  }

  /** What the reader hears over these chips. */
  function AirAnswers(r: Reader, chips: seq<Chip>): seq<Answer>
    requires r.Valid()
    decreases |chips|
  {
    if r.phase.Done? || chips == [] then []
    else
      var a := AirAnswer(r, chips[0]);
      [a] + AirAnswers(Step(r, a), chips[1..])
  }

  /** The reader sees of an answer what fits its buffer, and that a failure is one. */
  lemma SameToReader(r: Reader, a: Answer, b: Answer)
    requires r.Valid() && !r.phase.Done? && Heard(a, Capacity(r)) == Heard(b, Capacity(r))
    requires Returned(a, Capacity(r)) == Returned(b, Capacity(r))
             || (Returned(a, Capacity(r)) < 3 && Returned(b, Capacity(r)) < 3)
    ensures Step(r, a) == Step(r, b)
  {
  }

  lemma AirStep(c: Picc, r: Reader, chip: Chip)
    requires r.Valid() && !r.phase.Done? && r.inf + 3 <= FIFO_SIZE
    requires var t := HearFrame(c, WithCrc(Out(r)));
      chip.incoming == Spoken(t) && (t.Speak? ==> Completes(r, chip))
    ensures Step(r, AirAnswer(r, chip)) == Step(r, AnswerOf(HearFrame(c, WithCrc(Out(r)))))
  {
    hide Step, WithCrc, HearFrame, Out, Completes, AirAnswer;
    DriverIsADevice(r, chip);
    SameToReader(r, AirAnswer(r, chip), AnswerOf(HearFrame(c, WithCrc(Out(r)))));
  }

  /** An exchange over the air ends as one on a link that loses nothing. */
  lemma {:induction false} AirIsLossless(c: Picc, r: Reader, chips: seq<Chip>) returns (script: seq<Answer>)
    requires r.Valid() && r.inf + 3 <= FIFO_SIZE && OverAir(c, r, chips)
    ensures Obeys(c, r, script) && Finish(r, AirAnswers(r, chips)) == Finish(r, script)
    ensures CardOverAir(c, r, chips) == CardAfter(c, r, script)
    decreases |chips|
  {
    hide Step, AirAnswer;
    script := [];
    if r.phase.Done? {
    } else {
      var t, a := HearFrame(c, WithCrc(Out(r))), AirAnswer(r, chips[0]);
      AirStep(c, r, chips[0]);
      InfKept(r, a);
      script := AirIsLossless(t.card, Step(r, a), chips[1..]);
      OneTurnMore(c, r, script);
      var rest := AirAnswers(Step(r, a), chips[1..]);
      assert ([a] + rest)[1..] == rest && ([AnswerOf(t)] + script)[1..] == script;
      script := [AnswerOf(t)] + script;
    }
  }

  /** Every exchange on a link that loses nothing can be had over the air. */
  lemma {:induction false} AirCarries(c: Picc, r: Reader, script: seq<Answer>) returns (chips: seq<Chip>)
    requires r.Valid() && r.inf + 3 <= FIFO_SIZE && Obeys(c, r, script)
    ensures OverAir(c, r, chips)
    decreases |script|
  {
    hide Step, AirAnswer, Completes;
    chips := [];
    if r.phase.Done? {
    } else {
      var t := HearFrame(c, WithCrc(Out(r)));
      var chip := SomeChip(r, Spoken(t));
      AirStep(c, r, chip);
      InfKept(r, AnswerOf(t));
      chips := AirCarries(t.card, Step(r, AnswerOf(t)), script[1..]);
      assert ([chip] + chips)[1..] == chips;
      chips := [chip] + chips;
    }
  }

  lemma SomeChip(r: Reader, incoming: seq<Byte>) returns (chip: Chip)
    requires r.Valid() && !r.phase.Done? && r.inf + 3 <= FIFO_SIZE
    ensures chip.incoming == incoming && Completes(r, chip)
  {
    hide TrfReceive.Transceived, TrfReceive.AllIn, WithCrc, Payload, TotalBits, StopsInside;
    var tx, c := FrameList(Out(r)), Chip([], [], 0, false, incoming, []);
    FrameListBytes(Out(r));
    SingleFillStopsInside(tx, FIFO_SIZE);
    TrfSchedule.CallSucceeds(tx, c, Capacity(r));
    var moves :|
      var (result, v) := TrfReceive.Transceived(tx, c.(moves := moves), Capacity(r));
      && result == TrfReceive.Return(|v.got|) && v.got == Take(c.incoming, Capacity(r))
      && v.chip.air == Payload(tx) && TrfReceive.AllIn(tx, c.(moves := moves), Capacity(r));
    chip := c.(moves := moves);
  }

  // ----- Calls --------------------------------------------------------------------------

  /** A call with this transceiver and a conforming card in any state does what it is for exactly
      when it would on a link that loses nothing. */
  lemma AirDeliversIff(c: Picc, block: Counter, inf: nat, stack: seq<Byte>, tx: seq<Byte>, room: nat,
                       chips: seq<Chip>)
    requires |stack| == MAX_FRAME_SIZE && Sendable(tx, inf) && inf + 3 <= FIFO_SIZE
    requires PiecesFit(NextReply(c))
    ensures var r := Start(block, inf, stack, tx, room);
      OverAir(c, r, chips) ==>
        (Fulfilled(c, CardOverAir(c, r, chips), Finish(r, AirAnswers(r, chips)), tx, room)
         <==> c.part == [] && c.due.Nothing?
              && (c.number != Number(block) || (|tx| <= inf && |NextReply(c)| >= 2)))
  {
    hide Step, Start, Finish, Obeys, OverAir, CardAfter, CardOverAir, AirAnswers, Fulfilled;
    var r := Start(block, inf, stack, tx, room);
    if OverAir(c, r, chips) {
      var script := AirIsLossless(c, r, chips);
      CallDeliversIff(c, block, inf, stack, tx, room, script);
    }
  }

  /** And there is a schedule for every such call. */
  lemma AirCallHappens(c: Picc, block: Counter, inf: nat, stack: seq<Byte>, tx: seq<Byte>, room: nat)
    requires |stack| == MAX_FRAME_SIZE && Sendable(tx, inf) && inf + 3 <= FIFO_SIZE
    requires PiecesFit(NextReply(c))
    ensures exists chips :: OverAir(c, Start(block, inf, stack, tx, room), chips)
  {
    hide Step, Start, Finish, Obeys, OverAir;
    CallEndsIff(c, block, inf, stack, tx, room);
    var r := Start(block, inf, stack, tx, room);
    var script :| Obeys(c, r, script);
    var chips := AirCarries(c, r, script);
  }
}

/** The layers together: the frames of the block protocol never outgrow what reader, card and
    transceiver have room for, and so never meet the transceiver driver's weak spots. */
module FrameBudget {
  import opened Bytes
  import opened Blocks
  import opened CrcA
  import opened Link
  import opened TclReader
  import Activation
  import opened TrfChip
  import opened TrfSend
  import opened TrfReceive

  /** The gather list of nfc_iso14443a_transceive: the block, then its checksum. */
  function FrameList(block: seq<Byte>): (tx: seq<Iovec>)
    ensures |tx| == 2 && ValidList(tx) && WholeBytes(tx)
  {
    var crc := Crc(block);
    [Iovec(block, 8 * |block|), Iovec([Low(crc), High(crc)], 16)]
  }

  lemma FrameListBytes(block: seq<Byte>)
    ensures Payload(FrameList(block)) == WithCrc(block)
    ensures TotalBits(FrameList(block)) == 8 * |block| + 16
  {
    var tx := FrameList(block);
    assert tx[1..] == [tx[1]] && tx[1..][1..] == [];
    assert Payload(tx[1..]) == tx[1].data + [] && TotalBits(tx[1..]) == 16;
  }

  /** A list that goes out with the first fill does not stop on a boundary. */
  lemma {:induction false} SingleFillStopsInside(tx: seq<Iovec>, room: nat)
    requires tx != [] && ValidList(tx) && TotalBits(tx) > 0 && |Payload(tx)| <= room && room > 0
    requires tx[|tx| - 1].bits > 0
    ensures StopsInside(tx, room)
  {
    if |tx| == 1 {
    } else {
      assert tx[1..][|tx| - 2] == tx[|tx| - 1];
      LastBits(tx[1..]);
      PayloadSize(tx[1..]);
      SingleFillStopsInside(tx[1..], room - |tx[0].data|);
    }
  }

  // ----- What the reader sends ----------------------------------------------------------

  lemma InfKept(r: Reader, a: Answer)
    requires r.Valid() && !r.phase.Done?
    ensures Step(r, a).inf == r.inf
  {
  }

  /** Every frame of an exchange, checksum included, is within the reader's INF size plus three;
      with an INF size of 0 an S(WTX) response would take one byte more. */
  lemma {:induction false} FramesWithinBudget(r: Reader, script: seq<Answer>, i: nat)
    requires r.Valid() && r.inf > 0 && i < |Frames(r, script)|
    ensures Frames(r, script)[i].Full? && |Frames(r, script)[i].frame| <= r.inf + 3
    decreases |script|
  {
    hide Step, WithCrc;
    if i == 0 {
    } else {
      InfKept(r, script[0]);
      FramesWithinBudget(Step(r, script[0]), script[1..], i - 1);
    }
  }

  /** No request, no card and no answers make the reader send a frame above its own limit, the
      card's limit, or the largest frame of the standard. */
  ghost predicate BudgetKept(fsd: nat, fsc: nat) {
    forall block, stack, tx, room, script, i: nat ::
      |stack| == MAX_FRAME_SIZE && i < |Frames(Start(block, InfSize(fsd, fsc), stack, tx, room), script)| ==>
        var f := Frames(Start(block, InfSize(fsd, fsc), stack, tx, room), script)[i];
        f.Full? && |f.frame| <= fsd && |f.frame| <= fsc && |f.frame| <= MAX_FRAME_SIZE
  }

  /** That is so exactly when both sizes are above 3. */
  lemma BudgetKeptIff(fsd: nat, fsc: nat)
    ensures BudgetKept(fsd, fsc) <==> fsd > 3 && fsc > 3
  {
    hide Frames, Start;
    if fsd > 3 && fsc > 3 {
      forall block, stack, tx, room, script, i: nat |
        |stack| == MAX_FRAME_SIZE && i < |Frames(Start(block, InfSize(fsd, fsc), stack, tx, room), script)|
        ensures var f := Frames(Start(block, InfSize(fsd, fsc), stack, tx, room), script)[i];
          f.Full? && |f.frame| <= fsd && |f.frame| <= fsc && |f.frame| <= MAX_FRAME_SIZE
      {
        FramesWithinBudget(Start(block, InfSize(fsd, fsc), stack, tx, room), script, i);
      }
    } else {
      GrantTooLong(InfSize(fsd, fsc));
    }
  }

  const ZEROES: seq<Byte> := seq(MAX_FRAME_SIZE, _ => 0)

  const ASKS_FOR_TIME := Frame(WithCrc([WTX, 0]))

  /** The response to an S(WTX) request takes four bytes under any limit. */
  lemma GrantTooLong(inf: nat)
    ensures var frames := Frames(Start(Counter(0), inf, ZEROES, [], 0), [ASKS_FOR_TIME]);
      |frames| == 2 && frames[1].Full? && |frames[1].frame| == 4
  {
    var r := Start(Counter(0), inf, ZEROES, [], 0);
    Prepared(Reader(Chaining, inf, Counter(0), ZEROES, [], [], 0));
    WtxCoding();
    assert Heard(ASKS_FOR_TIME, MAX_FRAME_SIZE)[0] == WTX;
    WtxStep(r, ASKS_FOR_TIME);
  }

  /** What becomes of a request then. Below 3 the INF size wraps, nothing is ever chained, and a
      block is as long as the request, or runs over the buffer; at 3 it is zero, and a request
      that is not empty is chained in empty blocks. */
  lemma SmallSizes(block: Counter, fsd: nat, fsc: nat, stack: seq<Byte>, tx: seq<Byte>, room: nat)
    requires |stack| == MAX_FRAME_SIZE && |tx| < SIZE_T - 3
    ensures FrameLimit(fsd, fsc) < 3 ==> InfSize(fsd, fsc) == 0xFFFFFFFD + FrameLimit(fsd, fsc)
    ensures var r := Start(block, InfSize(fsd, fsc), stack, tx, room);
      && (FrameLimit(fsd, fsc) < 3 ==>
            if |tx| < MAX_FRAME_SIZE
            then r.phase.Replying? && Out(r) == [IHeader(false, Number(block))] + tx
            else r.phase == Done(Overrun))
      && (FrameLimit(fsd, fsc) == 3 && tx != [] ==>
            r.phase.Chaining? && r.tx == tx && Out(r) == [IHeader(true, Number(block))])
  {
    Prepared(Reader(Chaining, InfSize(fsd, fsc), block, stack, tx, [], room));
  }

  function Smallest(a: nat, b: nat, c: nat): (n: nat)
    ensures n <= a && n <= b && n <= c && (n == a || n == b || n == c)
  {
    if a <= b && a <= c then a else if b <= c then b else c
  }

  /** A header of a chained I-block. */
  predicate ChainedHeader(b: Byte) { b == 0x12 || b == 0x13 }

  /** A chained I-block goes out of the chaining loop only, and has full size. */
  predicate FullIfChained(r: Reader)
    requires r.Valid()
  {
    r.phase.Done? || (ChainedHeader(Out(r)[0]) ==> r.phase.Chaining?)
  }

  lemma StepFullIfChained(r: Reader, a: Answer)
    requires r.Valid() && !r.phase.Done?
    ensures FullIfChained(Step(r, a)) && Step(r, a).inf == r.inf
  {
    StandardCodes(Number(Increment(r.block)));
    StandardCodes(Number(r.block));
    if 3 <= Returned(a, Capacity(r)) {
      NoWtxIsChained(Listen(r, a).buf[0]);
    }
  }

  lemma NoWtxIsChained(b: Byte)
    ensures IsWtx(b) ==> !ChainedHeader(b)
  {
  }

  lemma {:induction false} ChainedFramesAreFull(r: Reader, script: seq<Answer>, i: nat)
    requires r.Valid() && FullIfChained(r) && i < |Frames(r, script)|
    ensures var f := Frames(r, script)[i];
      f.Full? && |f.frame| > 0 && (ChainedHeader(f.frame[0]) ==> |f.frame| == r.inf + 3)
    decreases |script|
  {
    hide Step, Crc;
    if i == 0 {
      assert Frames(r, script)[0] == Full(WithCrc(Out(r)));
    } else {
      StepFullIfChained(r, script[0]);
      ChainedFramesAreFull(Step(r, script[0]), script[1..], i - 1);
    }
  }

  /** The frames of a call make the most of the smallest of the reader's, the card's and the
      standard's size: a request that fits goes out as one block; of one that does not, every
      chained block, with its checksum, has exactly that size. */
  lemma FramesAreFull(block: Counter, fsd: nat, fsc: nat, stack: seq<Byte>, tx: seq<Byte>, room: nat,
                      script: seq<Answer>)
    requires |stack| == 256
    ensures var frames := Frames(Start(block, InfSize(fsd, fsc), stack, tx, room), script);
      var limit := Smallest(fsd, fsc, 256);
      && (|tx| + 3 <= limit ==>
            |frames| > 0 && frames[0] == Full(WithCrc([IHeader(false, Number(block))] + tx)))
      && (|tx| + 3 > limit > 3 ==>
            && |frames| > 0
            && frames[0] == Full(WithCrc([IHeader(true, Number(block))] + tx[..limit - 3]))
            && forall i :: 0 <= i < |frames| ==>
                 && frames[i].Full? && |frames[i].frame| > 0
                 && (ChainedHeader(frames[i].frame[0]) ==> |frames[i].frame| == limit))
  {
    hide Frames, Step, WithCrc;
    var inf := InfSize(fsd, fsc);
    var r, frames := Start(block, inf, stack, tx, room), Frames(Start(block, inf, stack, tx, room), script);
    var limit := Smallest(fsd, fsc, 256);
    Prepared(Reader(Chaining, inf, block, stack, tx, [], room));
    StandardCodes(Number(block));
    assert limit >= 3 ==> inf == limit - 3;
    if limit >= 3 && (|tx| + 3 <= limit || limit > 3) {
      FirstFrame(r, script);
    }
    if |tx| + 3 > limit > 3 {
      forall i | 0 <= i < |frames|
        ensures frames[i].Full? && |frames[i].frame| > 0
        ensures ChainedHeader(frames[i].frame[0]) ==> |frames[i].frame| == limit
      {
        ChainedFramesAreFull(r, script, i);
      }
    }
  }

  lemma FirstFrame(r: Reader, script: seq<Answer>)
    requires r.Valid() && !r.phase.Done?
    ensures |Frames(r, script)| > 0 && Frames(r, script)[0] == Full(WithCrc(Out(r)))
  {
  }

  /** With this transceiver every frame goes out with the first fill: no schedule of the chip can
      lose a byte of it or take the driver beyond its list, and what comes back is a prefix of
      the answer. */
  lemma FrameGoesOut(r: Reader, c: Chip, capacity: nat)
    requires r.Valid() && !r.phase.Done? && r.inf + 3 <= FIFO_SIZE
    ensures var tx := FrameList(Out(r));
      && SingleFill(tx)
      && var (result, v) := Transceived(tx, c, capacity);
         && result.Return? && |v.got| <= capacity && v.got <= c.incoming
         && (result.value >= 0 ==>
               && v.chip.air == WithCrc(Out(r)) && result.value == |v.got|
               && (AllIn(tx, c, capacity) ==> v.got == Take(c.incoming, capacity)))
  {
    hide Transceived, AllIn, Begin, SendLoop, ReceiveLoop, WithCrc, Payload, TotalBits, StopsInside;
    var tx := FrameList(Out(r));
    FrameListBytes(Out(r));
    assert |WithCrc(Out(r))| <= FIFO_SIZE;
    SingleFillStopsInside(tx, FIFO_SIZE);
    TransceiveDelivers(tx, c, capacity);
    NeverBeyondList(tx, c, capacity);
  }

  lemma NeverBeyondList(tx: seq<Iovec>, c: Chip, capacity: nat)
    requires tx != [] && ValidList(tx) && TotalBits(tx) > 0 && SingleFill(tx)
    ensures Transceived(tx, c, capacity).0.Return?
  {
    hide Begin, SendLoop, ReceiveLoop;
    var d := Pause(c);
    ListRespectedIffSingleFill(tx, false, d);
    assert d.(moves := d.moves) == d;
    assert !SendLoop(Begin(tx, false, d.(moves := d.moves))).phase.PastList?;
  }

  // ----- What the card may send ---------------------------------------------------------

  /** The parameter byte is the code in the high half and card number 0 in the low one. */
  lemma RatsByteDecoded(fsdi: nat)
    requires fsdi <= 8
    ensures ValueOf(Activation.RatsByte(fsdi)) == 16 * fsdi
  {
    assert fsdi in {0, 1, 2, 3, 4, 5, 6, 7, 8};
    Activation.Nibbles(Activation.RatsByte(fsdi));
  }

  /** A card that keeps to the size announced in RATS, the code in the high half of its second
      byte, never overfills the reader's buffer, nor, with this transceiver, the FIFO: exactly
      when the device's size is one the standard knows or larger. */
  lemma AnnouncementKeepsAnswersSmall(fsd: nat)
    ensures SizeOfCode(ValueOf(Activation.RatsByte(CodeOf(fsd))) / 16) <= fsd <==> 16 <= fsd
    ensures SizeOfCode(ValueOf(Activation.RatsByte(CodeOf(FIFO_SIZE))) / 16) <= FIFO_SIZE
    ensures SizeOfCode(CodeOf(fsd)) <= MAX_FRAME_SIZE
  {
    RatsByteDecoded(CodeOf(fsd));
    RatsByteDecoded(CodeOf(FIFO_SIZE));
    AnnouncedSizeFits(fsd);
    AnnouncedSizeFits(FIFO_SIZE);
  }
}

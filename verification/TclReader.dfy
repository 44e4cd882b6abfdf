/**
 * The reader's half of the block protocol as a machine that sends one block, waits for one
 * answer and moves on. `Iso14443` proves that the loops of nfc_iso14443_transceive
 * (libs/nfc/iso14443.c) run exactly this machine; here are its properties against any card.
 */
module TclReader {
  import opened Bytes
  import opened Blocks
  import opened CrcA
  import opened Link

  /** `Overrun` stands for a copy that would leave the 256-byte buffer. */
  datatype Outcome = Return(value: int) | Overrun

  /** Which call of the layer below the reader is waiting in. */
  datatype Phase =
    | Chaining               // a chained I-block is out
    | ChainWtx               // an S(WTX) response is out, in the chaining loop
    | Replying               // the last I-block or an R(ACK) is out
    | ReplyWtx               // an S(WTX) response is out, in the reply loop
    | Done(outcome: Outcome)

  /** `buf` is the one buffer for both directions; `tx` the request bytes not yet acknowledged;
      `rx` the bytes given to the caller; `room` what is left of the caller's buffer. */
  datatype Reader = Reader(phase: Phase, inf: nat, block: Counter, buf: seq<Byte>,
                           tx: seq<Byte>, rx: seq<Byte>, room: nat)
  {
    predicate Valid() {
      && |buf| == MAX_FRAME_SIZE
      && ((phase.Chaining? || phase.ChainWtx?) ==> inf < |tx| && inf < MAX_FRAME_SIZE)
      && ((phase.Replying? || phase.ReplyWtx?) ==> |tx| <= inf && |tx| < MAX_FRAME_SIZE)
    }

    predicate InChain() { phase.Chaining? || phase.ChainWtx? }
  }

  const SIZE_T: nat := 0x1_0000_0000

  /** The smallest of the reader's, the card's and the buffer's frame size. */
  function FrameLimit(fsd: nat, fsc: nat): nat {
    Least(fsd, Least(fsc, MAX_FRAME_SIZE))
  }

  /** Largest INF field. The difference is computed in `size_t`: for a frame size below 3, such as
      an `fsc` that was never set, it wraps. */
  function InfSize(fsd: nat, fsc: nat): nat {
    (FrameLimit(fsd, fsc) + SIZE_T - 3) % SIZE_T
  }

  /** Puts the next I-block into the buffer. */
  function Prepare(r: Reader): (r': Reader)
    requires |r.buf| == MAX_FRAME_SIZE
    ensures r'.Valid()
  {
    if Least(|r.tx|, r.inf) >= MAX_FRAME_SIZE then r.(phase := Done(Overrun))
    else if |r.tx| > r.inf then
      r.(phase := Chaining,
         buf := Overwrite(r.buf, 0, [IHeader(true, Number(r.block))] + r.tx[..r.inf]))
    else
      r.(phase := Replying,
         buf := Overwrite(r.buf, 0, [IHeader(false, Number(r.block))] + r.tx))
  }

  /** The reader when a request comes in; `stack` is what the buffer happens to hold. */
  function Start(block: Counter, inf: nat, stack: seq<Byte>, tx: seq<Byte>, room: nat): (r: Reader)
    requires |stack| == MAX_FRAME_SIZE
    ensures r.Valid() && r.inf == inf
  {
    Prepare(Reader(Chaining, inf, block, stack, tx, [], room))
  }

  /** The block on its way, without checksum. */
  function Out(r: Reader): (block: seq<Byte>)
    requires r.Valid() && !r.phase.Done?
    ensures |block| > 0
  {
    match r.phase
    case Chaining => r.buf[..r.inf + 1]
    case Replying => r.buf[..|r.tx| + 1]
    case _ => r.buf[..2]
  }

  /** How many bytes of the answer the reader has room for. */
  function Capacity(r: Reader): nat {
    if r.InChain() then 3 else MAX_FRAME_SIZE
  }

  function Fail(r: Reader): Reader {
    r.(phase := Done(Return(EIO)))
  }

  /** Answers an S(WTX) request: rule 3, with the power level bits cleared. */
  function GrantWtx(r: Reader, phase: Phase): (r': Reader)
    requires |r.buf| == MAX_FRAME_SIZE
    ensures |r'.buf| == MAX_FRAME_SIZE
  {
    r.(phase := phase, buf := r.buf[1 := Granted(r.buf[1])])
  }

  /** An answer in the chaining loop, already in the buffer. */
  function StepChain(r: Reader): (r': Reader)
    requires r.Valid() && r.InChain()
    ensures r'.Valid() && (r'.phase.Done? ==> r'.block == r.block)
  {
    var b := r.buf[0];
    if r.phase.Chaining? && IsIBlock(b) then Fail(r)
    else if IsWtx(b) then GrantWtx(r, ChainWtx)
    else if !IsAck(b) then Fail(r)
    else if Toggle(b) != Number(r.block) then r.(phase := Chaining)
    else Prepare(r.(tx := r.tx[r.inf..], block := Increment(r.block)))
  }

  /** How much of an I-block of `n` bytes is copied. The difference is computed in `size_t`: for
      a block shorter than header and checksum it wraps, and all the room counts. */
  function CopySize(n: nat, header: Byte, room: nat): nat {
    if n < HeaderSize(header) + 2 then room
    else if n - HeaderSize(header) - 2 < room then n - HeaderSize(header) - 2
    else room
  }

  /** An answer of `n` bytes in the reply loop, already in the buffer. */
  function StepReply(r: Reader, n: nat): (r': Reader)
    requires r.Valid() && (r.phase.Replying? || r.phase.ReplyWtx?) && n <= MAX_FRAME_SIZE
    ensures r'.Valid()
  {
    var b := r.buf[0];
    if IsWtx(b) then GrantWtx(r, ReplyWtx)
    else if !IsIBlock(b) then Fail(r)
    else
      var size := if Toggle(b) == Number(r.block) then CopySize(n, b, r.room) else 0;
      if HeaderSize(b) + size > MAX_FRAME_SIZE then r.(phase := Done(Overrun))
      else
        var data := r.buf[HeaderSize(b)..HeaderSize(b) + size];
        var s := r.(rx := r.rx + data, room := r.room - size, block := Increment(r.block));
        if !IsChained(b) then s.(phase := Done(Return(|s.rx|)))
        else s.(phase := Replying, tx := [], buf := s.buf[0 := AckHeader(Number(s.block))])
  }

  function Listen(r: Reader, a: Answer): (r': Reader)
    requires r.Valid()
    ensures r'.Valid()
  {
    r.(buf := Overwrite(r.buf, 0, Heard(a, Capacity(r))))
  }

  /** One answer of the layer below. */
  function Step(r: Reader, a: Answer): (r': Reader)
    requires r.Valid() && !r.phase.Done?
    ensures r'.Valid() && (r.InChain() && r'.phase.Done? ==> r'.block == r.block)
  {
    if Returned(a, Capacity(r)) < 3 then Fail(Listen(r, a))
    else if r.InChain() then StepChain(Listen(r, a))
    else StepReply(Listen(r, a), |Heard(a, Capacity(r))|)
  }

  // ----- The three answers that move the exchange on ------------------------------------

  lemma WtxStep(r: Reader, a: Answer)
    requires r.Valid() && !r.phase.Done? && 3 <= Returned(a, Capacity(r))
    requires IsWtx(Heard(a, Capacity(r))[0])
    ensures Step(r, a) == GrantWtx(Listen(r, a), if r.InChain() then ChainWtx else ReplyWtx)
  {
    WtxIsNoIBlock(Heard(a, Capacity(r))[0]);
    assert Listen(r, a).buf[0] == Heard(a, Capacity(r))[0];
  }

  lemma AckStep(r: Reader, a: Answer)
    requires r.Valid() && r.InChain() && 3 <= Returned(a, 3)
    requires IsAck(Heard(a, 3)[0]) && Toggle(Heard(a, 3)[0]) == Number(r.block)
    ensures Step(r, a) == Prepare(Listen(r, a).(tx := r.tx[r.inf..], block := Increment(r.block)))
  {
    AckIsNoIBlock(Heard(a, 3)[0]);
    assert Listen(r, a).buf[0] == Heard(a, 3)[0];
  }

  lemma AckIsNoIBlock(b: Byte)
    requires IsAck(b)
    ensures !IsIBlock(b) && !IsWtx(b)
  {
  }

  lemma WtxIsNoIBlock(b: Byte)
    requires IsWtx(b)
    ensures !IsIBlock(b)
  {
  }

  /** In the chaining loop the call fails exactly on an answer that is too short, or is neither
      an acknowledgement nor a request for more time. */
  lemma ChainFailsIff(r: Reader, a: Answer)
    requires r.Valid() && r.InChain()
    ensures Step(r, a).phase == Done(Return(-5))
      <==> Returned(a, 3) < 3 || (!IsAck(Heard(a, 3)[0]) && !IsWtx(Heard(a, 3)[0]))
    ensures Step(r, a).rx == r.rx
  {
    if 3 <= Returned(a, 3) {
      var b := Heard(a, 3)[0];
      assert Listen(r, a).buf[0] == b;
      if IsAck(b) {
        AckIsNoIBlock(b);
      } else if IsWtx(b) {
        WtxIsNoIBlock(b);
      }
    }
  }

  /** In the reply loop it fails exactly on one that is too short, or is neither an I-block nor a
      request for more time. */
  lemma ReplyFailsIff(r: Reader, a: Answer)
    requires r.Valid() && (r.phase.Replying? || r.phase.ReplyWtx?)
    ensures Step(r, a).phase == Done(Return(-5))
      <==> Returned(a, 256) < 3 || (!IsIBlock(Heard(a, 256)[0]) && !IsWtx(Heard(a, 256)[0]))
  {
    if 3 <= Returned(a, 256) {
      var b := Heard(a, 256)[0];
      assert Listen(r, a).buf[0] == b;
    }
  }

  // ----- Runs ---------------------------------------------------------------------------

  /** The reader at the end of its exchange, when the device gives these answers. */
  function Finish(r: Reader, script: seq<Answer>): (r': Reader)
    requires r.Valid()
    ensures r'.Valid() && r'.phase.Done?
    decreases |script|, if r.phase.Done? then 0 else 1
  {
    if r.phase.Done? then r
    else if script == [] then Fail(Listen(r, SILENCE))
    else Finish(Step(r, script[0]), script[1..])
  }

  /** The frames the reader sends on the way, and the answers it leaves unused. */
  function Frames(r: Reader, script: seq<Answer>): seq<Request>
    requires r.Valid()
    decreases |script|
  {
    if r.phase.Done? then []
    else
      var later := if script == [] then [] else Frames(Step(r, script[0]), script[1..]);
      [Full(WithCrc(Out(r)))] + later
  }

  function Unused(r: Reader, script: seq<Answer>): seq<Answer>
    requires r.Valid()
    decreases |script|
  {
    if r.phase.Done? || script == [] then script else Unused(Step(r, script[0]), script[1..])
  }

  // ----- Segmentation, against any card -------------------------------------------------

  /** The chaining loop: the INF fields of its acknowledged blocks, each as it was first sent
      in `first`, and the reader at the end of `script` or when it leaves the loop. */
  function Pieces(r: Reader, first: seq<Byte>, script: seq<Answer>): (p: (seq<seq<Byte>>, Reader))
    requires r.Valid() && |first| > 0
    ensures p.1.Valid()
    decreases |script|
  {
    if !r.InChain() || script == [] then ([], r)
    else
      var s := Step(r, script[0]);
      if s.block == r.block then Pieces(s, first, script[1..])
      else
        var p := Pieces(s, Out(s), script[1..]);
        ([first[1..]] + p.0, p.1)
  }

  /** `first` is the current chained block as it was first sent, and the last block is out as
      it should be. */
  predicate Shows(r: Reader, first: seq<Byte>)
    requires r.Valid()
  {
    && (r.InChain() ==> first == [IHeader(true, Number(r.block))] + r.tx[..r.inf])
    && (r.phase.Replying? ==> Out(r) == [IHeader(false, Number(r.block))] + r.tx)
  }

  /** Whatever the card answers: the acknowledged pieces and the bytes still to go make up the
      request, every piece has full size, and the last block carries all that is left. */
  lemma {:induction false} Segmentation(r: Reader, first: seq<Byte>, script: seq<Answer>)
    requires r.Valid() && |first| > 0 && Shows(r, first)
    ensures var (pieces, s) := Pieces(r, first, script);
      && Flatten(pieces) + s.tx == r.tx
      && (forall i :: 0 <= i < |pieces| ==> |pieces[i]| == r.inf)
      && (s.phase.Replying? ==>
            |s.tx| <= s.inf == r.inf && Out(s) == [IHeader(false, Number(s.block))] + s.tx)
    decreases |script|
  {
    hide Step, IHeader, Number;
    if !r.InChain() || script == [] {
    } else {
      var s := Step(r, script[0]);
      if s.block == r.block {
        SameBlock(r, first, script[0]);
        Segmentation(s, first, script[1..]);
      } else {
        NewBlock(r, script[0]);
        Segmentation(s, Out(s), script[1..]);
        var (pieces, t) := Pieces(s, Out(s), script[1..]);
        assert first[1..] == r.tx[..r.inf];
        OnePieceMore(r.tx, r.inf, pieces, t.tx);
      }
    }
  }

  lemma OnePieceMore(tx: seq<Byte>, inf: nat, pieces: seq<seq<Byte>>, rest: seq<Byte>)
    requires inf <= |tx| && Flatten(pieces) + rest == tx[inf..]
    ensures Flatten([tx[..inf]] + pieces) + rest == tx
  {
    assert ([tx[..inf]] + pieces)[1..] == pieces;
    assert tx == tx[..inf] + (Flatten(pieces) + rest);
  }

  lemma BlockMoves(block: Counter)
    ensures Increment(block) != block
  {
    NumberAlternates(block);
  }

  lemma SameBlock(r: Reader, first: seq<Byte>, a: Answer)
    requires r.Valid() && r.InChain() && Shows(r, first) && Step(r, a).block == r.block
    ensures var s := Step(r, a); s.tx == r.tx && s.inf == r.inf && !s.phase.Replying? && Shows(s, first)
  {
    BlockMoves(r.block);
  }

  /** What `Prepare` puts on its way. */
  lemma Prepared(r: Reader)
    requires |r.buf| == MAX_FRAME_SIZE
    ensures var s := Prepare(r);
      && s.tx == r.tx && s.inf == r.inf && s.block == r.block && s.rx == r.rx && s.room == r.room
      && (if Least(|r.tx|, r.inf) >= MAX_FRAME_SIZE then s.phase == Done(Overrun)
          else if |r.tx| > r.inf
          then s.phase.Chaining? && Out(s) == [IHeader(true, Number(r.block))] + r.tx[..r.inf]
          else s.phase.Replying? && Out(s) == [IHeader(false, Number(r.block))] + r.tx)
  {
  }

  lemma NewBlock(r: Reader, a: Answer)
    requires r.Valid() && r.InChain() && Step(r, a).block != r.block
    ensures var s := Step(r, a);
      && !s.phase.Done? && s.tx == r.tx[r.inf..] && s.inf == r.inf
      && Shows(s, Out(s))
  {
    var l := Listen(r, a);
    Prepared(l.(tx := r.tx[r.inf..], block := Increment(r.block)));
  }

  // ----- Reassembly, against any card ---------------------------------------------------

  /** The bytes between header and checksum; none when the block has no room for both. */
  function InfField(block: seq<Byte>): seq<Byte>
    requires |block| > 0
  {
    var h := HeaderSize(block[0]);
    if |block| < h + 2 then [] else block[h..|block| - 2]
  }

  /** The answer is an I-block of the reply and carries the number the reader expects. */
  predicate Accepts(r: Reader, a: Answer)
    requires r.Valid() && !r.phase.Done?
  {
    var heard := Heard(a, Capacity(r));
    && !r.InChain() && 3 <= Returned(a, Capacity(r))
    && IsIBlock(heard[0]) && !IsWtx(heard[0]) && Toggle(heard[0]) == Number(r.block)
  }

  /** The accepted block, if this is one, has room for its header and checksum. */
  predicate LongEnough(r: Reader, a: Answer)
    requires r.Valid() && !r.phase.Done?
  {
    Accepts(r, a) ==>
      var heard := Heard(a, Capacity(r));
      HeaderSize(heard[0]) + 2 <= |heard|
  }

  predicate AllLongEnough(r: Reader, script: seq<Answer>)
    requires r.Valid()
    decreases |script|
  {
    r.phase.Done? || script == [] ||
    (LongEnough(r, script[0]) && AllLongEnough(Step(r, script[0]), script[1..]))
  }

  /** The INF fields of the accepted I-blocks, in order. */
  function Infs(r: Reader, script: seq<Answer>): seq<seq<Byte>>
    requires r.Valid()
    decreases |script|
  {
    if r.phase.Done? || script == [] then []
    else
      var later := Infs(Step(r, script[0]), script[1..]);
      if Accepts(r, script[0]) then [InfField(Heard(script[0], Capacity(r)))] + later else later
  }

  predicate Sound(r: Reader) {
    r.phase.Done? ==> r.phase.outcome == Return(EIO) || r.phase.outcome == Return(|r.rx|)
  }

  /** The effect of an accepted block on the caller's buffer. */
  lemma AcceptStep(r: Reader, a: Answer)
    requires r.Valid() && !r.phase.Done? && Accepts(r, a)
    ensures var heard, s := Heard(a, MAX_FRAME_SIZE), Step(r, a);
      var h := HeaderSize(heard[0]);
      var size := CopySize(|heard|, heard[0], r.room);
      && (h + size <= MAX_FRAME_SIZE ==>
            && Sound(s) && s.rx == r.rx + Listen(r, a).buf[h..h + size]
            && s.room == r.room - size)
      && (h + size > MAX_FRAME_SIZE ==> s.phase == Done(Overrun) && s.rx == r.rx && s.room == r.room)
  {
    assert Listen(r, a).buf[0] == Heard(a, MAX_FRAME_SIZE)[0];
  }

  lemma HeardInFront(r: Reader, a: Answer)
    requires r.Valid() && !r.InChain()
    ensures Listen(r, a).buf[..|Heard(a, MAX_FRAME_SIZE)|] == Heard(a, MAX_FRAME_SIZE)
  {
  }

  lemma LongCopy(r: Reader, a: Answer)
    requires r.Valid() && !r.phase.Done? && Accepts(r, a) && LongEnough(r, a)
    ensures var s, inf := Step(r, a), InfField(Heard(a, Capacity(r)));
      && Sound(s) && s.rx == r.rx + Take(inf, r.room) && s.room == r.room - |Take(inf, r.room)|
  {
    AcceptStep(r, a);
    HeardInFront(r, a);
    CopiedSlice(Listen(r, a).buf, Heard(a, MAX_FRAME_SIZE), r.room);
  }

  /** After an accepted block the reader acknowledges it, or is done. */
  lemma AcceptMovesOn(r: Reader, a: Answer)
    requires r.Valid() && !r.phase.Done? && Accepts(r, a) && LongEnough(r, a)
    ensures var s, header := Step(r, a), Heard(a, MAX_FRAME_SIZE)[0];
      && s.block == Increment(r.block)
      && (IsChained(header) ==>
            s.phase.Replying? && s.tx == [] && Out(s) == [AckHeader(Number(s.block))])
      && (!IsChained(header) ==> s.phase == Done(Return(|s.rx|)))
  {
    assert Listen(r, a).buf[0] == Heard(a, MAX_FRAME_SIZE)[0];
  }

  lemma CopiedSlice(buf: seq<Byte>, heard: seq<Byte>, room: nat)
    requires 0 < |heard| <= |buf| == MAX_FRAME_SIZE && buf[..|heard|] == heard
    requires HeaderSize(heard[0]) + 2 <= |heard|
    ensures var h := HeaderSize(heard[0]);
      var size := CopySize(|heard|, heard[0], room);
      && h + size <= MAX_FRAME_SIZE && size == |Take(InfField(heard), room)|
      && buf[h..h + size] == Take(InfField(heard), room)
  {
    var h := HeaderSize(heard[0]);
    var size := CopySize(|heard|, heard[0], room);
    SliceOfFront(buf, |heard|, h, h + size);
    SliceOfSlice(heard, h, |heard| - 2, size);
  }

  /** One accepted block is copied as its INF field, cut at the room left, exactly when it is
      long enough or nothing can be copied anyway. */
  lemma CopyIsInf(r: Reader, a: Answer)
    requires r.Valid() && !r.phase.Done? && Accepts(r, a)
    ensures var s, inf := Step(r, a), InfField(Heard(a, Capacity(r)));
      (Sound(s) && s.rx == r.rx + Take(inf, r.room)) <==> (LongEnough(r, a) || r.room == 0)
  {
    AcceptStep(r, a);
    if LongEnough(r, a) {
      LongCopy(r, a);
    } else if Sound(Step(r, a)) {
      assert |Step(r, a).rx| == |r.rx| + r.room;
    }
  }

  lemma OthersCopyNothing(r: Reader, a: Answer)
    requires r.Valid() && !r.phase.Done? && !Accepts(r, a)
    ensures var s := Step(r, a); Sound(s) && s.rx == r.rx && s.room == r.room
  {
  }

  /** Whatever the card answers: the caller gets the INF fields of exactly the accepted blocks,
      cut at its room, and a successful return counts the bytes it got. */
  lemma {:induction false} Reassembly(r: Reader, script: seq<Answer>)
    requires r.Valid() && Sound(r) && AllLongEnough(r, script)
    ensures var e := Finish(r, script);
      && Sound(e)
      && e.rx == r.rx + Take(Flatten(Infs(r, script)), r.room)
    decreases |script|
  {
    hide Step;
    if r.phase.Done? || script == [] {
    } else {
      var a, s := script[0], Step(r, script[0]);
      var rest := Infs(s, script[1..]);
      if Accepts(r, a) {
        var inf := InfField(Heard(a, Capacity(r)));
        LongCopy(r, a);
        assert ([inf] + rest)[1..] == rest;
        TakeConcat(inf, Flatten(rest), r.room);
      } else {
        OthersCopyNothing(r, a);
      }
      Reassembly(s, script[1..]);
    }
  }

  /** The same from the call on: the request leaves in full pieces and a last one, none of it
      lost, doubled or out of order, for as long as the card acknowledges. */
  lemma RequestSegmented(block: Counter, inf: nat, stack: seq<Byte>, tx: seq<Byte>, room: nat,
                         script: seq<Answer>)
    requires |stack| == MAX_FRAME_SIZE
    ensures var r := Start(block, inf, stack, tx, room);
      if Least(|tx|, inf) >= MAX_FRAME_SIZE then r.phase == Done(Overrun)
      else
        var (pieces, s) := Pieces(r, Out(r), script);
        && Flatten(pieces) + s.tx == tx
        && (forall i :: 0 <= i < |pieces| ==> |pieces[i]| == inf)
        && (s.phase.Replying? ==>
              |s.tx| <= inf && Out(s) == [IHeader(false, Number(s.block))] + s.tx)
  {
    hide Step, IHeader;
    Prepared(Reader(Chaining, inf, block, stack, tx, [], room));
    var r := Start(block, inf, stack, tx, room);
    if Least(|tx|, inf) < MAX_FRAME_SIZE {
      Segmentation(r, Out(r), script);
    }
  }

  /** And the reply: the call returns how much it gave, which is what the accepted blocks
      carried, or fails. */
  lemma ReplyReassembled(block: Counter, inf: nat, stack: seq<Byte>, tx: seq<Byte>, room: nat,
                         script: seq<Answer>)
    requires |stack| == MAX_FRAME_SIZE
    requires AllLongEnough(Start(block, inf, stack, tx, room), script)
    ensures var r := Start(block, inf, stack, tx, room);
      var end := Finish(r, script);
      && (if Least(|tx|, inf) >= MAX_FRAME_SIZE then end.phase == Done(Overrun)
          else end.phase == Done(Return(EIO)) || end.phase == Done(Return(|end.rx|)))
      && end.rx == Take(Flatten(Infs(r, script)), room)
  {
    hide Step;
    Prepared(Reader(Chaining, inf, block, stack, tx, [], room));
    var r := Start(block, inf, stack, tx, room);
    if !r.phase.Done? {
      Reassembly(r, script);
    }
    assert [] + Take(Flatten(Infs(r, script)), room) == Take(Flatten(Infs(r, script)), room);
  }

  // ----- Where the code departs from the standard ---------------------------------------

  /** Rules 6 and 7 ask for the same block again. The answer has overwritten the buffer by then:
      what goes out is never the block as it was first sent, and not even an I-block. */
  lemma ResentBlockIsNotTheFirst(r: Reader, first: seq<Byte>, a: Answer)
    requires r.Valid() && r.InChain() && |first| > 0 && Shows(r, first)
    requires 3 <= Returned(a, 3)
    requires IsAck(Heard(a, 3)[0]) && Toggle(Heard(a, 3)[0]) != Number(r.block)
    ensures var s := Step(r, a);
      && s.phase.Chaining? && s == r.(phase := Chaining, buf := s.buf)
      && |Out(s)| == |first| && Out(s)[0] == Heard(a, 3)[0]
      && !IsIBlock(Out(s)[0]) && Out(s) != first
  {
    var heard := Heard(a, 3);
    AckIsNoIBlock(heard[0]);
    IHeaderCoding(true, Number(r.block));
    assert Listen(r, a).buf[0] == heard[0];
    assert Out(Step(r, a))[0] == heard[0];
  }

  /** Only its first three bytes are those of the answer. */
  lemma ResentBlock(r: Reader, a: Answer)
    requires r.Valid() && r.phase.Chaining? && r.inf >= 2
    requires 3 <= Returned(a, 3)
    requires IsAck(Heard(a, 3)[0]) && Toggle(Heard(a, 3)[0]) != Number(r.block)
    ensures Out(Step(r, a)) == Take(a.bytes, 3) + Out(r)[3..]
  {
    AckIsNoIBlock(Heard(a, 3)[0]);
    assert Listen(r, a).buf[0] == Heard(a, 3)[0];
  }

  /** It happens on the first acknowledgement of every chained request, if that comes under the
      wrong number. */
  lemma ResendHappens(block: Counter, inf: nat, stack: seq<Byte>, tx: seq<Byte>, room: nat)
    requires |stack| == MAX_FRAME_SIZE && inf < |tx| && inf < MAX_FRAME_SIZE
    ensures var r := Start(block, inf, stack, tx, room);
      var s := Step(r, Frame(WithCrc([AckHeader(!Number(block))])));
      r.phase.Chaining? && s.phase.Chaining? && Out(s) != Out(r)
  {
    hide Step;
    var r := Start(block, inf, stack, tx, room);
    Prepared(Reader(Chaining, inf, block, stack, tx, [], room));
    AckHeaderCoding(!Number(block));
    var a := Frame(WithCrc([AckHeader(!Number(block))]));
    assert Heard(a, 3)[0] == AckHeader(!Number(block));
    ResentBlockIsNotTheFirst(r, Out(r), a);
  }

  /** A block of three bytes with a CID: the reader returns its last checksum byte as data. */
  lemma ShortBlockMiscopied()
    ensures var r := Start(Counter(0), 1, seq(MAX_FRAME_SIZE, _ => 0), [], 1);
      var a := Frame([0x0A, 0x07, 0x09]);
      && r.phase.Replying? && Accepts(r, a) && InfField(Heard(a, Capacity(r))) == []
      && Step(r, a).phase == Done(Return(1)) && Step(r, a).rx == [0x09]
  {
    var r, a := Start(Counter(0), 1, seq(MAX_FRAME_SIZE, _ => 0), [], 1), Frame([0x0A, 0x07, 0x09]);
    var l := Listen(r, a);
    assert l.buf[0] == 0x0A && l.buf[2] == 0x09;
    assert l.buf[2..3] == [0x09];
  }

  /** An I-block of the reply under the wrong number is dropped, and yet the reader counts up. If
      more is announced it acknowledges the block under the number it came with; if not, it
      returns success without it. */
  lemma WrongNumberDropped(r: Reader, a: Answer)
    requires r.Valid() && (r.phase.Replying? || r.phase.ReplyWtx?)
    requires 3 <= Returned(a, MAX_FRAME_SIZE)
    requires var header := Heard(a, MAX_FRAME_SIZE)[0];
      IsIBlock(header) && Toggle(header) != Number(r.block)
    ensures var s, header := Step(r, a), Heard(a, MAX_FRAME_SIZE)[0];
      && s.rx == r.rx && s.room == r.room
      && s.block == Increment(r.block) && Number(s.block) == Toggle(header)
      && (if IsChained(header)
          then s.phase.Replying? && s.tx == [] && Out(s) == [AckHeader(Toggle(header))]
          else s.phase == Done(Return(|r.rx|)))
  {
    var header := Heard(a, MAX_FRAME_SIZE)[0];
    assert Listen(r, a).buf[0] == header;
    IBlockIsNoWtx(header);
    NumberAlternates(r.block);
    HeaderFits(header);
  }

  lemma HeaderFits(header: Byte)
    ensures HeaderSize(header) <= 3
  {
  }

  lemma IBlockIsNoWtx(b: Byte)
    requires IsIBlock(b)
    ensures !IsWtx(b)
  {
  }

  /** Nothing bounds the waiting: the reader grants any number of S(WTX) requests in a row. */
  lemma {:induction false} WaitingIsUnbounded(r: Reader, power: Byte, n: nat)
    requires r.Valid() && !r.phase.Done?
    ensures var request := Frame(WithCrc([WTX, power]));
      |Frames(r, seq(n, _ => request))| == n + 1
    decreases n
  {
    var request := Frame(WithCrc([WTX, power]));
    var script := seq(n, _ => request);
    if n == 0 {
    } else {
      WtxCoding();
      var s := Step(r, request);
      assert Heard(request, Capacity(r))[0] == WTX;
      assert script[0] == request && script[1..] == seq(n - 1, _ => request);
      WaitingIsUnbounded(s, power, n - 1);
    }
  }
}

/**
 * Receiving: the FIFO is drained into the caller's buffer as the answer comes in (the second
 * loop of trf797x_initiator_transceive, with trf797x_fifo_drain), and the call as a whole.
 */
module TrfReceive {
  import opened Bytes
  import opened TrfChip
  import opened TrfSend

  const EINVAL: int := 22
  const ERROR_BASE: int := 2000

  /** irq2error, with the codes in the order of drivers/trf797x/include/trf797x.h. */
  function ErrorOf(irq: Byte): int {
    if Has(irq, 0x02) then -(ERROR_BASE + 4)
    else if Has(irq, 0x10) then -(ERROR_BASE + 1)
    else if Has(irq, 0x04) then -(ERROR_BASE + 3)
    else if Has(irq, 0x08) then -(ERROR_BASE + 2)
    else 0
  }

  datatype ReceivePhase = Receiving | Received | Aborted(code: int)

  /** `got` is what is in the caller's buffer, `room` what is left of it; `taken` is all that has
      been read from the FIFO, kept or not. */
  datatype Receiver = Receiver(phase: ReceivePhase, chip: Chip, got: seq<Byte>, room: nat,
                               taken: seq<Byte>)

  /** Reads `n` bytes from the FIFO; none when `n` is 0. */
  function ReadFifo(c: Chip, n: nat): (r: (Chip, seq<Byte>))
  {
    if n == 0 then (c, [])
    else
      var d := Drift(c);
      var k := Least(n, |d.fifo|);
      (d.(fifo := d.fifo[k..]), d.fifo[..k])
  }

  /** trf797x_fifo_drain: as many bytes as the status shows, those without room thrown away. */
  function Drain(v: Receiver): Receiver {
    var c := Drift(v.chip);
    var shown := |c.fifo|;
    var n := Least(v.room, shown);
    var (d, kept) := ReadFifo(c, n);
    var (e, dropped) := ReadFifo(d, shown - n);
    v.(chip := e, got := v.got + kept, room := if |kept| <= v.room then v.room - |kept| else 0,
       taken := v.taken + kept + dropped)
  }

  /** One turn of the loop. */
  function ReceiveTurn(v: Receiver): Receiver {
    match NextWake(v.chip)
    case Timeout => v.(phase := Aborted(-ETIMEDOUT), chip := Drift(v.chip))
    case Stop => v.(phase := Aborted(-ECANCELED), chip := Drift(v.chip))
    case Irq(shown) =>
      var c := Drift(Drift(v.chip));
      var irq := Status(c, shown);
      if Has(irq, IRQ_ERROR) then v.(phase := Aborted(ErrorOf(irq)), chip := c)
      else
        var w := if Has(irq, IRQ_FIFO | IRQ_SRX) then Drain(v.(chip := c)) else v.(chip := c);
        if irq == IRQ_SRX then w.(phase := Received) else w
  }

  function ReceiveLoop(v: Receiver): (e: Receiver)
    ensures !e.phase.Receiving?
    decreases |v.chip.moves|, if v.phase.Receiving? then 1 else 0
  {
    if !v.phase.Receiving? then v
    else
      ReceiveTurnShortens(v);
      ReceiveLoop(ReceiveTurn(v))
  }

  lemma ReadFifoShortens(c: Chip, n: nat)
    ensures |ReadFifo(c, n).0.moves| <= |c.moves|
  {
    DriftShortens(c);
  }

  lemma ReceiveTurnShortens(v: Receiver)
    ensures v.chip.moves == [] ==> ReceiveTurn(v).phase.Aborted? && ReceiveTurn(v).chip == v.chip
    ensures v.chip.moves != [] ==> |ReceiveTurn(v).chip.moves| < |v.chip.moves|
  {
    hide Drift, Status, Has, ReadFifo;
    DriftShortens(v.chip);
    var c := Drift(Drift(v.chip));
    DriftShortens(Drift(v.chip));
    DriftShortens(c);
    var d := Drift(c);
    var n := Least(v.room, |d.fifo|);
    ReadFifoShortens(d, n);
    ReadFifoShortens(ReadFifo(d, n).0, |d.fifo| - n);
  }

  // ----- The loop takes a prefix --------------------------------------------------------

  /** What was read from the FIFO, what is in it and what is to come make up the stream, and the
      caller's buffer holds as much of what was read as it has room for. */
  predicate TakesPrefix(v: Receiver, stream: seq<Byte>, capacity: nat) {
    && !v.chip.sending && |v.chip.fifo| <= FIFO_SIZE
    && v.taken + v.chip.fifo + v.chip.incoming == stream
    && v.got == Take(v.taken, capacity) && |v.got| + v.room == capacity
  }

  lemma DriftKeepsPrefix(v: Receiver, stream: seq<Byte>, capacity: nat)
    requires TakesPrefix(v, stream, capacity)
    ensures TakesPrefix(v.(chip := Drift(v.chip)), stream, capacity)
    ensures v.chip.fifo <= Drift(v.chip).fifo
  {
    hide Drift;
    var c, d := v.chip, Drift(v.chip);
    ReceivingDrift(c);
    assert v.taken + d.fifo + d.incoming == v.taken + (d.fifo + d.incoming);
    assert v.taken + c.fifo + c.incoming == v.taken + (c.fifo + c.incoming);
  }

  /** Bytes that arrive between the status and the data stay in the FIFO. */
  lemma ReadFifoTakes(c: Chip, n: nat)
    requires !c.sending && n <= |c.fifo| <= FIFO_SIZE
    ensures var (d, data) := ReadFifo(c, n);
      && data == c.fifo[..n] && c.fifo[n..] <= d.fifo
      && data + d.fifo + d.incoming == c.fifo + c.incoming
      && !d.sending && |d.fifo| <= FIFO_SIZE && d.air == c.air
  {
    hide Drift;
    ReceivingDrift(c);
    var e := Drift(c);
    if n > 0 {
      assert e.fifo[..n] == c.fifo[..n];
      assert e.fifo == e.fifo[..n] + e.fifo[n..];
    } else {
      assert c.fifo[..0] == [] && c.fifo[0..] == c.fifo;
      assert [] + c.fifo + c.incoming == c.fifo + c.incoming;
    }
  }

  lemma DrainTakesPrefix(v: Receiver, stream: seq<Byte>, capacity: nat)
    requires TakesPrefix(v, stream, capacity)
    ensures TakesPrefix(Drain(v), stream, capacity) && Drain(v).phase == v.phase
    ensures Drain(v).chip.air == v.chip.air
  {
    hide Drift, ReadFifo;
    DriftKeepsPrefix(v, stream, capacity);
    ReceivingDrift(v.chip);
    var c := Drift(v.chip);
    var n := Least(v.room, |c.fifo|);
    ReadFifoTakes(c, n);
    var (d, kept) := ReadFifo(c, n);
    assert d.fifo[..|c.fifo| - n] == c.fifo[n..];
    ReadFifoTakes(d, |c.fifo| - n);
    var (e, dropped) := ReadFifo(d, |c.fifo| - n);
    Spliced(v.taken, kept, dropped, d.fifo + d.incoming, e.fifo, e.incoming, c.fifo + c.incoming, stream);
    assert v.taken + c.fifo + c.incoming == v.taken + (c.fifo + c.incoming);
    KeptPrefix(v.taken, kept, dropped, capacity);
  }

  lemma Spliced(taken: seq<Byte>, kept: seq<Byte>, dropped: seq<Byte>, later: seq<Byte>,
                fifo: seq<Byte>, incoming: seq<Byte>, rest: seq<Byte>, stream: seq<Byte>)
    requires kept + later == rest && dropped + fifo + incoming == later && taken + rest == stream
    ensures taken + kept + dropped + fifo + incoming == stream
  {
    assert taken + (kept + (dropped + fifo + incoming)) == taken + kept + dropped + fifo + incoming;
  }

  lemma KeptPrefix(taken: seq<Byte>, kept: seq<Byte>, dropped: seq<Byte>, capacity: nat)
    requires |Take(taken, capacity)| + |kept| <= capacity
    requires dropped != [] || |taken| > capacity ==> |Take(taken, capacity)| + |kept| == capacity
    ensures Take(taken + kept + dropped, capacity) == Take(taken, capacity) + kept
  {
  }

  lemma ReceiveTurnTakesPrefix(v: Receiver, stream: seq<Byte>, capacity: nat)
    requires TakesPrefix(v, stream, capacity) && v.phase.Receiving?
    ensures TakesPrefix(ReceiveTurn(v), stream, capacity)
    ensures ReceiveTurn(v).chip.air == v.chip.air
  {
    hide Drift, Has, Drain;
    ReceivingDrift(v.chip);
    DriftKeepsPrefix(v, stream, capacity);
    var w := v.(chip := Drift(v.chip));
    ReceivingDrift(w.chip);
    DriftKeepsPrefix(w, stream, capacity);
    DrainTakesPrefix(w.(chip := Drift(w.chip)), stream, capacity);
  }

  /** Whatever the schedule: the buffer holds a prefix of the stream, as long as it can be and in
      order, and when reception is over, the longest there is room for. */
  lemma {:induction false} ReceiveTakesPrefix(v: Receiver, stream: seq<Byte>, capacity: nat)
    requires TakesPrefix(v, stream, capacity) && v.phase.Receiving?
    ensures var e := ReceiveLoop(v);
      && TakesPrefix(e, stream, capacity) && e.chip.air == v.chip.air
      && (e.chip.fifo + e.chip.incoming == [] ==> e.got == Take(stream, capacity))
    decreases |v.chip.moves|
  {
    ReceiveTurnTakesPrefix(v, stream, capacity);
    ReceiveTurnShortens(v);
    var w := ReceiveTurn(v);
    if w.phase.Receiving? {
      ReceiveTakesPrefix(w, stream, capacity);
    } else if w.chip.fifo + w.chip.incoming == [] {
      assert w.taken + w.chip.fifo + w.chip.incoming == w.taken + (w.chip.fifo + w.chip.incoming);
    }
  }

  // ----- How the loop ends --------------------------------------------------------------

  /** What an interrupt status says of the reception, bit by bit: collision, checksum, framing and
      parity errors end it with their codes, and nothing is read; the end of reception ends it
      when it comes alone. */
  lemma ReceiveTurnEnds(v: Receiver)
    requires v.phase.Receiving?
    ensures var w, c := ReceiveTurn(v), Drift(Drift(v.chip));
      match NextWake(v.chip)
      case Timeout => w.phase == Aborted(-116) && w.got == v.got
      case Stop => w.phase == Aborted(-140) && w.got == v.got
      case Irq(shown) =>
        var irq := Status(c, shown);
        var bits := BitsOf(irq);
        if bits[1] || bits[4] || bits[2] || bits[3] then
          && w == v.(phase := w.phase, chip := c)
          && w.phase == Aborted(if bits[1] then -2004 else if bits[4] then -2001
                                else if bits[2] then -2003 else -2002)
        else
          && (w.phase.Received? <==> irq == 0x40) && !w.phase.Aborted?
          && (bits[5] || bits[6] ==> w == Drain(v.(chip := c)).(phase := w.phase))
          && (!bits[5] && !bits[6] ==> w == v.(chip := c))
  {
    hide Drift, Drain, ReadFifo, BitsOf, Has, ErrorOf;
    match NextWake(v.chip)
    case Timeout =>
    case Stop =>
    case Irq(shown) =>
      var c := Drift(Drift(v.chip));
      StatusBits(Status(c, shown));
      DrainKeepsPhase(v.(chip := c));
  }

  lemma DrainKeepsPhase(v: Receiver)
    ensures Drain(v).phase == v.phase
  {
  }

  lemma StatusBits(irq: Byte)
    ensures var bits := BitsOf(irq);
      && (Has(irq, IRQ_ERROR) <==> bits[1] || bits[4] || bits[2] || bits[3])
      && (Has(irq, IRQ_ERROR) ==>
            ErrorOf(irq) == if bits[1] then -2004 else if bits[4] then -2001
                            else if bits[2] then -2003 else -2002)
      && (Has(irq, IRQ_FIFO | IRQ_SRX) <==> bits[5] || bits[6])
      && (irq == 0x40 ==> bits[6] && !bits[1] && !bits[2] && !bits[3] && !bits[4])
  {
  }

  /** The chip when the status is read that ends the loop. */
  function AtLastStatus(v: Receiver): Chip
    decreases |v.chip.moves|
  {
    ReceiveTurnShortens(v);
    if v.chip.moves == [] || !ReceiveTurn(v).phase.Receiving? then Drift(Drift(v.chip))
    else AtLastStatus(ReceiveTurn(v))
  }

  /** When nothing is to come any more, a drain leaves the FIFO empty. */
  lemma DrainEmpties(v: Receiver)
    requires !v.chip.sending && |v.chip.fifo| <= FIFO_SIZE && v.chip.incoming == []
    ensures Drain(v).chip.fifo == [] && Drain(v).chip.incoming == []
  {
    hide Drift;
    NothingComes(v.chip);
    var c := Drift(v.chip);
    var n := Least(v.room, |c.fifo|);
    NothingComes(c);
    var d := ReadFifo(c, n).0;
    assert d.fifo == c.fifo[n..];
    NothingComes(d);
  }

  lemma NothingComes(c: Chip)
    requires !c.sending && |c.fifo| <= FIFO_SIZE && c.incoming == []
    ensures Drift(c).fifo == c.fifo && Drift(c).incoming == [] && !Drift(c).sending
  {
  }

  /** The end of reception comes with a last drain: if by then everything has come in, the FIFO
      is empty afterwards and the caller has all there is room for. */
  lemma {:induction false} ReceptionComplete(v: Receiver, stream: seq<Byte>, capacity: nat)
    requires TakesPrefix(v, stream, capacity) && v.phase.Receiving?
    ensures var e := ReceiveLoop(v);
      e.phase.Received? && AtLastStatus(v).incoming == [] ==>
        e.chip.fifo == [] && e.chip.incoming == [] && e.got == Take(stream, capacity)
    decreases |v.chip.moves|
  {
    hide Drift, Drain, ReceiveTurn, Take;
    ReceiveTurnTakesPrefix(v, stream, capacity);
    ReceiveTurnShortens(v);
    var w := ReceiveTurn(v);
    if w.phase.Receiving? {
      ReceptionComplete(w, stream, capacity);
    } else if w.phase.Received? && AtLastStatus(v).incoming == [] {
      LastTurnDrains(v, stream, capacity);
      assert w.taken + [] + [] == w.taken;
    }
  }

  lemma LastTurnDrains(v: Receiver, stream: seq<Byte>, capacity: nat)
    requires TakesPrefix(v, stream, capacity) && v.phase.Receiving?
    requires ReceiveTurn(v).phase.Received? && Drift(Drift(v.chip)).incoming == []
    ensures var w := ReceiveTurn(v); w.chip.fifo == [] && w.chip.incoming == []
  {
    hide Drift, Drain, ReceiveTurn;
    ReceiveTurnEnds(v);
    DriftKeepsPrefix(v, stream, capacity);
    var w := v.(chip := Drift(v.chip));
    DriftKeepsPrefix(w, stream, capacity);
    var c := Drift(Drift(v.chip));
    StatusBits(0x40);
    assert NextWake(v.chip).Irq? && Status(c, NextWake(v.chip).status) == 0x40;
    DrainEmpties(v.(chip := c));
  }

  // ----- The whole call -----------------------------------------------------------------

  datatype Result = Return(value: int) | BeyondList

  function StartReceiving(c: Chip, capacity: nat): Receiver {
    Receiver(Receiving, c, [], capacity, [])
  }

  /** The result of a call, and the receiver that it leaves. It begins by reading the interrupt
      status to clear it. */
  function Transceived(tx: seq<Iovec>, c: Chip, capacity: nat): (Result, Receiver) {
    if tx == [] then (Return(-EINVAL), StartReceiving(c, capacity))
    else
      var s := SendLoop(Begin(tx, false, Pause(c)));
      match s.phase
      case Failed(code) => (Return(code), StartReceiving(s.chip, capacity))
      case Sent =>
        var v := ReceiveLoop(StartReceiving(s.chip, capacity));
        (Return(if v.phase.Aborted? then v.phase.code else |v.got|), v)
      case _ => (BeyondList, StartReceiving(s.chip, capacity))
  }

  lemma NegativeError(irq: Byte)
    requires Has(irq, IRQ_ERROR)
    ensures ErrorOf(irq) < 0
  {
  }

  /** Has all of the answer come in when the status is read that ends the call? */
  predicate AllIn(tx: seq<Iovec>, c: Chip, capacity: nat) {
    tx != [] &&
    var s := SendLoop(Begin(tx, false, Pause(c)));
    s.phase.Sent? && AtLastStatus(StartReceiving(s.chip, capacity)).incoming == []
  }

  /** An empty list is refused, and nothing is sent. */
  lemma EmptyListRefused(c: Chip, capacity: nat)
    ensures Transceived([], c, capacity).0 == Return(-22) && Transceived([], c, capacity).1.chip == c
  {
  }

  lemma {:induction false} AbortedIsNegative(v: Receiver)
    requires v.phase.Receiving?
    ensures ReceiveLoop(v).phase.Aborted? ==> ReceiveLoop(v).phase.code < 0
    decreases |v.chip.moves|
  {
    hide Drift, Has, ReadFifo, ErrorOf;
    ReceiveTurnShortens(v);
    if NextWake(v.chip).Irq? {
      var irq := Status(Drift(Drift(v.chip)), NextWake(v.chip).status);
      if Has(irq, IRQ_ERROR) {
        NegativeError(irq);
      }
    }
    if ReceiveTurn(v).phase.Receiving? {
      AbortedIsNegative(ReceiveTurn(v));
    }
  }

  lemma {:induction false} FailedIsNegative(s: Sender)
    requires s.phase.Sending?
    ensures SendLoop(s).phase.Failed? ==> SendLoop(s).phase.code < 0
    decreases |s.chip.moves|
  {
    hide Drift, Has, Status;
    SendTurnShortens(s);
    if SendTurn(s).phase.Sending? {
      FailedIsNegative(SendTurn(s));
    }
  }

  /** A call that returns a count has sent the whole gather list and received a prefix of the
      answer, all there is room for if it has come in by the end of reception: for every list
      that does not stop on a boundary, and every schedule. */
  lemma TransceiveDelivers(tx: seq<Iovec>, c: Chip, capacity: nat)
    requires tx != [] && ValidList(tx) && WholeBytes(tx) && 0 < TotalBits(tx) < 0x8000
    requires StopsInside(tx, FIFO_SIZE)
    ensures var (result, v) := Transceived(tx, c, capacity);
      && |v.got| <= capacity && v.got <= c.incoming
      && (result.Return? && result.value >= 0 ==>
        && v.chip.air == Payload(tx) && result.value == |v.got|
        && (v.chip.fifo + v.chip.incoming == [] ==> v.got == Take(c.incoming, capacity))
        && (AllIn(tx, c, capacity) ==>
              v.chip.fifo == [] && v.chip.incoming == [] && v.got == Take(c.incoming, capacity)))
  {
    hide Gather, Loaded, Wire, ReceiveAll, SendLoop, ReceiveLoop, StopsInside, Payload, TotalBits, ValidList;
    SendDelivers(tx, false, Pause(c));
    FailedIsNegative(Begin(tx, false, Pause(c)));
    var s := SendLoop(Begin(tx, false, Pause(c)));
    if s.phase.Sent? {
      var v := StartReceiving(s.chip, capacity);
      assert [] + s.chip.fifo + s.chip.incoming == s.chip.fifo + s.chip.incoming;
      ReceiveTakesPrefix(v, c.incoming, capacity);
      ReceptionComplete(v, c.incoming, capacity);
      AbortedIsNegative(v);
      var e := ReceiveLoop(v);
      PrefixOfStream(e, c.incoming, capacity);
    }
  }

  lemma PrefixOfStream(v: Receiver, stream: seq<Byte>, capacity: nat)
    requires TakesPrefix(v, stream, capacity)
    ensures v.got <= stream
  {
    assert v.taken <= stream;
  }
}

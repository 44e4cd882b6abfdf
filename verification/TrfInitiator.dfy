/** The driver itself (trf797x_initiator.c and trf797x_lld.c in drivers/trf797x): its loops do
    what `TrfSend` and `TrfReceive` describe. */
module TrfInitiator {
  import opened Bytes
  import opened TrfChip
  import opened TrfSend
  import opened TrfReceive

  lemma {:induction false} ReceiveAllConcat(b: Bus, x: seq<Byte>, y: seq<Byte>)
    ensures ReceiveAll(b, x + y) == ReceiveAll(ReceiveAll(b, x), y)
    decreases |x|
  {
    if x == [] {
      assert x + y == y;
    } else {
      assert (x + y)[1..] == x[1..] + y;
      ReceiveAllConcat(Receive(b, x[0]), x[1..], y);
    }
  }

  lemma ReceiveNothing(b: Bus)
    ensures ReceiveAll(b, []) == b
  {
  }

  lemma DrainAppends(v: Receiver)
    ensures var w := Drain(v);
      && |v.got| <= |w.got| <= |v.got| + v.room && w.got == v.got + w.got[|v.got|..]
      && |w.got| + w.room == |v.got| + v.room && w.phase == v.phase
  {
    hide Drift;
  }

  class Initiator {
    var chip: Chip
    var bus: Bus

    constructor (chip: Chip)
      ensures this.chip == chip && bus == QUIET
    {
      this.chip, bus := chip, QUIET;
    }

    /** spiSend. */
    method Send(bytes: seq<Byte>)
      modifies this`bus
      ensures bus == ReceiveAll(old(bus), bytes)
    {
      bus := ReceiveAll(bus, bytes);
    }

    /** trf797x_transmit: `at` and `count` are the caller's list pointer and count afterwards. */
    method Transmit(tx: seq<Iovec>, crc: bool) returns (at: nat, count: nat, sent: nat)
      requires tx != [] && ValidList(tx) && TotalBits(tx) > 0 && bus == QUIET
      modifies this
      ensures at < |tx| && (count == 0 || count == |tx| - at)
      ensures Gather(tx, [], 0) == Gathered(Gather(tx, [], 0).fifo, tx[at..], count, sent)
      ensures chip == Loaded(old(chip), ReceiveAll(QUIET, Wire(tx, crc))) && bus == QUIET
    {
      hide ReceiveAll, Loaded, Header;
      var bits := 0;
      for i := 0 to |tx|
        invariant bits + TotalBits(tx[i..]) == TotalBits(tx)
      {
        assert tx[i..][0] == tx[i] && tx[i..][1..] == tx[i + 1..];
        bits := bits + tx[i].bits;
      }
      assert tx[|tx|..] == [];
      Send(Header(bits, crc));
      ghost var g, header := Gather(tx, [], 0), bus;
      ghost var written: seq<Byte> := [];
      var fifo := 0;
      ReceiveNothing(header);
      at, count, sent := 0, |tx|, 0;
      while bits > 0 && fifo < FIFO_SIZE
        invariant at < |tx| && fifo == |written| <= FIFO_SIZE
        invariant chip == old(chip) && bus == ReceiveAll(header, written)
        invariant count == 0 || count == |tx| - at
        invariant count > 0 && fifo < FIFO_SIZE ==> bits == TotalBits(tx[at..])
        invariant count > 0 && bits > 0 && fifo < FIFO_SIZE ==> Gather(tx[at..], written, sent) == g
        invariant count > 0 && (bits <= 0 || fifo == FIFO_SIZE) ==>
                    g == Gathered(written, tx[at..], count, sent)
        invariant count == 0 ==> bits == 0 && g == Gathered(written, tx[at..], 0, sent)
        decreases count, FIFO_SIZE - fifo
      {
        assert tx[at..][0] == tx[at] && tx[at..][1..] == tx[at + 1..];
        var bytes := |tx[at].data|;
        sent := Least(bytes, FIFO_SIZE - fifo);
        ReceiveAllConcat(header, written, tx[at].data[..sent]);
        Send(tx[at].data[..sent]);
        written := written + tx[at].data[..sent];
        bits := bits - tx[at].bits;
        fifo := fifo + sent;
        if sent == bytes {
          count := count - 1;
          if count > 0 {
            at := at + 1;
          } else {
            assert tx[at + 1..] == [];
          }
        }
      }
      assert written == g.fifo;
      ReceiveAllConcat(QUIET, Header(TotalBits(tx), crc), written);
      assert bus == ReceiveAll(QUIET, Wire(tx, crc));
      chip, bus := Loaded(chip, bus), QUIET;
    }

    /** trf797x_fifo_fill. */
    method FifoFill(data: seq<Byte>, ghost s: Sender) returns (n: nat)
      requires s.chip == chip && s.cur == data
      modifies this`chip
      ensures n <= |data| && Refill(s) == s.(chip := chip, cur := data[n..])
    {
      chip := Drift(chip);
      n := Least(|data|, if |chip.fifo| <= FIFO_SIZE then FIFO_SIZE - |chip.fifo| else 0);
      if n > 0 {
        chip := Drift(chip);
        chip := chip.(fifo := chip.fifo + data[..n]);
      }
    }

    /** trf797x_fifo_drain, into `rx` from `got` on. */
    method FifoDrain(rx: array<Byte>, got: nat, room: nat, ghost v: Receiver) returns (n: nat)
      requires got + room <= rx.Length && v.chip == chip && |v.got| == got && v.room == room
      modifies this`chip, rx
      ensures chip == Drain(v).chip && n == |Drain(v).got| - got && n <= room
      ensures rx[..] == Overwrite(old(rx[..]), got, Drain(v).got[got..])
    {
      hide Drift, ReadFifo;
      chip := Drift(chip);
      var shown := |chip.fifo|;
      var asked := Least(room, shown);
      var data := ReadData(asked);
      n := |data|;
      forall i | 0 <= i < n {
        rx[got + i] := data[i];
      }
      var _ := ReadData(shown - asked);
    }

    /** trf797x_register_read, of the FIFO. */
    method ReadData(n: nat) returns (data: seq<Byte>)
      modifies this`chip
      ensures (chip, data) == ReadFifo(old(chip), n) && |data| <= n
    {
      data := [];
      if n > 0 {
        chip := Drift(chip);
        var k := Least(n, |chip.fifo|);
        data := chip.fifo[..k];
        chip := chip.(fifo := chip.fifo[k..]);
      }
    }

    /** trf797x_initiator_transceive. */
    method Transceive(tx: seq<Iovec>, rx: array<Byte>, capacity: nat) returns (result: Result)
      requires ValidList(tx) && (tx != [] ==> TotalBits(tx) > 0) && bus == QUIET
      requires capacity <= rx.Length
      modifies this, rx
      ensures var (r, v) := Transceived(tx, old(chip), capacity);
        && result == r && chip == v.chip && bus == QUIET && |v.got| <= capacity
        && rx[..] == Overwrite(old(rx[..]), 0, v.got)
    {
      hide SendTurn, ReceiveTurn, Gather, Wire, ReceiveAll, Loaded;
      if tx == [] {
        return Return(-EINVAL);
      }
      chip := Pause(chip);
      ghost var chip0 := chip;
      var at, count, sent := Transmit(tx, false);
      ghost var s;
      var done;
      done, result, s := ContinueSending(tx, at, count, sent, chip0);
      if !done {
        return;
      }
      ghost var v;
      result, v := ReceiveAnswer(rx, capacity);
    }

    /** Its first loop. */
    method ContinueSending(tx: seq<Iovec>, at0: nat, count: nat, sent: nat, ghost chip0: Chip)
      returns (done: bool, result: Result, ghost s: Sender)
      requires at0 < |tx| && (count == 0 || count == |tx| - at0)
      requires var g := Gather(tx, [], 0);
        g.list == tx[at0..] && g.count == count && g.sent == sent
      requires chip == Begin(tx, false, chip0).chip
      modifies this`chip
      ensures s == SendLoop(Begin(tx, false, chip0)) && chip == s.chip
      ensures done == s.phase.Sent?
      ensures s.phase.Failed? ==> result == Return(s.phase.code)
      ensures s.phase.PastList? ==> result == BeyondList
    {
      hide Gather, Drift, Status, Has, Loaded, Wire, Refill;
      var at := at0;
      var astray := |tx[at].data| < sent;
      var cur := if astray then [] else tx[at].data[sent..];
      s := Begin(tx, false, chip0);
      ghost var s0 := s;
      assert tx[at..][0] == tx[at] && tx[at..][1..] == tx[at + 1..];
      while true
        invariant at < |tx| && s.phase.Sending? && chip == s.chip && cur == s.cur
        invariant astray == s.astray && (count != 0) == s.listed
        invariant count != 0 ==> s.later == tx[at + 1..]
        invariant SendLoop(s) == SendLoop(s0)
        decreases |chip.moves|
      {
        SendTurnShortens(s);
        ghost var t := SendTurn(s);
        match NextWake(chip)
        case Timeout =>
          chip := Drift(chip);
          return false, Return(-ETIMEDOUT), t;
        case Stop =>
          chip := Drift(chip);
          return false, Return(-ECANCELED), t;
        case Irq(shown) =>
          chip := Drift(chip);
          chip := Drift(chip);
          var irq := Status(chip, shown);
          if Has(irq, IRQ_FIFO) {
            ghost var u := s.(chip := chip);
            if astray {
              return false, BeyondList, t;
            }
            if cur == [] && count != 0 {
              if at + 1 == |tx| {
                return false, BeyondList, t;
              }
              at := at + 1;
              assert tx[at..][0] == tx[at] && tx[at..][1..] == tx[at + 1..];
              cur := tx[at].data;
              u := u.(cur := cur, later := u.later[1..]);
            }
            if cur != [] {
              var n := FifoFill(cur, u);
              cur := cur[n..];
            }
          }
          s := t;
          if irq == IRQ_TX {
            return true, BeyondList, s;
          }
      }
    }

    /** Its second loop. */
    method ReceiveAnswer(rx: array<Byte>, capacity: nat) returns (result: Result, ghost v: Receiver)
      requires capacity <= rx.Length
      modifies this`chip, rx
      ensures v == ReceiveLoop(StartReceiving(old(chip), capacity)) && chip == v.chip
      ensures result == Return(if v.phase.Aborted? then v.phase.code else |v.got|)
      ensures |v.got| <= capacity && rx[..] == Overwrite(old(rx[..]), 0, v.got)
    {
      hide Drift, Status, Has, Drain, ErrorOf;
      var got, room := 0, capacity;
      v := StartReceiving(chip, capacity);
      ghost var v0, rx0 := v, rx[..];
      while true
        invariant v.phase.Receiving? && chip == v.chip && |v.got| == got && v.room == room
        invariant got + room == capacity && rx[..] == Overwrite(rx0, 0, v.got)
        invariant ReceiveLoop(v) == ReceiveLoop(v0)
        decreases |chip.moves|
      {
        ReceiveTurnShortens(v);
        ghost var w := ReceiveTurn(v);
        match NextWake(chip)
        case Timeout =>
          chip := Drift(chip);
          return Return(-ETIMEDOUT), w;
        case Stop =>
          chip := Drift(chip);
          return Return(-ECANCELED), w;
        case Irq(shown) =>
          chip := Drift(chip);
          chip := Drift(chip);
          var irq := Status(chip, shown);
          if Has(irq, IRQ_ERROR) {
            return Return(ErrorOf(irq)), w;
          }
          if Has(irq, IRQ_FIFO | IRQ_SRX) {
            ghost var u := v.(chip := chip);
            var n := FifoDrain(rx, got, room, u);
            DrainAppends(u);
            OverwriteTwice(rx0, v.got, Drain(u).got[got..]);
            got, room := got + n, room - n;
          }
          v := w;
          if irq == IRQ_SRX {
            return Return(got), v;
          }
      }
    }
  }
}

/**
 * Sending: a gather list is written to the FIFO as far as it fits (trf797x_transmit in
 * drivers/trf797x/trf797x_lld.c) and the rest as the chip drains it (the first loop of
 * trf797x_initiator_transceive in drivers/trf797x/trf797x_initiator.c).
 */
module TrfSend {
  import opened Bytes
  import opened TrfChip

  const ETIMEDOUT: int := 116
  const ECANCELED: int := 140

  /** One entry of a gather list: `bits` bits, in as many bytes as it takes. */
  datatype Iovec = Iovec(data: seq<Byte>, bits: nat)

  predicate ValidList(tx: seq<Iovec>) {
    forall i :: 0 <= i < |tx| ==> |tx[i].data| == (tx[i].bits + 7) / 8
  }

  function TotalBits(tx: seq<Iovec>): nat {
    if tx == [] then 0 else tx[0].bits + TotalBits(tx[1..])
  }

  /** The bytes of the whole list. */
  function Payload(tx: seq<Iovec>): seq<Byte> {
    if tx == [] then [] else tx[0].data + Payload(tx[1..])
  }

  // ----- The first fill -----------------------------------------------------------------

  /** Where the gathering loop stops: what it has written, the list from the entry it points to,
      its remaining count, and the size of its last write. */
  datatype Gathered = Gathered(fifo: seq<Byte>, list: seq<Iovec>, count: nat, sent: nat)

  function Gather(list: seq<Iovec>, fifo: seq<Byte>, sent: nat): (g: Gathered)
    requires list != [] && |fifo| <= FIFO_SIZE
    ensures g.list != [] && |g.fifo| <= FIFO_SIZE
    decreases |list|
  {
    if TotalBits(list) == 0 || |fifo| == FIFO_SIZE then Gathered(fifo, list, |list|, sent)
    else
      var n := Least(|list[0].data|, FIFO_SIZE - |fifo|);
      var more := fifo + list[0].data[..n];
      if n < |list[0].data| then Gathered(more, list, |list|, n)
      else if |list| == 1 then Gathered(more, list, 0, n)
      else Gather(list[1..], more, n)
  }

  function Length1(bits: nat): (n: nat) ensures n < 256 { (bits / 128) % 256 }

  function Length2(bits: nat): (n: nat)
    ensures n < 256
  {
    ((bits % 256) * 2 + (if bits % 8 != 0 then 1 else 0)) % 256
  }

  /** The five bytes sent ahead of the data: reset the FIFO, transmit, and a continuous write
      that starts at the length registers. */
  function Header(bits: nat, crc: bool): seq<Byte> {
    [0x8F, if crc then 0x91 else 0x90, 0x3D, OfNat(Length1(bits)), OfNat(Length2(bits))]
  }

  function Wire(tx: seq<Iovec>, crc: bool): seq<Byte>
    requires tx != []
  {
    Header(TotalBits(tx), crc) + Gather(tx, [], 0).fifo
  }

  lemma LowSevenBits(bits: nat)
    ensures Length2(bits) == 2 * (bits % 128) + (if bits % 8 != 0 then 1 else 0)
    ensures bits % 8 == bits % 128 % 8
  {
    var q, r := bits / 256, bits % 256;
    var l := if r < 128 then r else r - 128;
    Remainder(bits, if r < 128 then 2 * q else 2 * q + 1, l);
    var f := if bits % 8 != 0 then 1 else 0;
    assert r * 2 + f == 2 * l + f || r * 2 + f == 2 * l + f + 256;
  }

  lemma Remainder(n: nat, k: nat, l: nat)
    requires l < 128 && n == 128 * k + l
    ensures n % 128 == l && n % 8 == l % 8
  {
  }

  lemma LengthRoundTrip(bits: nat)
    ensures (Length1(bits) * 16 + Length2(bits) / 16) * 8 + (Length2(bits) / 2) % 8 == bits
      <==> bits < 0x8000
    ensures Length2(bits) % 2 == 1 <==> bits % 8 != 0
  {
    hide Length2;
    var h, l := bits / 128, bits % 128;
    LowSevenBits(bits);
    assert Length2(bits) / 16 == l / 8 && Length2(bits) / 2 == l;
    assert (Length1(bits) * 16 + l / 8) * 8 + l % 8 == Length1(bits) * 128 + l;
    assert bits == 128 * h + l;
  }

  lemma {:induction false} GatherTakes(list: seq<Iovec>, fifo: seq<Byte>, sent: nat)
    requires list != [] && |fifo| <= FIFO_SIZE && ValidList(list)
    ensures Gather(list, fifo, sent).fifo == Take(fifo + Payload(list), FIFO_SIZE)
    decreases |list|
  {
    if TotalBits(list) == 0 {
      NoBits(list);
      assert fifo + [] == fifo;
    } else if |fifo| < FIFO_SIZE {
      var n := Least(|list[0].data|, FIFO_SIZE - |fifo|);
      var more := fifo + list[0].data[..n];
      if n == |list[0].data| {
        assert list[0].data[..n] == list[0].data;
        assert fifo + (list[0].data + Payload(list[1..])) == more + Payload(list[1..]);
        if |list| == 1 {
          assert list[1..] == [] && more + [] == more;
        } else {
          GatherTakes(list[1..], more, n);
        }
      }
    }
  }

  lemma {:induction false} NoBits(list: seq<Iovec>)
    requires ValidList(list) && TotalBits(list) == 0
    ensures Payload(list) == []
  {
    if list == [] {
    } else {
      NoBits(list[1..]);
    }
  }

  lemma {:induction false} ReceivePayload(b: Bus, bytes: seq<Byte>)
    requires b.mode == Writing(FIFO, true)
    ensures ReceiveAll(b, bytes) == b.(fifo := b.fifo + bytes)
    decreases |bytes|
  {
    if bytes == [] {
      assert b.fifo + [] == b.fifo;
    } else {
      ReceivePayload(Receive(b, bytes[0]), bytes[1..]);
      assert b.fifo + [bytes[0]] + bytes[1..] == b.fifo + bytes;
    }
  }

  lemma ReceiveOne(b: Bus, byte: Byte, rest: seq<Byte>, bytes: seq<Byte>)
    requires bytes == [byte] + rest
    ensures ReceiveAll(b, bytes) == ReceiveAll(Receive(b, byte), rest)
  {
    assert bytes[1..] == rest;
  }

  /** The command bytes put the bus into a continuous write of the length registers. */
  lemma ReceiveCommands(b: Bus, crc: bool)
    requires b.mode == Idle
    ensures Receive(Receive(Receive(b, 0x8F), if crc then 0x91 else 0x90), 0x3D)
      == Bus(Writing(TX_LENGTH1, true), [], if crc then TX else TX_NO_CRC, b.length1, b.length2)
  {
  }

  lemma ReceiveLengths(b: Bus, l1: Byte, l2: Byte)
    requires b.mode == Writing(TX_LENGTH1, true)
    ensures Receive(Receive(b, l1), l2)
      == b.(mode := Writing(FIFO, true), length1 := l1, length2 := l2)
  {
  }

  lemma ReceiveFive(b: Bus, h: seq<Byte>, payload: seq<Byte>)
    requires |h| == 5
    ensures ReceiveAll(b, h + payload)
      == ReceiveAll(Receive(Receive(Receive(Receive(Receive(b, h[0]), h[1]), h[2]), h[3]), h[4]), payload)
  {
    hide Receive, ReceiveAll;
    var b1 := Receive(b, h[0]);
    var b2 := Receive(b1, h[1]);
    var b3 := Receive(b2, h[2]);
    var b4 := Receive(b3, h[3]);
    ReceiveOne(b, h[0], h[1..] + payload, h + payload);
    ReceiveOne(b1, h[1], h[2..] + payload, h[1..] + payload);
    ReceiveOne(b2, h[2], h[3..] + payload, h[2..] + payload);
    ReceiveOne(b3, h[3], h[4..] + payload, h[3..] + payload);
    ReceiveOne(b4, h[4], payload, h[4..] + payload);
  }

  lemma ReceiveHeader(b: Bus, bits: nat, crc: bool, payload: seq<Byte>)
    requires b.mode == Idle
    ensures ReceiveAll(b, Header(bits, crc) + payload)
      == ReceiveAll(Bus(Writing(FIFO, true), [], if crc then TX else TX_NO_CRC,
                        OfNat(Length1(bits)), OfNat(Length2(bits))), payload)
  {
    hide OfNat, Length1, Length2, Receive, ReceiveAll;
    var h := Header(bits, crc);
    ReceiveFive(b, h, payload);
    ReceiveCommands(b, crc);
    ReceiveLengths(Receive(Receive(Receive(b, h[0]), h[1]), h[2]), h[3], h[4]);
  }

  /** The chip reads out of the byte stream what the driver put in: an emptied FIFO with the
      first bytes of the list, the transmit command, and the number of bits, exact as long as it
      fits the registers. */
  lemma SpiRoundTrip(b: Bus, tx: seq<Iovec>, crc: bool)
    requires b.mode == Idle && tx != [] && ValidList(tx)
    ensures var r := ReceiveAll(b, Wire(tx, crc));
      && r.fifo == Take(Payload(tx), FIFO_SIZE)
      && r.command == (if crc then TX else TX_NO_CRC)
      && (AnnouncedBits(r.length1, r.length2) == TotalBits(tx) <==> TotalBits(tx) < 0x8000)
      && (ValueOf(r.length2) % 2 == 1 <==> TotalBits(tx) % 8 != 0)
  {
    hide OfNat, ValueOf, Length1, Length2, Header, Gather, ReceiveAll;
    var bits, payload := TotalBits(tx), Gather(tx, [], 0).fifo;
    ReceiveHeader(b, bits, crc, payload);
    ReceivePayload(Bus(Writing(FIFO, true), [], if crc then TX else TX_NO_CRC,
                       OfNat(Length1(bits)), OfNat(Length2(bits))), payload);
    assert [] + payload == payload;
    GatherTakes(tx, [], 0);
    assert [] + Payload(tx) == Payload(tx);
    LengthRoundTrip(bits);
    ByteRoundTrip(Length1(bits));
    ByteRoundTrip(Length2(bits));
  }

  // ----- The loop that follows ----------------------------------------------------------

  /** `PastList` stands for the driver reading beyond its gather list. */
  datatype SendPhase = Sending | Sent | Failed(code: int) | PastList

  /** `cur` is what is left of the current entry and `later` the entries after it. `astray` is
      set when the driver's count of what is left of the entry has wrapped below zero; `listed`
      when its count of entries, which the loop never updates, is not zero. */
  datatype Sender = Sender(phase: SendPhase, chip: Chip, cur: seq<Byte>, later: seq<Iovec>,
                           astray: bool, listed: bool)

  /** The chip when the wire has been read. */
  function Loaded(c: Chip, bus: Bus): Chip {
    c.(fifo := bus.fifo, air := [], sending := true,
       goal := (AnnouncedBits(bus.length1, bus.length2) + 7) / 8)
  }

  const QUIET := Bus(Idle, [], 0, 0, 0)

  /** The driver after the first fill: it takes the size of the last write for the part of the
      current entry that is done. */
  function Begin(tx: seq<Iovec>, crc: bool, c: Chip): Sender
    requires tx != []
  {
    var g := Gather(tx, [], 0);
    var astray := |g.list[0].data| < g.sent;
    Sender(Sending, Loaded(c, ReceiveAll(QUIET, Wire(tx, crc))),
           if astray then [] else g.list[0].data[g.sent..],
           if g.count == 0 then [] else g.list[1..], astray, g.count != 0)
  }

  /** Writes to the FIFO what has room in it when its status is read. */
  function Refill(s: Sender): Sender {
    var c := Drift(s.chip);
    var n := Least(|s.cur|, if |c.fifo| <= FIFO_SIZE then FIFO_SIZE - |c.fifo| else 0);
    if n == 0 then s.(chip := c)
    else
      var d := Drift(c);
      s.(chip := d.(fifo := d.fifo + s.cur[..n]), cur := s.cur[n..])
  }

  /** What the driver does about a FIFO interrupt. */
  function FifoIrq(s: Sender): Sender {
    if s.astray then s.(phase := PastList)
    else if s.cur == [] && s.listed then
      if s.later == [] then s.(phase := PastList)
      else
        var t := s.(cur := s.later[0].data, later := s.later[1..]);
        if t.cur == [] then t else Refill(t)
    else if s.cur == [] then s
    else Refill(s)
  }

  /** One turn of the loop: wait, read the interrupt status, act on it. */
  function SendTurn(s: Sender): Sender {
    match NextWake(s.chip)
    case Timeout => s.(phase := Failed(-ETIMEDOUT), chip := Drift(s.chip))
    case Stop => s.(phase := Failed(-ECANCELED), chip := Drift(s.chip))
    case Irq(shown) =>
      var c := Drift(Drift(s.chip));
      var irq := Status(c, shown);
      var t := if Has(irq, IRQ_FIFO) then FifoIrq(s.(chip := c)) else s.(chip := c);
      if t.phase.Sending? && irq == IRQ_TX then t.(phase := Sent) else t
  }

  lemma DriftShortens(c: Chip)
    ensures |Drift(c).moves| <= |c.moves|
    ensures c.moves != [] ==> |Drift(c).moves| < |c.moves|
    ensures c.moves == [] ==> Drift(c) == c
  {
  }

  function SendLoop(s: Sender): (e: Sender)
    ensures !e.phase.Sending?
    decreases |s.chip.moves|, if s.phase.Sending? then 1 else 0
  {
    if !s.phase.Sending? then s
    else
      SendTurnShortens(s);
      SendLoop(SendTurn(s))
  }

  lemma SendTurnShortens(s: Sender)
    ensures s.chip.moves == [] ==> SendTurn(s).phase.Failed? && SendTurn(s).chip == s.chip
    ensures s.chip.moves != [] ==> |SendTurn(s).chip.moves| < |s.chip.moves|
  {
    hide Drift, Status, Has;
    DriftShortens(s.chip);
    DriftShortens(Drift(s.chip));
    DriftShortens(Drift(Drift(s.chip)));
    DriftShortens(Drift(Drift(Drift(s.chip))));
  }

  /** What an interrupt status says of the transmission, bit by bit: the FIFO flag has more
      written, and the end of transmission ends the loop when it comes alone. */
  lemma SendTurnEnds(s: Sender)
    requires s.phase.Sending?
    ensures var t, c := SendTurn(s), Drift(Drift(s.chip));
      match NextWake(s.chip)
      case Timeout => t.phase == Failed(-116) && t.cur == s.cur && t.later == s.later
      case Stop => t.phase == Failed(-140) && t.cur == s.cur && t.later == s.later
      case Irq(shown) =>
        var irq := Status(c, shown);
        && (t.phase.Sent? <==> irq == 0x80)
        && t == (if BitsOf(irq)[5] then FifoIrq(s.(chip := c)) else s.(chip := c)).(phase := t.phase)
  {
    hide Drift, BitsOf, Has, FifoIrq;
    match NextWake(s.chip)
    case Timeout =>
    case Stop =>
    case Irq(shown) =>
      var c := Drift(Drift(s.chip));
      FifoFlag(Status(c, shown));
      FifoIrqPhase(s.(chip := c));
  }

  lemma FifoFlag(irq: Byte)
    ensures Has(irq, IRQ_FIFO) <==> BitsOf(irq)[5]
    ensures irq == 0x80 ==> !BitsOf(irq)[5]
  {
  }

  lemma FifoIrqPhase(s: Sender)
    requires s.phase.Sending?
    ensures FifoIrq(s).phase.Sending? || FifoIrq(s).phase.PastList?
  {
  }

  // ----- Conservation -------------------------------------------------------------------

  /** The bytes the driver has still to write. */
  function Unsent(s: Sender): seq<Byte> {
    s.cur + Payload(s.later)
  }

  /** No byte of `all` is lost, doubled or out of order, and the FIFO does not overflow. While
      the chip sends, nothing of `stream` has come in; when it has turned to receiving,
      everything has been sent. */
  predicate Conserved(s: Sender, all: seq<Byte>, stream: seq<Byte>) {
    && !s.astray && ValidList(s.later) && |s.chip.fifo| <= FIFO_SIZE && s.chip.goal == |all|
    && (if s.chip.sending
        then s.chip.air + s.chip.fifo + Unsent(s) == all && s.chip.incoming == stream
        else s.chip.air == all && Unsent(s) == [] && s.chip.fifo + s.chip.incoming == stream)
  }

  lemma DriftConserves(s: Sender, all: seq<Byte>, stream: seq<Byte>)
    requires Conserved(s, all, stream)
    ensures Conserved(s.(chip := Drift(s.chip)), all, stream)
    ensures s.chip.sending ==> |Drift(s.chip).fifo| <= |s.chip.fifo|
  {
    hide Drift;
    if s.chip.sending {
      SendingDrift(s.chip, Unsent(s), all);
    } else {
      ReceivingDrift(s.chip);
    }
  }

  lemma SendingDrift(c: Chip, rest: seq<Byte>, all: seq<Byte>)
    requires c.sending && c.air + c.fifo + rest == all && c.goal == |all|
    ensures var d := Drift(c);
      && d.air + d.fifo + rest == all && |d.fifo| <= |c.fifo|
      && d.goal == c.goal && d.incoming == c.incoming
      && (!d.sending ==> d.fifo == [] && d.air == all && rest == [])
  {
    if c.moves != [] {
      var k := Least(c.moves[0].shift, |c.fifo|);
      assert c.fifo == c.fifo[..k] + c.fifo[k..];
      assert c.air + c.fifo[..k] + c.fifo[k..] == c.air + c.fifo;
    }
  }

  lemma ReceivingDrift(c: Chip)
    requires !c.sending && |c.fifo| <= FIFO_SIZE
    ensures var d := Drift(c);
      && d.fifo + d.incoming == c.fifo + c.incoming && |d.fifo| <= FIFO_SIZE
      && c.fifo <= d.fifo && d.air == c.air && d.goal == c.goal && !d.sending
  {
    if c.moves != [] {
      var k := Least(Least(c.moves[0].shift, |c.incoming|), FIFO_SIZE - |c.fifo|);
      assert c.incoming == c.incoming[..k] + c.incoming[k..];
    }
  }

  lemma Moved(air: seq<Byte>, fifo: seq<Byte>, cur: seq<Byte>, n: nat, later: seq<Byte>)
    requires n <= |cur|
    ensures air + (fifo + cur[..n]) + (cur[n..] + later) == air + fifo + (cur + later)
  {
    assert cur == cur[..n] + cur[n..];
  }

  lemma RefillConserves(s: Sender, all: seq<Byte>, stream: seq<Byte>)
    requires Conserved(s, all, stream) && s.cur != []
    ensures Conserved(Refill(s), all, stream) && Refill(s).phase == s.phase
  {
    hide Drift;
    var c := Drift(s.chip);
    DriftConserves(s, all, stream);
    var n := Least(|s.cur|, FIFO_SIZE - |c.fifo|);
    if n > 0 {
      var d := Drift(c);
      DriftConserves(s.(chip := c), all, stream);
      Moved(d.air, d.fifo, s.cur, n, Payload(s.later));
    }
  }

  lemma FifoIrqConserves(s: Sender, all: seq<Byte>, stream: seq<Byte>)
    requires Conserved(s, all, stream)
    ensures Conserved(FifoIrq(s), all, stream)
  {
    if s.cur == [] && s.listed {
      if s.later != [] {
        var t := s.(cur := s.later[0].data, later := s.later[1..]);
        assert Unsent(t) == Unsent(s);
        if t.cur != [] {
          RefillConserves(t, all, stream);
        }
      }
    } else if s.cur != [] {
      RefillConserves(s, all, stream);
    }
  }

  /** Whatever the chip does and whenever it interrupts, a turn of the loop conserves the bytes. */
  lemma SendTurnConserves(s: Sender, all: seq<Byte>, stream: seq<Byte>)
    requires Conserved(s, all, stream) && s.phase.Sending?
    ensures Conserved(SendTurn(s), all, stream)
    ensures SendTurn(s).phase.Sent? ==> !SendTurn(s).chip.sending
  {
    hide Drift, Has, FifoIrq, Payload;
    DriftConserves(s, all, stream);
    var t := s.(chip := Drift(s.chip));
    DriftConserves(t, all, stream);
    var u := t.(chip := Drift(t.chip));
    FifoIrqConserves(u, all, stream);
    if NextWake(s.chip).Irq? && u.chip.sending {
      NoTxWhileSending(NextWake(s.chip).status);
    }
    FifoIrqQuiet(u, all, stream);
  }

  lemma NoTxWhileSending(status: Byte)
    ensures status & 0x7F != IRQ_TX
  {
  }

  /** A chip that has turned to receiving is not written to. */
  lemma FifoIrqQuiet(s: Sender, all: seq<Byte>, stream: seq<Byte>)
    requires Conserved(s, all, stream)
    ensures !s.chip.sending ==> FifoIrq(s).chip == s.chip
    ensures s.phase.Sending? ==> !FifoIrq(s).phase.Sent?
  {
    if !s.chip.sending && s.cur == [] && s.listed && s.later != [] {
      assert Unsent(s)[..|s.later[0].data|] == s.later[0].data;
    }
  }

  lemma {:induction false} SendLoopConserves(s: Sender, all: seq<Byte>, stream: seq<Byte>)
    requires Conserved(s, all, stream) && s.phase.Sending?
    ensures var e := SendLoop(s);
      Conserved(e, all, stream) && (e.phase.Sent? ==> !e.chip.sending)
    decreases |s.chip.moves|
  {
    SendTurnConserves(s, all, stream);
    SendTurnShortens(s);
    if SendTurn(s).phase.Sending? {
      SendLoopConserves(SendTurn(s), all, stream);
    }
  }

  // ----- Where conservation starts ------------------------------------------------------

  /** With this much room in the FIFO, the first fill stops inside an entry or after the last
      one, and not on the boundary between two. */
  predicate StopsInside(tx: seq<Iovec>, room: nat)
    requires tx != []
    decreases |tx|
  {
    room > 0 &&
    (|| room < |tx[0].data|
     || |tx| == 1
     || (TotalBits(tx[1..]) > 0 && StopsInside(tx[1..], room - |tx[0].data|)))
  }

  /** What the driver has still to write after the first fill, in its own view. */
  function LeftOver(g: Gathered): seq<Byte>
    requires g.list != [] && g.sent <= |g.list[0].data|
  {
    g.list[0].data[g.sent..] + (if g.count == 0 then [] else Payload(g.list[1..]))
  }

  lemma {:induction false} FirstFill(list: seq<Iovec>, fifo: seq<Byte>, sent: nat)
    requires list != [] && ValidList(list) && TotalBits(list) > 0 && |fifo| < FIFO_SIZE
    ensures var g := Gather(list, fifo, sent);
      (g.sent <= |g.list[0].data| && g.fifo + LeftOver(g) == fifo + Payload(list))
        <==> StopsInside(list, FIFO_SIZE - |fifo|)
    decreases |list|
  {
    var n := Least(|list[0].data|, FIFO_SIZE - |fifo|);
    var more := fifo + list[0].data[..n];
    var g := Gather(list, fifo, sent);
    if n < |list[0].data| {
      assert list[0].data == list[0].data[..n] + list[0].data[n..];
      assert g.fifo + LeftOver(g) == fifo + Payload(list);
    } else {
      assert list[0].data[..n] == list[0].data;
      assert fifo + Payload(list) == more + Payload(list[1..]);
      if |list| == 1 {
        assert list[1..] == [] && Payload(list[1..]) == [];
        assert g.fifo + LeftOver(g) == fifo + Payload(list);
      } else if TotalBits(list[1..]) > 0 && |more| < FIFO_SIZE {
        FirstFill(list[1..], more, n);
      } else {
        assert n > 0;
        assert Gather(list[1..], more, n) == Gathered(more, list[1..], |list| - 1, n);
        assert g == Gathered(more, list[1..], |list| - 1, n);
        if g.sent <= |g.list[0].data| {
          assert |LeftOver(g)| == |Payload(list[1..])| - n;
        }
      }
    }
  }

  lemma {:induction false} PayloadSize(tx: seq<Iovec>)
    requires ValidList(tx)
    ensures TotalBits(tx) <= 8 * |Payload(tx)|
  {
    if tx == [] {
    } else {
      PayloadSize(tx[1..]);
    }
  }

  /** Only the last entry may end within a byte. */
  predicate WholeBytes(tx: seq<Iovec>) {
    forall i :: 0 <= i < |tx| - 1 ==> tx[i].bits % 8 == 0
  }

  lemma {:induction false} BytesOfBits(tx: seq<Iovec>)
    requires ValidList(tx) && WholeBytes(tx)
    ensures |Payload(tx)| == (TotalBits(tx) + 7) / 8
  {
    if |tx| == 1 {
      assert tx[1..] == [] && TotalBits(tx[1..]) == 0 && Payload(tx[1..]) == [];
    } else if tx != [] {
      assert tx[0].bits % 8 == 0;
      assert forall i :: 0 <= i < |tx[1..]| - 1 ==> tx[1..][i] == tx[i + 1];
      BytesOfBits(tx[1..]);
    }
  }

  lemma LoadedChip(tx: seq<Iovec>, crc: bool, c: Chip)
    requires tx != [] && ValidList(tx) && WholeBytes(tx) && TotalBits(tx) < 0x8000
    ensures Loaded(c, ReceiveAll(QUIET, Wire(tx, crc)))
      == c.(fifo := Gather(tx, [], 0).fifo, air := [], sending := true, goal := |Payload(tx)|)
  {
    hide Gather, Wire, ReceiveAll, AnnouncedBits;
    SpiRoundTrip(QUIET, tx, crc);
    GatherTakes(tx, [], 0);
    assert [] + Payload(tx) == Payload(tx);
    BytesOfBits(tx);
  }

  /** After the first fill nothing is lost exactly when it has not stopped on a boundary. */
  lemma ConservedFromStart(tx: seq<Iovec>, crc: bool, c: Chip)
    requires tx != [] && ValidList(tx) && WholeBytes(tx) && 0 < TotalBits(tx) < 0x8000
    ensures Conserved(Begin(tx, crc, c), Payload(tx), c.incoming) <==> StopsInside(tx, FIFO_SIZE)
  {
    hide Gather, StopsInside, Loaded, Wire, ReceiveAll, Least;
    var s, g := Begin(tx, crc, c), Gather(tx, [], 0);
    LoadedChip(tx, crc, c);
    FirstFill(tx, [], 0);
    LaterValid(tx, [], 0);
    assert [] + Payload(tx) == Payload(tx);
    assert [] + g.fifo == g.fifo;
    if !s.astray {
      assert Unsent(s) == LeftOver(g);
    }
  }

  /** A list whose first entry fills the FIFO: the driver takes its 127 bytes for the part of the
      second entry that is done, and its count of what is left wraps. */
  lemma BoundaryGoesAstray(crc: bool, c: Chip)
    ensures var tx := [Iovec(seq(127, _ => 0), 8 * 127), Iovec([0], 8)];
      && ValidList(tx) && WholeBytes(tx) && 0 < TotalBits(tx) < 0x8000
      && Begin(tx, crc, c).astray && !Conserved(Begin(tx, crc, c), Payload(tx), c.incoming)
  {
    var tx := [Iovec(seq(FIFO_SIZE, _ => 0), 8 * FIFO_SIZE), Iovec([0], 8)];
    assert tx[1..] == [Iovec([0], 8)] && tx[1..][1..] == [];
    assert TotalBits(tx[1..]) == 8;
    var fifo := [] + tx[0].data[..FIFO_SIZE];
    assert Gather(tx, [], 0) == Gather(tx[1..], fifo, FIFO_SIZE);
  }

  lemma {:induction false} LaterValid(list: seq<Iovec>, fifo: seq<Byte>, sent: nat)
    requires list != [] && |fifo| <= FIFO_SIZE && ValidList(list)
    ensures ValidList(Gather(list, fifo, sent).list)
    decreases |list|
  {
    if TotalBits(list) > 0 && |fifo| < FIFO_SIZE && |list| > 1 {
      var n := Least(|list[0].data|, FIFO_SIZE - |fifo|);
      if n == |list[0].data| {
        LaterValid(list[1..], fifo + list[0].data[..n], n);
      }
    }
  }

  /** Sending, from the call to the end of transmission: at every moment and for every schedule
      no byte is lost, and when the loop ends normally the whole list has gone out. */
  lemma SendDelivers(tx: seq<Iovec>, crc: bool, c: Chip)
    requires tx != [] && ValidList(tx) && WholeBytes(tx) && 0 < TotalBits(tx) < 0x8000
    requires StopsInside(tx, FIFO_SIZE)
    ensures var e := SendLoop(Begin(tx, crc, c));
      && Conserved(e, Payload(tx), c.incoming)
      && (e.phase.Sent? ==> !e.chip.sending && e.chip.air == Payload(tx))
  {
    ConservedFromStart(tx, crc, c);
    SendLoopConserves(Begin(tx, crc, c), Payload(tx), c.incoming);
  }

  // ----- Where the list ends ------------------------------------------------------------

  /** The whole list goes out with the first fill. */
  predicate SingleFill(tx: seq<Iovec>)
    requires tx != []
  {
    |Payload(tx)| <= FIFO_SIZE && tx[|tx| - 1].bits > 0
  }

  lemma {:induction false} LastBits(tx: seq<Iovec>)
    requires tx != [] && tx[|tx| - 1].bits > 0
    ensures TotalBits(tx) > 0
  {
    if |tx| == 1 {
    } else {
      LastBits(tx[1..]);
    }
  }

  lemma {:induction false} GatherCount(list: seq<Iovec>, fifo: seq<Byte>, sent: nat)
    requires list != [] && ValidList(list) && TotalBits(list) > 0 && |fifo| < FIFO_SIZE
    ensures var g := Gather(list, fifo, sent);
      && (g.count == 0 <==> |fifo| + |Payload(list)| <= FIFO_SIZE && list[|list| - 1].bits > 0)
      && (g.count == 0 ==> g.sent == |g.list[0].data|)
    decreases |list|
  {
    var n := Least(|list[0].data|, FIFO_SIZE - |fifo|);
    if n == |list[0].data| {
      var more := fifo + list[0].data[..n];
      if |list| == 1 {
        assert list[1..] == [] && Payload(list[1..]) == [] && TotalBits(list[1..]) == 0;
      } else {
        assert list[1..][|list| - 2] == list[|list| - 1];
        if TotalBits(list[1..]) > 0 && |more| < FIFO_SIZE {
          GatherCount(list[1..], more, n);
        } else if list[|list| - 1].bits > 0 {
          LastBits(list[1..]);
          PayloadSize(list[1..]);
        }
      }
    }
  }

  /** When everything went out with the first fill, the loop has nothing to write. */
  predicate Finished(s: Sender) {
    !s.phase.PastList? && s.cur == [] && !s.listed && !s.astray
  }

  lemma {:induction false} StaysFinished(s: Sender)
    requires Finished(s)
    ensures Finished(SendLoop(s))
    decreases |s.chip.moves|, if s.phase.Sending? then 1 else 0
  {
    if !s.phase.Sending? {
    } else {
      SendTurnShortens(s);
      StaysFinished(SendTurn(s));
    }
  }

  /** A chip that keeps up and keeps asking for more. */
  const BUSY := Move(FIFO_SIZE, false, Irq(IRQ_FIFO))

  predicate AllBusy(c: Chip) {
    c.sending && |c.fifo| <= FIFO_SIZE && forall i :: 0 <= i < |c.moves| ==> c.moves[i] == BUSY
  }

  /** An upper bound on the turns that writing the rest can take, plus one. */
  function Work(s: Sender): nat {
    1 + |s.cur| + LaterWork(s.later)
  }

  function LaterWork(later: seq<Iovec>): nat {
    if later == [] then 0 else 1 + |later[0].data| + LaterWork(later[1..])
  }

  lemma BusyDrift(c: Chip)
    requires AllBusy(c) && c.moves != []
    ensures AllBusy(Drift(c)) && Drift(c).fifo == [] && |Drift(c).moves| == |c.moves| - 1
  {
  }

  lemma BusyRefill(s: Sender)
    requires AllBusy(s.chip) && |s.chip.moves| >= 2 && s.cur != []
    ensures var t := Refill(s);
      && AllBusy(t.chip) && |t.chip.moves| >= |s.chip.moves| - 2
      && |t.cur| < |s.cur| && t.later == s.later
      && t.phase == s.phase && t.listed == s.listed && t.astray == s.astray
  {
    hide Drift;
    BusyDrift(s.chip);
    BusyDrift(Drift(s.chip));
  }

  lemma BusyTurn(s: Sender)
    requires s.phase.Sending? && s.listed && AllBusy(s.chip) && |s.chip.moves| >= 4
    ensures var t := SendTurn(s);
      || t.phase.PastList?
      || (t.phase.Sending? && t.listed && AllBusy(t.chip)
          && |t.chip.moves| >= |s.chip.moves| - 4 && Work(t) < Work(s))
  {
    hide Drift, Refill, Has;
    BusyDrift(s.chip);
    BusyDrift(Drift(s.chip));
    var u := s.(chip := Drift(Drift(s.chip)));
    FifoBit();
    if !u.astray {
      if u.cur != [] {
        BusyRefill(u);
      } else if u.later != [] {
        var v := u.(cur := u.later[0].data, later := u.later[1..]);
        if v.cur != [] { BusyRefill(v); }
      }
    }
  }

  lemma FifoBit()
    ensures Has(IRQ_FIFO & 0x7F, IRQ_FIFO) && IRQ_FIFO & 0x7F != IRQ_TX
  {
  }

  lemma {:induction false} BusyEndsPastList(s: Sender)
    requires s.phase.Sending? && s.listed && AllBusy(s.chip) && |s.chip.moves| >= 4 * Work(s)
    ensures SendLoop(s).phase.PastList?
    decreases Work(s)
  {
    BusyTurn(s);
    SendTurnShortens(s);
    if !SendTurn(s).phase.PastList? {
      BusyEndsPastList(SendTurn(s));
    }
  }

  /** The driver's count of entries is not updated while it refills, so that a FIFO interrupt
      after the last byte takes it beyond its list. No schedule can do that exactly when the
      list went out with the first fill. */
  lemma ListRespectedIffSingleFill(tx: seq<Iovec>, crc: bool, c: Chip)
    requires tx != [] && ValidList(tx) && TotalBits(tx) > 0
    ensures (forall moves :: !SendLoop(Begin(tx, crc, c.(moves := moves))).phase.PastList?)
      <==> SingleFill(tx)
  {
    hide Gather, SendTurn, Wire, ReceiveAll, AnnouncedBits;
    GatherCount(tx, [], 0);
    if SingleFill(tx) {
      forall moves
        ensures !SendLoop(Begin(tx, crc, c.(moves := moves))).phase.PastList?
      {
        StaysFinished(Begin(tx, crc, c.(moves := moves)));
      }
    } else {
      SpiRoundTrip(QUIET, tx, crc);
      var n := 4 * Work(Begin(tx, crc, c));
      var moves := seq(n, _ => BUSY);
      var s := Begin(tx, crc, c.(moves := moves));
      BusyEndsPastList(s);
    }
  }
}

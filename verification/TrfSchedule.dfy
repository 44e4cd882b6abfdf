/**
 * That a call of the transceiver driver can succeed: for every gather list it can send and every
 * answer there is a schedule of the chip under which the list goes out and the answer comes in.
 */
module TrfSchedule {
  import opened Bytes
  import opened TrfChip
  import opened TrfSend
  import opened TrfReceive

  const QUIET_MOVE := Move(0, false, Stop)

  /** The FIFO has run empty and everything is on the air. */
  const SENT_MOVE := Move(FIFO_SIZE, true, Irq(IRQ_TX))

  /** As much of the answer as the FIFO has room for has come in. */
  const COMES_IN := Move(FIFO_SIZE, false, Irq(IRQ_FIFO))

  const ALL_IN := Move(0, false, Irq(IRQ_SRX))

  function Scheduled(s: Sender, moves: seq<Move>): Sender {
    s.(chip := s.chip.(moves := moves))
  }

  function ReceiverWith(v: Receiver, moves: seq<Move>): Receiver {
    v.(chip := v.chip.(moves := moves))
  }

  // ----- Sending ------------------------------------------------------------------------

  /** A sender that has lost nothing, and knows of all the entries it has not come to. */
  predicate OnCourse(s: Sender, all: seq<Byte>, stream: seq<Byte>) {
    && s.phase.Sending? && s.chip.sending && Conserved(s, all, stream)
    && (s.later != [] ==> s.listed)
  }

  lemma BusyDrifts(c: Chip, rest: seq<Move>)
    requires c.sending && |c.fifo| <= FIFO_SIZE && c.moves == [BUSY] + rest
    ensures Drift(c) == c.(fifo := [], air := c.air + c.fifo, moves := rest)
  {
  }

  /** What a FIFO interrupt does to a sender whose FIFO has run empty. */
  function Filled(s: Sender): Sender
    requires s.cur != [] || s.later != []
  {
    var cur := if s.cur == [] then s.later[0].data else s.cur;
    var n := Least(|cur|, FIFO_SIZE);
    s.(chip := s.chip.(fifo := cur[..n], air := s.chip.air + s.chip.fifo),
       cur := cur[n..], later := if s.cur == [] then s.later[1..] else s.later)
  }

  /** The moves that takes: none for the FIFO when the next entry is empty. */
  function FillMoves(s: Sender): seq<Move>
    requires s.cur != [] || s.later != []
  {
    if s.cur == [] && s.later[0].data == [] then [BUSY, BUSY] else [BUSY, BUSY, BUSY, BUSY]
  }

  lemma FillTurn(s: Sender, rest: seq<Move>)
    requires s.phase.Sending? && s.chip.sending && |s.chip.fifo| <= FIFO_SIZE && !s.astray
    requires s.cur != [] || (s.listed && s.later != [])
    ensures SendTurn(Scheduled(s, FillMoves(s) + rest)) == Scheduled(Filled(s), rest)
    ensures Work(Filled(s)) < Work(s)
  {
    hide Drift, Has;
    var c := s.chip.(moves := FillMoves(s) + rest);
    var tail := FillMoves(s)[2..] + rest;
    BusyDrifts(c, [BUSY] + tail);
    BusyDrifts(Drift(c), tail);
    var d := Drift(Drift(c));
    assert d == s.chip.(fifo := [], air := s.chip.air + s.chip.fifo, moves := tail);
    if |tail| > |rest| {
      BusyDrifts(d, [BUSY] + rest);
      BusyDrifts(Drift(d), rest);
    }
    FifoBit();
  }

  /** The end of transmission, when everything has been written. */
  lemma LastDrift(c: Chip, rest: seq<Move>)
    requires c.sending && |c.fifo| <= FIFO_SIZE && c.goal <= |c.air| + |c.fifo|
    requires c.moves == [SENT_MOVE] + rest
    ensures var d := Drift(c); !d.sending && d.fifo == [] && d.incoming == c.incoming && d.moves == rest
  {
  }

  lemma QuietDrift(c: Chip, rest: seq<Move>)
    requires !c.sending && c.moves == [QUIET_MOVE] + rest
    ensures Drift(c) == c.(moves := rest)
  {
  }

  lemma SentTurn(s: Sender, all: seq<Byte>, stream: seq<Byte>, rest: seq<Move>)
    requires OnCourse(s, all, stream) && Unsent(s) == []
    ensures var t := SendTurn(Scheduled(s, [SENT_MOVE, QUIET_MOVE] + rest));
      t.phase.Sent? && !t.chip.sending && t.chip.fifo == [] && t.chip.moves == rest
  {
    hide Drift, Payload, ValidList;
    var u := Scheduled(s, [SENT_MOVE, QUIET_MOVE] + rest);
    assert s.chip.air + s.chip.fifo + [] == s.chip.air + s.chip.fifo;
    LastDrift(u.chip, [QUIET_MOVE] + rest);
    QuietDrift(Drift(u.chip), rest);
    SendTurnEnds(u);
    FifoFlag(0x80);
  }

  lemma NothingLater(s: Sender)
    requires Unsent(s) != []
    ensures s.cur != [] || s.later != []
  {
  }

  lemma NextEntry(s: Sender)
    requires ValidList(s.later) && s.cur == [] && s.later != []
    ensures Unsent(s) == s.later[0].data + Payload(s.later[1..]) && ValidList(s.later[1..])
  {
  }

  lemma StaysOnCourse(s: Sender, all: seq<Byte>, stream: seq<Byte>)
    requires OnCourse(s, all, stream) && (s.cur != [] || (s.listed && s.later != []))
    ensures OnCourse(Filled(s), all, stream)
  {
    hide Payload, ValidList;
    if s.cur == [] {
      NextEntry(s);
    }
    var t := Filled(s);
    var cur := if s.cur == [] then s.later[0].data else s.cur;
    var n := Least(|cur|, FIFO_SIZE);
    Moved(t.chip.air, [], cur, n, Payload(t.later));
    assert [] + cur[..n] == cur[..n] && t.chip.air + [] == t.chip.air;
  }

  /** However much there is to write: a schedule that gets it out, followed by any other. */
  lemma {:induction false} SendAll(s: Sender, all: seq<Byte>, stream: seq<Byte>, rest: seq<Move>)
    returns (moves: seq<Move>)
    requires OnCourse(s, all, stream)
    ensures var t := SendLoop(Scheduled(s, moves));
      t.phase.Sent? && !t.chip.sending && t.chip.fifo == [] && t.chip.moves == rest
    decreases Work(s)
  {
    hide SendTurn, Payload, ValidList;
    if Unsent(s) == [] {
      moves := [SENT_MOVE, QUIET_MOVE] + rest;
      SentTurn(s, all, stream, rest);
    } else {
      NothingLater(s);
      FillTurn(s, []);
      StaysOnCourse(s, all, stream);
      moves := SendAll(Filled(s), all, stream, rest);
      FillTurn(s, moves);
      moves := FillMoves(s) + moves;
    }
  }

  // ----- Receiving ----------------------------------------------------------------------

  /** What a FIFO interrupt does when the FIFO was empty, and as much has come in as fits. */
  function Taken(v: Receiver): Receiver {
    var come := v.chip.incoming[..Least(FIFO_SIZE, |v.chip.incoming|)];
    var n := Least(v.room, |come|);
    v.(chip := v.chip.(fifo := [], incoming := v.chip.incoming[|come|..]),
       got := v.got + come[..n], room := v.room - n, taken := v.taken + come[..n] + come[n..])
  }

  /** The moves that takes: one for each read of the FIFO that is not empty. */
  function TakeMoves(v: Receiver): seq<Move> {
    var shown := Least(FIFO_SIZE, |v.chip.incoming|);
    [COMES_IN, QUIET_MOVE, QUIET_MOVE]
      + (if v.room > 0 && shown > 0 then [QUIET_MOVE] else [])
      + (if shown > v.room then [QUIET_MOVE] else [])
  }

  lemma ComesIn(c: Chip, rest: seq<Move>)
    requires !c.sending && c.fifo == [] && c.moves == [COMES_IN] + rest
    ensures var n := Least(FIFO_SIZE, |c.incoming|);
      Drift(c) == c.(fifo := c.incoming[..n], incoming := c.incoming[n..], moves := rest)
  {
  }

  lemma QuietRead(c: Chip, n: nat, moves: seq<Move>, rest: seq<Move>)
    requires !c.sending && n <= |c.fifo| && c.moves == moves + rest
    requires moves == if n > 0 then [QUIET_MOVE] else []
    ensures ReadFifo(c, n) == (c.(fifo := c.fifo[n..], moves := rest), c.fifo[..n])
  {
    hide Drift;
    if n > 0 {
      QuietDrift(c, rest);
    } else {
      assert [] + rest == rest && c.fifo[0..] == c.fifo;
    }
  }

  lemma QuietDrain(v: Receiver, rest: seq<Move>)
    requires !v.chip.sending
    requires var shown := |v.chip.fifo|;
      v.chip.moves == [QUIET_MOVE] + (if v.room > 0 && shown > 0 then [QUIET_MOVE] else [])
                      + (if shown > v.room then [QUIET_MOVE] else []) + rest
    ensures var fifo, n := v.chip.fifo, Least(v.room, |v.chip.fifo|);
      Drain(v) == v.(chip := v.chip.(fifo := [], moves := rest), got := v.got + fifo[..n],
                     room := v.room - n, taken := v.taken + fifo[..n] + fifo[n..])
  {
    hide Drift, ReadFifo;
    var shown := |v.chip.fifo|;
    var first := if v.room > 0 && shown > 0 then [QUIET_MOVE] else [];
    var second := if shown > v.room then [QUIET_MOVE] else [];
    var n := Least(v.room, shown);
    QuietDrift(v.chip, first + (second + rest));
    var c := Drift(v.chip);
    QuietRead(c, n, first, second + rest);
    var d := ReadFifo(c, n).0;
    QuietRead(d, shown - n, second, rest);
    assert d.fifo[..shown - n] == v.chip.fifo[n..] && d.fifo[shown - n..] == [];
  }

  lemma TakeTurn(v: Receiver, rest: seq<Move>)
    requires v.phase.Receiving? && !v.chip.sending && v.chip.fifo == []
    ensures ReceiveTurn(ReceiverWith(v, TakeMoves(v) + rest)) == ReceiverWith(Taken(v), rest)
  {
    hide Drift, Drain;
    var c := v.chip.(moves := TakeMoves(v) + rest);
    ComesIn(c, TakeMoves(v)[1..] + rest);
    var d := Drift(c);
    QuietDrift(d, TakeMoves(v)[2..] + rest);
    QuietDrain(v.(chip := Drift(d)), rest);
    ReceiveFlags();
  }

  lemma ReceiveFlags()
    ensures !Has(IRQ_FIFO, IRQ_ERROR) && Has(IRQ_FIFO, IRQ_FIFO | IRQ_SRX)
    ensures !Has(IRQ_SRX, IRQ_ERROR) && Has(IRQ_SRX, IRQ_FIFO | IRQ_SRX)
  {
  }

  /** The end of reception, when everything has been taken. */
  lemma LastTurn(v: Receiver)
    requires v.phase.Receiving? && !v.chip.sending && v.chip.fifo == [] && v.chip.incoming == []
    ensures var w := ReceiveTurn(ReceiverWith(v, [ALL_IN]));
      && w.phase.Received? && w.chip.fifo == [] && w.chip.incoming == []
      && Drift(Drift(v.chip.(moves := [ALL_IN]))).incoming == []
  {
    var c := v.chip.(moves := [ALL_IN]);
    assert Drift(c) == c.(moves := []) && Drift(Drift(c)) == c.(moves := []);
    ReceiveFlags();
  }

  /** However long the answer: a schedule that gets all of it out of the FIFO. */
  lemma {:induction false} TakeAll(v: Receiver) returns (moves: seq<Move>)
    requires v.phase.Receiving? && !v.chip.sending && v.chip.fifo == []
    ensures var w := ReceiveLoop(ReceiverWith(v, moves));
      && w.phase.Received? && w.chip.fifo == [] && w.chip.incoming == []
      && AtLastStatus(ReceiverWith(v, moves)).incoming == []
    decreases |v.chip.incoming|
  {
    hide ReceiveTurn;
    if v.chip.incoming == [] {
      moves := [ALL_IN];
      LastTurn(v);
    } else {
      moves := TakeAll(Taken(v));
      TakeTurn(v, moves);
      moves := TakeMoves(v) + moves;
    }
  }

  // ----- The whole call -----------------------------------------------------------------

  /** The chip when all has been sent and nothing has come in. */
  function SentChip(all: seq<Byte>, stream: seq<Byte>, moves: seq<Move>): Chip {
    Chip([], all, |all|, false, stream, moves)
  }

  lemma SentChipOf(s: Sender, all: seq<Byte>, stream: seq<Byte>)
    requires Conserved(s, all, stream) && !s.chip.sending && s.chip.fifo == []
    ensures s.chip == SentChip(all, stream, s.chip.moves)
  {
    assert [] + s.chip.incoming == s.chip.incoming;
  }

  lemma StartsOnCourse(tx: seq<Iovec>, c: Chip)
    requires tx != [] && ValidList(tx) && WholeBytes(tx) && 0 < TotalBits(tx) < 0x8000
    requires StopsInside(tx, FIFO_SIZE)
    ensures OnCourse(Begin(tx, false, c), Payload(tx), c.incoming)
  {
    hide Gather, Wire, ReceiveAll, StopsInside, Conserved;
    ConservedFromStart(tx, false, c);
  }

  lemma BeginScheduled(tx: seq<Iovec>, c: Chip, moves: seq<Move>)
    requires tx != []
    ensures Begin(tx, false, c.(moves := moves)) == Scheduled(Begin(tx, false, c), moves)
  {
    hide Gather, Wire, ReceiveAll, AnnouncedBits;
  }

  /** For every list that does not stop on a boundary and every answer there is a schedule under
      which the call returns the answer, cut at the caller's room, and the list has gone out. */
  lemma CallSucceeds(tx: seq<Iovec>, c: Chip, capacity: nat)
    requires tx != [] && ValidList(tx) && WholeBytes(tx) && 0 < TotalBits(tx) < 0x8000
    requires StopsInside(tx, FIFO_SIZE)
    ensures exists moves ::
              var (result, v) := Transceived(tx, c.(moves := moves), capacity);
              && result == Return(|v.got|) && v.got == Take(c.incoming, capacity)
              && v.chip.air == Payload(tx) && AllIn(tx, c.(moves := moves), capacity)
  {
    hide Begin, SendLoop, ReceiveLoop, AtLastStatus, Conserved, Payload, TotalBits, ValidList, WholeBytes, StopsInside;
    var all, s := Payload(tx), Begin(tx, false, c);
    var receiving := TakeAll(StartReceiving(SentChip(all, c.incoming, []), capacity));
    StartsOnCourse(tx, c);
    var sending := SendAll(s, all, c.incoming, receiving);
    var d := c.(moves := [QUIET_MOVE] + sending);
    assert Pause(d) == c.(moves := sending);
    BeginScheduled(tx, c, sending);
    SendDelivers(tx, false, Pause(d));
    var e := SendLoop(Begin(tx, false, Pause(d)));
    SentChipOf(e, all, c.incoming);
    var (result, v) := Transceived(tx, d, capacity);
    assert AllIn(tx, d, capacity);
    TransceiveDelivers(tx, d, capacity);
  }
}

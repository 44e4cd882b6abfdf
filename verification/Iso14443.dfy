/** The ISO/IEC 14443 driver (libs/nfc/iso14443.c, libs/nfc/iso14443a.c) as an object. */
module Iso14443 {
  import opened Bytes
  import opened Blocks
  import opened CrcA
  import opened Link
  import opened TclReader
  import Lifecycle
  import opened Activation

  /** The reader `r` with the device's `script` still to come and `sent` behind it is on the run
      that began with `r0`, `script0` and `sent0`. */
  ghost predicate OnRun(r: Reader, script: seq<Answer>, sent: seq<Request>,
                        r0: Reader, script0: seq<Answer>, sent0: seq<Request>)
  {
    && r.Valid() && r0.Valid()
    && Finish(r, script) == Finish(r0, script0)
    && Unused(r, script) == Unused(r0, script0)
    && sent + Frames(r, script) == sent0 + Frames(r0, script0)
  }

  lemma RunStep(r: Reader, script: seq<Answer>, sent: seq<Request>,
                r0: Reader, script0: seq<Answer>, sent0: seq<Request>)
    requires OnRun(r, script, sent, r0, script0, sent0) && !r.phase.Done?
    ensures OnRun(Step(r, Next(script)), Later(script), sent + [Full(WithCrc(Out(r)))],
                  r0, script0, sent0)
  {
    var s := Step(r, Next(script));
    assert Frames(r, script) == [Full(WithCrc(Out(r)))] + Frames(s, Later(script));
    assert sent + ([Full(WithCrc(Out(r)))] + Frames(s, Later(script)))
        == sent + [Full(WithCrc(Out(r)))] + Frames(s, Later(script));
  }

  /** A run that has ended. */
  lemma RunEnds(r: Reader, script: seq<Answer>, sent: seq<Request>,
                r0: Reader, script0: seq<Answer>, sent0: seq<Request>)
    requires OnRun(r, script, sent, r0, script0, sent0) && r.phase.Done?
    ensures r0.Valid() && Finish(r0, script0) == r && Unused(r0, script0) == script
    ensures sent == sent0 + Frames(r0, script0)
  {
    assert sent + [] == sent;
  }

  lemma RunStarts(r: Reader, script: seq<Answer>, sent: seq<Request>)
    requires r.Valid()
    ensures OnRun(r, script, sent, r, script, sent)
  {
  }

  lemma RunTrans(r: Reader, script: seq<Answer>, sent: seq<Request>,
                 r1: Reader, script1: seq<Answer>, sent1: seq<Request>,
                 r0: Reader, script0: seq<Answer>, sent0: seq<Request>)
    requires OnRun(r, script, sent, r1, script1, sent1)
    requires OnRun(r1, script1, sent1, r0, script0, sent0)
    ensures OnRun(r, script, sent, r0, script0, sent0)
  {
  }

  lemma ChainAnswer(r: Reader, a: Answer)
    requires r.Valid() && r.InChain()
    ensures Returned(a, 3) < 3 ==> Step(r, a) == Fail(Listen(r, a))
    ensures 3 <= Returned(a, 3) ==> Step(r, a) == StepChain(Listen(r, a))
  {
  }

  lemma ReplyAnswer(r: Reader, a: Answer)
    requires r.Valid() && (r.phase.Replying? || r.phase.ReplyWtx?)
    ensures Returned(a, MAX_FRAME_SIZE) < 3 ==> Step(r, a) == Fail(Listen(r, a))
    ensures 3 <= Returned(a, MAX_FRAME_SIZE) ==>
      && Returned(a, MAX_FRAME_SIZE) == |Heard(a, MAX_FRAME_SIZE)|
      && Step(r, a) == StepReply(Listen(r, a), |Heard(a, MAX_FRAME_SIZE)|)
  {
  }

  /** The cascade loop that has come to `s`, having sent `sent`, began as `s0` after `sent0`. */
  ghost predicate OnLoop(s: Selection, sent: seq<Request>, s0: Selection, sent0: seq<Request>) {
    && s0 == s.(sent := s0.sent)
    && sent0 + s0.sent == sent + s.sent
  }

  lemma LoopSends(request: Request, s: Selection, sent: seq<Request>, s0: Selection, sent0: seq<Request>)
    requires OnLoop(Before(request, s), sent, s0, sent0)
    ensures OnLoop(s, sent + [request], s0, sent0)
  {
    assert sent + ([request] + s.sent) == sent + [request] + s.sent;
  }

  lemma ChainGrants(l: Reader)
    requires l.Valid() && l.InChain() && IsWtx(l.buf[0])
    ensures StepChain(l) == GrantWtx(l, ChainWtx)
  {
    WtxIsNoIBlock(l.buf[0]);
  }

  lemma ReplyGrants(l: Reader, n: nat)
    requires l.Valid() && (l.phase.Replying? || l.phase.ReplyWtx?) && n <= MAX_FRAME_SIZE
    requires IsWtx(l.buf[0])
    ensures StepReply(l, n) == GrantWtx(l, ReplyWtx)
  {
  }

  /** The shapes of the uninitialised buffers of nfc_iso14443a_open. */
  predicate StackShape(buf: seq<Byte>, stack: seq<seq<Byte>>) {
    |buf| == 8 && |stack| == 3 && forall i :: 0 <= i < 3 ==> |stack[i]| == 3
  }

  class Driver {
    const dev: Device
    const ats: array<Byte>
    var state: Lifecycle.State
    var atqa: seq<Byte>
    var nfcid: seq<Byte>
    var sak: Byte
    var fsd: nat
    var fsc: nat
    var fwt: nat
    var block: Counter

    /** nfc_iso14443a_driver_init; the other fields keep what memory holds. */
    constructor (dev: Device)
      ensures this.dev == dev && state == Lifecycle.PowerOff && ats.Length == 7
    {
      this.dev := dev;
      ats := new Byte[7];
      state := Lifecycle.PowerOff;
      atqa, nfcid := *, *;
      sak, fsd, fsc, fwt, block := *, *, *, *, *;
    }

    /** The fields that activation writes. */
    function Fields(): Profile
      reads this, ats
    {
      Profile(atqa, nfcid, sak, ats[..], fsc, fwt)
    }

    /** nfc_iso14443a_transceive: appends the checksum. */
    method L3Transceive(tx: array<Byte>, txlen: nat, rx: array<Byte>, capacity: nat) returns (n: int)
      requires txlen <= tx.Length && capacity <= rx.Length
      modifies dev`script, dev`sent, rx
      ensures dev.sent == old(dev.sent) + [Full(WithCrc(old(tx[..txlen])))]
      ensures dev.script == Later(old(dev.script))
      ensures n == Returned(Next(old(dev.script)), capacity)
      ensures rx[..] == Overwrite(old(rx[..]), 0, Heard(Next(old(dev.script)), capacity))
    {
      var crc := Compute(tx, txlen);
      n := dev.Transceive(Full(tx[..txlen] + [Low(crc), High(crc)]), rx, 0, capacity);
    }

    /** Puts a header and `size` bytes of the request into the buffer. */
    method Load(buffer: array<Byte>, header: Byte, tx: array<Byte>, pos: nat, size: nat)
      requires buffer != tx && pos + size <= tx.Length && size + 1 <= buffer.Length
      modifies buffer
      ensures buffer[..] == Overwrite(old(buffer[..]), 0, [header] + tx[pos..pos + size])
    {
      buffer[0] := header;
      forall i | 0 <= i < size {
        buffer[1 + i] := tx[pos + i];
      }
    }

    /** The chaining loop of nfc_iso14443_transceive. `q` is the reader before it prepares its
        first block; on success `r` is the reader before it prepares the last one. A piece that does
        not fit the buffer ends it with `Overrun`. */
    method SendChained(tx: array<Byte>, txlen: nat, inf: nat, buffer: array<Byte>, ghost q: Reader)
      returns (ok: bool, outcome: Outcome, pos: nat, ghost r: Reader)
      requires txlen <= tx.Length && buffer.Length == MAX_FRAME_SIZE && buffer != tx
      requires q == Reader(Chaining, inf, block, buffer[..], tx[..txlen], [], q.room)
      modifies this`block, dev`script, dev`sent, buffer
      ensures pos <= txlen
      ensures ok ==>
        && r == Reader(Chaining, inf, block, buffer[..], tx[pos..txlen], [], q.room)
        && |r.tx| <= inf
        && OnRun(Prepare(r), dev.script, dev.sent, Prepare(q), old(dev.script), old(dev.sent))
      ensures !ok ==>
        && r.Valid() && r.phase == Done(outcome) && r.block == block && r.rx == []
        && OnRun(r, dev.script, dev.sent, Prepare(q), old(dev.script), old(dev.sent))
    {
      hide OnRun, Number, IHeader, Overwrite;
      ghost var script0, sent0, r0 := dev.script, dev.sent, Prepare(q);
      RunStarts(r0, script0, sent0);
      r, pos, outcome := q, 0, Return(EIO);
      while txlen - pos > inf
        invariant pos <= txlen
        invariant r == Reader(Chaining, inf, block, buffer[..], tx[pos..txlen], [], q.room)
        invariant OnRun(Prepare(r), dev.script, dev.sent, r0, script0, sent0)
        invariant outcome == Return(EIO)
        decreases |dev.script|
      {
        if inf >= MAX_FRAME_SIZE {
          return false, Overrun, pos, Prepare(r);
        }
        Load(buffer, IHeader(true, Number(block)), tx, pos, inf);
        assert tx[pos..txlen][..inf] == tx[pos..pos + inf];
        r := Prepare(r);
        ok, r := AwaitAck(inf, buffer, r, r0, script0, sent0);
        if !ok {
          return;
        }
        assert tx[pos..txlen][inf..] == tx[pos + inf..txlen];
        pos := pos + inf;
        block := Increment(block);
      }
      ok := true;
    }

    /** Its body: the block is sent until the card acknowledges it. */
    method AwaitAck(inf: nat, buffer: array<Byte>, ghost p: Reader,
                    ghost r0: Reader, ghost script0: seq<Answer>, ghost sent0: seq<Request>)
      returns (ok: bool, ghost r: Reader)
      requires buffer.Length == MAX_FRAME_SIZE && p.Valid() && p.phase.Chaining?
      requires buffer[..] == p.buf && p.inf == inf && p.block == block && p.rx == []
      requires OnRun(p, dev.script, dev.sent, r0, script0, sent0)
      modifies dev`script, dev`sent, buffer
      ensures ok ==>
        && r == p.(buf := buffer[..], tx := p.tx[inf..], block := Increment(p.block))
        && OnRun(Prepare(r), dev.script, dev.sent, r0, script0, sent0)
        && |dev.script| < old(|dev.script|)
      ensures !ok ==>
        && r.Valid() && r.phase == Done(Return(EIO)) && r.block == p.block && r.rx == []
        && OnRun(r, dev.script, dev.sent, r0, script0, sent0)
    {
      hide OnRun, Step, IsIBlock, IsWtx, IsAck, Toggle, Number, WithCrc, Overwrite, Heard;
      r := p;
      while true
        invariant r == p.(buf := buffer[..])
        invariant OnRun(r, dev.script, dev.sent, r0, script0, sent0)
        invariant |dev.script| <= old(|dev.script|)
        decreases |dev.script|
      {
        RunStep(r, dev.script, dev.sent, r0, script0, sent0);
        ghost var a := Next(dev.script);
        ChainAnswer(r, a);
        var n := L3Transceive(buffer, inf + 1, buffer, 3);
        if n < 3 {
          r := Step(r, a);
          return false, r;
        }
        ghost var l := Listen(r, a);
        if IsIBlock(buffer[0]) {
          r := Step(r, a);
          return false, r;
        }
        ok, l := WaitForAck(buffer, l, r0, script0, sent0);
        if !ok {
          return false, l;
        }
        if !IsAck(buffer[0]) {
          r := StepChain(l);
          return false, r;
        }
        if Toggle(buffer[0]) == Number(block) {
          r := l.(phase := Chaining, tx := l.tx[inf..], block := Increment(l.block));
          return true, r;
        }
        r := l.(phase := Chaining);
      }
    }

    /** Its waiting loop: S(WTX) requests are granted until something else comes in. When the
        link fails, `l` is the end of the run. */
    method WaitForAck(buffer: array<Byte>, ghost h: Reader,
                      ghost r0: Reader, ghost script0: seq<Answer>, ghost sent0: seq<Request>)
      returns (ok: bool, ghost l: Reader)
      requires buffer.Length == MAX_FRAME_SIZE && !IsIBlock(buffer[0])
      requires h.Valid() && h.InChain() && h.buf == buffer[..]
      requires OnRun(StepChain(h), dev.script, dev.sent, r0, script0, sent0)
      modifies dev`script, dev`sent, buffer
      ensures |dev.script| <= old(|dev.script|)
      ensures l == h.(buf := l.buf, phase := l.phase) && l.Valid()
      ensures ok ==>
        && l.InChain() && l.buf == buffer[..] && !IsWtx(buffer[0])
        && (l.phase.Chaining? ==> !IsIBlock(buffer[0]))
        && OnRun(StepChain(l), dev.script, dev.sent, r0, script0, sent0)
      ensures !ok ==>
        && l.phase == Done(Return(EIO))
        && OnRun(l, dev.script, dev.sent, r0, script0, sent0)
    {
      hide OnRun, Step, StepChain, IsIBlock, IsWtx, WithCrc, Overwrite, Heard, Granted;
      l := h;
      while IsWtx(buffer[0])
        invariant l.Valid() && l.InChain() && l == h.(buf := buffer[..], phase := l.phase)
        invariant |dev.script| <= old(|dev.script|)
        invariant l.phase.Chaining? ==> !IsIBlock(buffer[0])
        invariant OnRun(StepChain(l), dev.script, dev.sent, r0, script0, sent0)
        decreases |dev.script|
      {
        ChainGrants(l);
        buffer[1] := Granted(buffer[1]);
        ghost var w := StepChain(l);
        assert w.buf == buffer[..];
        RunStep(w, dev.script, dev.sent, r0, script0, sent0);
        ghost var a := Next(dev.script);
        ChainAnswer(w, a);
        var n := L3Transceive(buffer, 2, buffer, 3);
        if n < 3 {
          return false, Step(w, a);
        }
        l := Listen(w, a);
      }
      ok := true;
    }

    /** The reply loop of nfc_iso14443_transceive. `p` is the reader with the last block in the
        buffer. */
    method ReceiveReply(txlen: nat, buffer: array<Byte>, rx: array<Byte>, rxlen: nat, ghost p: Reader)
      returns (outcome: Outcome, ghost r: Reader)
      requires buffer.Length == MAX_FRAME_SIZE && rx != buffer && rxlen <= rx.Length
      requires p.Valid() && p.phase.Replying? && buffer[..] == p.buf && p.block == block
      requires |p.tx| == txlen && p.rx == [] && p.room == rxlen
      modifies this`block, dev`script, dev`sent, buffer, rx
      ensures r.Valid() && r.phase == Done(outcome) && r.block == block && |r.rx| <= rxlen
      ensures rx[..] == Overwrite(old(rx[..]), 0, r.rx)
      ensures OnRun(r, dev.script, dev.sent, p, old(dev.script), old(dev.sent))
    {
      hide OnRun, Step;
      ghost var script0, sent0, rx0 := dev.script, dev.sent, rx[..];
      RunStarts(p, script0, sent0);
      r := p;
      var n, received := txlen, 0;
      while true
        invariant r.Valid() && r.phase.Replying? && r.buf == buffer[..] && r.block == block
        invariant |r.tx| == n && |r.rx| == received && received + r.room == rxlen
        invariant rx[..] == Overwrite(rx0, 0, r.rx)
        invariant OnRun(r, dev.script, dev.sent, p, script0, sent0)
        decreases |dev.script|
      {
        RunStep(r, dev.script, dev.sent, p, script0, sent0);
        ghost var a := Next(dev.script);
        ReplyAnswer(r, a);
        var i := L3Transceive(buffer, n + 1, buffer, MAX_FRAME_SIZE);
        if i < 3 {
          r := Step(r, a);
          return Return(EIO), r;
        }
        ghost var l := Listen(r, a);
        i, l := WaitForReply(i, buffer, l, p, script0, sent0);
        if i < 3 {
          return Return(EIO), l;
        }
        r := StepReply(l, i);
        if !IsIBlock(buffer[0]) {
          return Return(EIO), r;
        }
        var last;
        last, outcome, received := TakeBlock(i, buffer, rx, received, rxlen, l, rx0);
        if last {
          return outcome, r;
        }
        n := 0;
      }
    }

    /** Its waiting loop: S(WTX) requests are granted until something else comes in. When the
        link fails, `l` is the end of the run. */
    method WaitForReply(first: int, buffer: array<Byte>, ghost h: Reader,
                        ghost p: Reader, ghost script0: seq<Answer>, ghost sent0: seq<Request>)
      returns (i: int, ghost l: Reader)
      requires buffer.Length == MAX_FRAME_SIZE && 3 <= first <= MAX_FRAME_SIZE
      requires h.Valid() && (h.phase.Replying? || h.phase.ReplyWtx?) && h.buf == buffer[..]
      requires OnRun(StepReply(h, first), dev.script, dev.sent, p, script0, sent0)
      modifies dev`script, dev`sent, buffer
      ensures |dev.script| <= old(|dev.script|)
      ensures l == h.(buf := l.buf, phase := l.phase) && l.Valid()
      ensures 3 <= i ==>
        && i <= MAX_FRAME_SIZE && (l.phase.Replying? || l.phase.ReplyWtx?)
        && l.buf == buffer[..] && !IsWtx(buffer[0])
        && OnRun(StepReply(l, i), dev.script, dev.sent, p, script0, sent0)
      ensures i < 3 ==>
        && l.phase == Done(Return(EIO))
        && OnRun(l, dev.script, dev.sent, p, script0, sent0)
    {
      hide OnRun, Step, StepReply, IsWtx, WithCrc, Overwrite, Heard, Granted;
      i, l := first, h;
      while IsWtx(buffer[0])
        invariant l.Valid() && (l.phase.Replying? || l.phase.ReplyWtx?)
        invariant l == h.(buf := buffer[..], phase := l.phase)
        invariant 3 <= i <= MAX_FRAME_SIZE && |dev.script| <= old(|dev.script|)
        invariant OnRun(StepReply(l, i), dev.script, dev.sent, p, script0, sent0)
        decreases |dev.script|
      {
        ReplyGrants(l, i);
        buffer[1] := Granted(buffer[1]);
        ghost var w := StepReply(l, i);
        assert w.buf == buffer[..];
        RunStep(w, dev.script, dev.sent, p, script0, sent0);
        ghost var a := Next(dev.script);
        ReplyAnswer(w, a);
        i := L3Transceive(buffer, 2, buffer, MAX_FRAME_SIZE);
        if i < 3 {
          return i, Step(w, a);
        }
        l := Listen(w, a);
      }
    }

    /** Its body, once an I-block of `i` bytes is in the buffer: the INF field goes to the caller
        and, if more is to come, the acknowledgement to the buffer. */
    method TakeBlock(i: nat, buffer: array<Byte>, rx: array<Byte>, received: nat, rxlen: nat,
                     ghost l: Reader, ghost rx0: seq<Byte>)
      returns (last: bool, outcome: Outcome, received': nat)
      requires buffer.Length == MAX_FRAME_SIZE && rx != buffer && rxlen <= rx.Length
      requires l.Valid() && (l.phase.Replying? || l.phase.ReplyWtx?)
      requires l.buf == buffer[..] && l.block == block && i <= MAX_FRAME_SIZE
      requires |l.rx| == received && received + l.room == rxlen
      requires |rx0| == rx.Length && rx[..] == Overwrite(rx0, 0, l.rx)
      requires IsIBlock(buffer[0]) && !IsWtx(buffer[0])
      modifies this`block, buffer, rx
      ensures var r := StepReply(l, i);
        && r.block == block && |r.rx| == received' && received' + r.room == rxlen
        && rx[..] == Overwrite(rx0, 0, r.rx)
        && (last ==> r.phase == Done(outcome))
        && (!last ==> r.phase.Replying? && r.tx == [] && r.buf == buffer[..])
    {
      hide Overwrite, IsIBlock, IsWtx, HasCid, HasNad, Toggle, Number, IsChained, AckHeader;
      received' := received;
      var header := 1;
      if HasCid(buffer[0]) {
        header := header + 1;
      }
      if HasNad(buffer[0]) {
        header := header + 1;
      }
      assert header == HeaderSize(buffer[0]);
      if Toggle(buffer[0]) == Number(block) {
        var size := CopySize(i, buffer[0], rxlen - received);
        if header + size > MAX_FRAME_SIZE {
          return true, Overrun, received';
        }
        CopyOut(buffer, header, size, rx, received);
        OverwriteTwice(rx0, l.rx, l.buf[header..header + size]);
        received' := received + size;
      } else {
        assert l.buf[header..header] == [] && l.rx + [] == l.rx;
      }
      block := Increment(block);
      if !IsChained(buffer[0]) {
        return true, Return(received'), received';
      }
      buffer[0] := AckHeader(Number(block));
      return false, Return(received'), received';
    }

    /** memcpy. */
    method CopyOut(from: array<Byte>, offset: nat, size: nat, to: array<Byte>, at: nat)
      requires from != to && offset + size <= from.Length && at + size <= to.Length
      modifies to
      ensures to[..] == Overwrite(old(to[..]), at, from[offset..offset + size])
    {
      forall k | 0 <= k < size {
        to[at + k] := from[offset + k];
      }
    }

    /** nfc_iso14443_transceive, the block protocol. What the buffer holds at first is `stack`.
        The caller's two buffers may be the same one. */
    method ExchangeBlocks(tx: array<Byte>, txlen: nat, rx: array<Byte>, rxlen: nat)
      returns (outcome: Outcome, ghost stack: seq<Byte>)
      requires txlen <= tx.Length && rxlen <= rx.Length
      modifies this`block, dev`script, dev`sent, rx
      ensures |stack| == MAX_FRAME_SIZE
      ensures var r := Start(old(block), InfSize(fsd, fsc), stack, old(tx[..txlen]), rxlen);
        var end := Finish(r, old(dev.script));
        && end.phase == Done(outcome) && block == end.block && |end.rx| <= rxlen
        && rx[..] == Overwrite(old(rx[..]), 0, end.rx)
        && dev.script == Unused(r, old(dev.script))
        && dev.sent == old(dev.sent) + Frames(r, old(dev.script))
    {
      hide Finish, Frames, Unused, OnRun, IHeader, Number, InfSize, WithCrc;
      var buffer := new Byte[MAX_FRAME_SIZE];
      var inf := InfSize(fsd, fsc);
      stack := buffer[..];
      ghost var script0, sent0 := dev.script, dev.sent;
      ghost var q := Reader(Chaining, inf, block, stack, tx[..txlen], [], rxlen);
      var ok, pos;
      ghost var r;
      ok, outcome, pos, r := SendChained(tx, txlen, inf, buffer, q);
      if !ok {
        RunEnds(r, dev.script, dev.sent, Prepare(q), script0, sent0);
        return;
      }
      ghost var p := Prepare(r);
      if txlen - pos >= MAX_FRAME_SIZE {
        RunEnds(p, dev.script, dev.sent, Prepare(q), script0, sent0);
        return Overrun, stack;
      }
      Load(buffer, IHeader(false, Number(block)), tx, pos, txlen - pos);
      ghost var script1, sent1 := dev.script, dev.sent;
      outcome, r := ReceiveReply(txlen - pos, buffer, rx, rxlen, p);
      RunTrans(r, dev.script, dev.sent, p, script1, sent1, Prepare(q), script0, sent0);
      RunEnds(r, dev.script, dev.sent, Prepare(q), script0, sent0);
    }

    // ----- Activation -------------------------------------------------------------------

    /** The cascade loop of nfc_iso14443a_open. `saks` are the answer buffers of its levels. */
    method SelectLevels(size: nat, buf: array<Byte>, saks: seq<array<Byte>>, ghost stack: seq<seq<Byte>>)
      returns (ok: bool)
      requires size <= 3 && buf.Length == 8 && |saks| == |stack| == 3 && nfcid == []
      requires forall i :: 0 <= i < 3 ==>
                 saks[i].Length == 3 && saks[i] != buf && saks[i] != ats && saks[i][..] == stack[i]
      requires forall i, j :: 0 <= i < j < 3 ==> saks[i] != saks[j]
      requires buf != ats
      modifies this`nfcid, this`sak, dev`script, dev`sent, buf, saks[0], saks[1], saks[2]
      ensures var s := SelectFrom(0, size, old(buf[..]), [], old(sak), old(dev.script), stack);
        && ok == s.ok && nfcid == s.id && sak == s.sak && dev.script == s.script
        && dev.sent == old(dev.sent) + s.sent
    {
      ghost var sent0, s0 := dev.sent, SelectFrom(0, size, buf[..], [], sak, dev.script, stack);
      var level := 0;
      assert dev.sent + s0.sent == sent0 + s0.sent;
      while level < size
        invariant level <= size
        invariant forall i :: level <= i < 3 ==> saks[i][..] == stack[i]
        invariant OnLoop(SelectFrom(level, size, buf[..], nfcid, sak, dev.script, stack), dev.sent,
                         s0, sent0)
      {
        ok := SelectLevel(level, size, buf, saks[level], stack, s0, sent0);
        if !ok {
          return;
        }
        level := level + 1;
      }
      ok := true;
    }

    /** One level. */
    method SelectLevel(level: nat, size: nat, buf: array<Byte>, answer: array<Byte>,
                       ghost stack: seq<seq<Byte>>, ghost s0: Selection, ghost sent0: seq<Request>)
      returns (ok: bool)
      requires level < size <= 3 && buf.Length == 8 && |stack| == 3
      requires forall i :: 0 <= i < 3 ==> |stack[i]| == 3
      requires answer != buf && answer != ats && buf != ats && answer[..] == stack[level]
      requires OnLoop(SelectFrom(level, size, buf[..], nfcid, sak, dev.script, stack), dev.sent,
                      s0, sent0)
      modifies this`nfcid, this`sak, dev`script, dev`sent, buf, answer
      ensures ok ==>
        OnLoop(SelectFrom(level + 1, size, buf[..], nfcid, sak, dev.script, stack), dev.sent, s0, sent0)
      ensures !ok ==> OnLoop(Selection(false, nfcid, sak, [], dev.script), dev.sent, s0, sent0)
    {
      hide Xor4, SelCode, WithCrc, OnLoop, SelectAnswered;
      buf[0], buf[1] := SelCode(level), QUERY;
      ghost var b, script := buf[..], dev.script;
      assert b == QueryBuffer(old(buf[..]), level);
      var n := dev.Transceive(Full(buf[..if level == 0 then 2 else 7]), buf, 2, 5);
      ghost var c := Overwrite(b, 2, Heard(Next(script), 5));
      if n < 0 || Xor4(buf[2..6]) != buf[6] {
        LoopSends(Full(b[..if level == 0 then 2 else 7]), Selection(false, nfcid, sak, [], dev.script),
                  old(dev.sent), s0, sent0);
        return false;
      }
      buf[1] := SELECT;
      ghost var d := buf[..];
      assert d == c[1 := SELECT];
      ghost var answered := SelectAnswered(level, size, d, nfcid, sak, dev.script, stack);
      LoopSends(Full(b[..if level == 0 then 2 else 7]), Before(Full(WithCrc(d[..7])), answered),
                old(dev.sent), s0, sent0);
      LoopSends(Full(WithCrc(d[..7])), answered, dev.sent, s0, sent0);
      ok := TakeSak(level, size, buf, answer, stack, s0, sent0);
    }

    /** Its second half: the select command and the SAK. */
    method TakeSak(level: nat, size: nat, buf: array<Byte>, answer: array<Byte>,
                   ghost stack: seq<seq<Byte>>, ghost s0: Selection, ghost sent0: seq<Request>)
      returns (ok: bool)
      requires level < size <= 3 && buf.Length == 8 && |stack| == 3
      requires forall i :: 0 <= i < 3 ==> |stack[i]| == 3
      requires answer != buf && answer != ats && answer[..] == stack[level]
      requires OnLoop(SelectAnswered(level, size, buf[..], nfcid, sak, dev.script, stack),
                      dev.sent + [Full(WithCrc(buf[..7]))], s0, sent0)
      modifies this`nfcid, this`sak, dev`script, dev`sent, answer
      ensures ok ==>
        OnLoop(SelectFrom(level + 1, size, buf[..], nfcid, sak, dev.script, stack), dev.sent, s0, sent0)
      ensures !ok ==> OnLoop(Selection(false, nfcid, sak, [], dev.script), dev.sent, s0, sent0)
    {
      ghost var judged :=
        JudgeSak(buf[2..7], Overwrite(stack[level], 0, Heard(Next(dev.script), 3)));
      var n := L3Transceive(buf, 7, answer, 3);
      if n < 0 {
        return false;
      }
      if !Cascades(answer[0]) {
        var crc := Compute(answer, 1);
        assert answer[..1] == [answer[0]];
        if crc != Word(answer[1], answer[2]) {
          return false;
        }
        sak := answer[0];
        nfcid := nfcid + buf[2..6];
        assert buf[2..7][..4] == buf[2..6];
      } else {
        nfcid := nfcid + buf[3..6];
        assert buf[2..7][1..4] == buf[3..6];
      }
      ok := true;
    }

    /** nfc_iso14443a_open. What its buffers hold at first is `buf0` and `stack`. */
    method L3Open() returns (ret: int, ghost buf0: seq<Byte>, ghost stack: seq<seq<Byte>>)
      requires ats.Length == 7
      modifies this`atqa, this`nfcid, this`sak, this`fsc, this`fwt, dev`script, dev`sent, ats
      ensures StackShape(buf0, stack)
      ensures var r := Activate(old(Fields()), CodeOf(fsd), old(dev.script), buf0, stack);
        && ret == r.ret && Fields() == r.profile
        && dev.script == r.script && dev.sent == old(dev.sent) + r.sent
    {
      hide SelectFrom, FinishActivation, WithCrc, UidSize, Overwrite, Heard, CodeOf, BestCode;
      var buf := new Byte[8];
      var s0, s1, s2 := new Byte[3], new Byte[3], new Byte[3];
      var saks := [s0, s1, s2];
      buf0, stack := buf[..], [s0[..], s1[..], s2[..]];
      var n := dev.Transceive(Short(WUPA), buf, 0, 8);
      if n < 0 {
        return ENODEV, buf0, stack;
      }
      atqa := buf[..2];
      if buf[0] & 0x1F == 0 {
        return EPROTO, buf0, stack;
      }
      var size := UidSize(buf[0]);
      if size > 3 {
        return EIO, buf0, stack;
      }
      nfcid := [];
      var ok := SelectLevels(size, buf, saks, stack);
      if !ok {
        return EIO, buf0, stack;
      }
      ret := AnswerToSelect();
    }

    /** Its last part: RATS. */
    method AnswerToSelect() returns (ret: int)
      requires ats.Length == 7
      modifies this`fsc, this`fwt, dev`script, dev`sent, ats
      ensures var r := FinishActivation(old(Fields()), CodeOf(fsd), old(dev.script));
        && ret == r.ret && Fields() == r.profile
        && dev.script == r.script && dev.sent == old(dev.sent) + r.sent
    {
      hide RatsByte, FromAts, WithCrc, SupportsTcl;
      if !SupportsTcl(sak) {
        return 0;
      }
      var fsdi := CodeOfSize(fsd);
      var rats := new Byte[2];
      rats[0], rats[1] := RATS, RatsByte(fsdi);
      assert rats[..2] == [RATS, RatsByte(fsdi)];
      ret := L3Transceive(rats, 2, ats, 7);
      if ret < 0 {
        return;
      }
      ReadAts();
      ret := 0;
    }

    method ReadAts()
      requires ats.Length == 7
      modifies this`fsc, this`fwt
      ensures Fields() == FromAts(old(Fields()))
    {
      hide LowNibble, HighNibble, SizeOfCode, TimeOfCode;
      var fwi := 8;
      if ats[0] > 1 {
        fsc := SizeOfCode(LowNibble(ats[1]));
        if ats[1] & 0x20 != 0 {
          fwi := HighNibble(ats[if ats[1] & 0x10 != 0 then 3 else 2]);
        }
      }
      fwt := TimeOfCode(fwi);
    }

    // ----- Sessions ---------------------------------------------------------------------

    /** nfc_iso14443_open. */
    method Open() returns (ret: int, ghost buf0: seq<Byte>, ghost stack: seq<seq<Byte>>)
      requires ats.Length == 7
      modifies this, dev, ats
      ensures StackShape(buf0, stack)
      ensures var size := if old(state).PowerOff? then dev.frameSize else old(fsd);
        var act := Activate(old(Fields()), CodeOf(size), old(dev.script), buf0, stack);
        var o := Lifecycle.AfterOpen(old(state), NextOpening(old(dev.openings)), act.ret);
        && ret == o.ret && state == o.state && dev.events == old(dev.events) + o.events
        && (if old(state).Selected? || (old(state).PowerOff? && NextOpening(old(dev.openings)) != 0)
            then
              && fsd == old(fsd) && Fields() == old(Fields()) && block == old(block)
              && dev.script == old(dev.script) && dev.sent == old(dev.sent)
            else
              && fsd == size && Fields() == act.profile
              && block == (if ret == 0 then Counter(0) else old(block))
              && dev.script == act.script && dev.sent == old(dev.sent) + act.sent)
      ensures ret == 0 <==> state == Lifecycle.Selected
      ensures ret != 0 ==> state == Lifecycle.PowerOff
    {
      hide Activate;
      buf0, stack := seq(8, _ => 0), seq(3, _ => [0, 0, 0]);
      if state == Lifecycle.PowerOff {
        ret := dev.Open();
        if ret != 0 {
          return;
        }
        fsd := dev.frameSize;
        state := Lifecycle.Idle;
      }
      if state == Lifecycle.Idle || state == Lifecycle.Halted {
        ret, buf0, stack := L3Open();
        if ret != 0 {
          var _ := dev.Close();
          state := Lifecycle.PowerOff;
          return;
        }
        state := Lifecycle.Selected;
        block := Counter(0);
      }
      ret := 0;
    }

    /** nfc_iso14443_transceive. */
    method Transceive(tx: array<Byte>, txlen: nat, rx: array<Byte>, rxlen: nat)
      returns (outcome: Outcome, ghost stack: seq<Byte>)
      requires txlen <= tx.Length && rxlen <= rx.Length
      modifies this`block, dev`script, dev`sent, rx
      ensures |stack| == MAX_FRAME_SIZE
      ensures SupportsTcl(sak) ==>
        var r := Start(old(block), InfSize(fsd, fsc), stack, old(tx[..txlen]), rxlen);
        var end := Finish(r, old(dev.script));
        && end.phase == Done(outcome) && block == end.block && |end.rx| <= rxlen
        && rx[..] == Overwrite(old(rx[..]), 0, end.rx)
        && dev.script == Unused(r, old(dev.script))
        && dev.sent == old(dev.sent) + Frames(r, old(dev.script))
      ensures !SupportsTcl(sak) ==>
        && outcome == Return(Returned(Next(old(dev.script)), rxlen)) && block == old(block)
        && rx[..] == Overwrite(old(rx[..]), 0, Heard(Next(old(dev.script)), rxlen))
        && dev.script == Later(old(dev.script))
        && dev.sent == old(dev.sent) + [Full(WithCrc(old(tx[..txlen])))]
    {
      if !SupportsTcl(sak) {
        stack := seq(MAX_FRAME_SIZE, _ => 0);
        var n := L3Transceive(tx, txlen, rx, rxlen);
        return Return(n), stack;
      }
      outcome, stack := ExchangeBlocks(tx, txlen, rx, rxlen);
    }

    /** nfc_iso14443_close. */
    method Close() returns (ret: int)
      modifies this`state, dev`events
      ensures var o := Lifecycle.After(old(state), Lifecycle.CloseCall);
        ret == o.ret && state == o.state && dev.events == old(dev.events) + o.events
    {
      state := Lifecycle.PowerOff;
      ret := dev.Close();
    }
  }
}

/**
 * Programming a group of pads of one STM32 port (drivers/gpio/stm32/v2/gpio_lld.c): what the
 * six registers hold afterwards, and what the pads do while the loop is writing them.
 */
module Gpio {

  /** A 32-bit port register. */
  datatype Reg = Reg(bits: bv32)

  datatype Regs = Regs(moder: Reg, otyper: Reg, ospeedr: Reg, pupdr: Reg, afrl: Reg, afrh: Reg)

  const PADS: bv32 := 16
  const ALTERNATE: bv32 := 2

  // ----- Fields of one, two and four bits -----------------------------------------------

  function BitAt(x: bv32, i: bv32): bv32 requires i < PADS { (x >> i) & 1 }

  function Placed(v: bv32, i: bv32): bv32 requires i < PADS { v << i }

  function WithBit(x: bv32, i: bv32, at: bv32): bv32 requires i < PADS { (x & !(1 << i)) | at }

  function UpperHalf(x: bv32): bv32 { x & 0xFFFF0000 }

  function Field1(r: Reg, i: bv32): bv32 requires i < PADS { BitAt(r.bits, i) }

  function Field2(r: Reg, i: bv32): bv32 requires i < PADS { (r.bits >> (i << 1)) & 3 }

  function Field4(r: Reg, i: bv32): bv32 requires i < PADS { (r.bits >> ((i & 7) << 2)) & 15 }

  /** A value moved to the place of pad `i`. */
  function At1(v: bv32, i: bv32): Reg requires i < PADS { Reg(Placed(v, i)) }

  function At2(v: bv32, i: bv32): Reg requires i < PADS { Reg(v << (i << 1)) }

  function At4(v: bv32, i: bv32): Reg requires i < PADS { Reg(v << ((i & 7) << 2)) }

  /** A register with the field of pad `i` replaced. */
  function Put1(r: Reg, i: bv32, at: Reg): Reg requires i < PADS {
    Reg(WithBit(r.bits, i, at.bits))
  }

  function Put2(r: Reg, i: bv32, at: Reg): Reg requires i < PADS {
    Reg((r.bits & !(3 << (i << 1))) | at.bits)
  }

  function Put4(r: Reg, i: bv32, at: Reg): Reg requires i < PADS {
    Reg((r.bits & !(15 << ((i & 7) << 2))) | at.bits)
  }

  /** The half of a register of one-bit fields that belongs to no pad. */
  function Reserved(r: Reg): Reg { Reg(UpperHalf(r.bits)) }

  lemma PutField1(r: Reg, i: bv32, v: bv32, j: bv32)
    requires i < PADS && j < PADS && v < 2
    ensures Field1(Put1(r, i, At1(v, i)), j) == if i == j then v else Field1(r, j)
    ensures Reserved(Put1(r, i, At1(v, i))) == Reserved(r)
  {
    hide BitAt, Placed, WithBit, UpperHalf;
    PutBit(r.bits, i, v, j);
    NoReservedBit(r.bits, i, v);
  }

  lemma PutBit(x: bv32, i: bv32, v: bv32, j: bv32)
    requires i < PADS && j < PADS && v < 2
    ensures BitAt(WithBit(x, i, Placed(v, i)), j) == if i == j then v else BitAt(x, j)
  {
  }

  lemma LowerHalf(i: bv32, v: bv32)
    requires i < PADS && v < 2
    ensures (v << i) & 0xFFFF0000 == 0
  {
  }

  lemma UpperKept(x: bv32, m: bv32, p: bv32)
    requires m & 0xFFFF0000 == 0 && p & 0xFFFF0000 == 0
    ensures ((x & !m) | p) & 0xFFFF0000 == x & 0xFFFF0000
  {
  }

  lemma NoReservedBit(x: bv32, i: bv32, v: bv32)
    requires i < PADS && v < 2
    ensures UpperHalf(WithBit(x, i, Placed(v, i))) == UpperHalf(x)
  {
    var one: bv32 := 1;
    LowerHalf(i, one);
    LowerHalf(i, v);
    UpperKept(x, one << i, v << i);
  }

  lemma PutField2(r: Reg, i: bv32, v: bv32, j: bv32)
    requires i < PADS && j < PADS && v < 4
    ensures Field2(Put2(r, i, At2(v, i)), j) == if i == j then v else Field2(r, j)
  {
  }

  /** Pads eight apart share a place, in different registers. */
  lemma PutField4(r: Reg, i: bv32, v: bv32, j: bv32)
    requires i < PADS && j < PADS && v < 16
    ensures Field4(Put4(r, i, At4(v, i)), j) == if i & 7 == j & 7 then v else Field4(r, j)
  {
  }

  // ----- What a pad is set to -----------------------------------------------------------

  datatype Config = Config(mode: bv32, otype: bv32, ospeed: bv32, pull: bv32, af: bv32)

  function ConfigOf(g: Regs, i: bv32): Config
    requires i < PADS
  {
    Config(Field2(g.moder, i), Field1(g.otyper, i), Field2(g.ospeedr, i), Field2(g.pupdr, i),
           if i < 8 then Field4(g.afrl, i) else Field4(g.afrh, i))
  }

  /** The five fields packed in a mode word. */
  function Requested(mode: bv32): Config {
    Config(mode & 3, (mode & 4) >> 2, (mode & 0x18) >> 3, (mode & 0x60) >> 5, (mode & 0x780) >> 7)
  }

  /** What the pad does: its mode, and the function it is connected to when the mode is
      "alternate". */
  datatype Effect = Plain(mode: bv32) | Function(af: bv32)

  function EffectOf(c: Config): Effect {
    if c.mode == 2 then Function(c.af) else Plain(c.mode)
  }

  /** A mode word as the flags of gpio_lld.h build it: output type from bit 2, speed from bit 3,
      pull-up or pull-down from bit 5, and the alternate function from bit 7 on. */
  function Pack(c: Config): bv32 {
    c.mode + 4 * c.otype + 8 * c.ospeed + 32 * c.pull + 128 * c.af
  }

  predicate InRange(c: Config) {
    c.mode < 4 && c.otype < 2 && c.ospeed < 4 && c.pull < 4 && c.af < 16
  }

  /** The driver reads out of a word what was packed into it. */
  lemma PackedIsRequested(c: Config)
    requires InRange(c)
    ensures Requested(Pack(c)) == c
  {
  }

  /** The group mask when the loop has come to pad `i`. */
  function MaskAt(mask: bv32, i: bv32): Reg requires i < PADS { Reg(mask >> i) }

  predicate LowestSet(r: Reg) { r.bits & 1 != 0 }

  function ShiftRight(r: Reg): Reg { Reg(r.bits >> 1) }

  function ShiftLeft1(r: Reg): Reg { Reg(r.bits << 1) }

  function ShiftLeft2(r: Reg): Reg { Reg(r.bits << 2) }

  /** Is the pad in the group? */
  predicate InMask(mask: bv32, i: bv32) requires i < PADS { LowestSet(MaskAt(mask, i)) }

  // ----- The writes ---------------------------------------------------------------------

  function WithAf(g: Regs, i: bv32, v: bv32): Regs
    requires i < PADS
  {
    if i < 8 then g.(afrl := Put4(g.afrl, i, At4(v, i))) else g.(afrh := Put4(g.afrh, i, At4(v, i)))
  }

  function WithMode(g: Regs, i: bv32, v: bv32): Regs
    requires i < PADS
  {
    g.(moder := Put2(g.moder, i, At2(v, i)))
  }

  /** The states of the port after each of the five writes for one pad. */
  function PadWrites(g: Regs, i: bv32, mode: bv32): (t: seq<Regs>)
    requires i < PADS
    ensures |t| == 5
  {
    var c := Requested(mode);
    var g1 := g.(otyper := Put1(g.otyper, i, At1(c.otype, i)));
    var g2 := g1.(ospeedr := Put2(g1.ospeedr, i, At2(c.ospeed, i)));
    var g3 := g2.(pupdr := Put2(g2.pupdr, i, At2(c.pull, i)));
    var g4 := if c.mode == ALTERNATE then WithAf(g3, i, c.af) else WithMode(g3, i, c.mode);
    var g5 := if c.mode == ALTERNATE then WithMode(g4, i, c.mode) else WithAf(g4, i, c.af);
    [g1, g2, g3, g4, g5]
  }

  /** The state a trace that began in `g` ends in. */
  function End(g: Regs, trace: seq<Regs>): Regs {
    if trace == [] then g else trace[|trace| - 1]
  }

  function PadTrace(g: Regs, mask: bv32, i: bv32, mode: bv32): seq<Regs>
    requires i < PADS
  {
    if InMask(mask, i) then PadWrites(g, i, mode) else []
  }

  /** After pad `i`, is the shifted mask zero? */
  predicate LastPad(mask: bv32, i: bv32) requires i < PADS { ShiftRight(MaskAt(mask, i)) == Reg(0) }

  /** The states after each write, from pad `i` on. */
  function Trace(g: Regs, mask: bv32, i: bv32, mode: bv32): seq<Regs>
    requires mask < 0x10000 && i < PADS
    decreases 16 - i
  {
    var t := PadTrace(g, mask, i, mode);
    if LastPad(mask, i) then t
    else
      MaskLeft(mask, i);
      t + Trace(End(g, t), mask, i + 1, mode)
  }

  lemma MaskShifts(mask: bv32, i: bv32)
    requires i < 15
    ensures ShiftRight(MaskAt(mask, i)) == MaskAt(mask, i + 1)
  {
  }

  lemma MaskEnds(mask: bv32)
    requires mask < 0x10000
    ensures ShiftRight(MaskAt(mask, 15)) == Reg(0)
  {
  }

  lemma BelowLast(i: bv32)
    requires i < PADS && i != 15
    ensures i < 15
  {
  }

  lemma MaskLeft(mask: bv32, i: bv32)
    requires mask < 0x10000 && i < PADS && !LastPad(mask, i)
    ensures i < 15 && ShiftRight(MaskAt(mask, i)) == MaskAt(mask, i + 1)
  {
    hide ShiftRight, MaskAt;
    if i == 15 {
      MaskEnds(mask);
    } else {
      BelowLast(i);
      MaskShifts(mask, i);
    }
  }

  // ----- One pad ------------------------------------------------------------------------

  lemma RequestedInRange(mode: bv32)
    ensures InRange(Requested(mode))
  {
  }

  lemma AfSet(g: Regs, i: bv32, v: bv32, j: bv32)
    requires i < PADS && j < PADS && v < 16
    ensures ConfigOf(WithAf(g, i, v), j) == if i == j then ConfigOf(g, j).(af := v) else ConfigOf(g, j)
  {
    PutField4(if i < 8 then g.afrl else g.afrh, i, v, j);
    SamePlace(i, j);
  }

  lemma SamePlace(i: bv32, j: bv32)
    requires i < PADS && j < PADS
    ensures (i < 8 <==> j < 8) && i & 7 == j & 7 ==> i == j
  {
  }

  lemma ModeSet(g: Regs, i: bv32, v: bv32, j: bv32)
    requires i < PADS && j < PADS && v < 4
    ensures ConfigOf(WithMode(g, i, v), j)
      == if i == j then ConfigOf(g, j).(mode := v) else ConfigOf(g, j)
  {
    PutField2(g.moder, i, v, j);
  }

  lemma RestSet(g: Regs, i: bv32, mode: bv32, j: bv32)
    requires i < PADS && j < PADS
    ensures var t, c, d := PadWrites(g, i, mode), Requested(mode), ConfigOf(g, j);
      && ConfigOf(t[0], j) == (if i == j then d.(otype := c.otype) else d)
      && ConfigOf(t[1], j) == (if i == j then d.(otype := c.otype, ospeed := c.ospeed) else d)
      && ConfigOf(t[2], j)
           == (if i == j then d.(otype := c.otype, ospeed := c.ospeed, pull := c.pull) else d)
  {
    hide Put1, Put2, Put4, At1, At2, At4, Field1, Field2, Field4, Requested;
    var c := Requested(mode);
    RequestedInRange(mode);
    PutField1(g.otyper, i, c.otype, j);
    PutField2(g.ospeedr, i, c.ospeed, j);
    PutField2(g.pupdr, i, c.pull, j);
  }

  /** The five writes give the pad what was requested, touch no other pad, and take the pad from
      its old effect to the new one in a single step. */
  lemma OnePad(g: Regs, i: bv32, mode: bv32, j: bv32)
    requires i < PADS && j < PADS
    ensures var t, c, d := PadWrites(g, i, mode), Requested(mode), ConfigOf(g, j);
      && (i != j ==> forall k :: 0 <= k < 5 ==> ConfigOf(t[k], j) == d)
      && (i == j ==>
            && ConfigOf(t[4], j) == c
            && (forall k :: 0 <= k < 3 ==> EffectOf(ConfigOf(t[k], j)) == EffectOf(d))
            && (EffectOf(ConfigOf(t[3], j)) == EffectOf(d) || EffectOf(ConfigOf(t[3], j)) == EffectOf(c)))
  {
    hide Put1, Put2, Put4, At1, At2, At4, WithAf, WithMode, ConfigOf;
    var t, c := PadWrites(g, i, mode), Requested(mode);
    RequestedInRange(mode);
    RestSet(g, i, mode, j);
    if c.mode == ALTERNATE {
      AfSet(t[2], i, c.af, j);
      ModeSet(t[3], i, c.mode, j);
    } else {
      ModeSet(t[2], i, c.mode, j);
      AfSet(t[3], i, c.af, j);
    }
  }

  /** The other order of the last two writes passes through a state in which the pad does
      neither what it did nor what was asked for, in exactly these cases: its alternate function
      changes while the mode enters or leaves "alternate". */
  lemma OrderMatters(g: Regs, i: bv32, mode: bv32)
    requires i < PADS
    ensures var c, d := Requested(mode), ConfigOf(g, i);
      var between := ConfigOf(if c.mode == ALTERNATE then WithMode(g, i, c.mode)
                              else WithAf(g, i, c.af), i);
      (EffectOf(between) != EffectOf(d) && EffectOf(between) != EffectOf(c))
        <==> (d.af != c.af && (c.mode == ALTERNATE) != (d.mode == ALTERNATE))
  {
    var c := Requested(mode);
    RequestedInRange(mode);
    ModeSet(g, i, c.mode, i);
    AfSet(g, i, c.af, i);
  }

  // ----- The whole group ----------------------------------------------------------------

  /** Pad `j` goes from the effect `before` to `after` at most once, with nothing in between. */
  predicate Clean(trace: seq<Regs>, j: bv32, before: Effect, after: Effect)
    requires j < PADS
  {
    && (forall k :: 0 <= k < |trace| ==>
          EffectOf(ConfigOf(trace[k], j)) == before || EffectOf(ConfigOf(trace[k], j)) == after)
    && (forall k, l :: 0 <= k < l < |trace| && EffectOf(ConfigOf(trace[k], j)) != before ==>
          EffectOf(ConfigOf(trace[l], j)) == after)
  }

  predicate Untouched(trace: seq<Regs>, j: bv32, c: Config)
    requires j < PADS
  {
    forall k :: 0 <= k < |trace| ==> ConfigOf(trace[k], j) == c
  }

  lemma {:induction false} PadsBefore(g: Regs, mask: bv32, i: bv32, mode: bv32, j: bv32)
    requires mask < 0x10000 && i < PADS && j < PADS && (j < i || !InMask(mask, j))
    ensures Untouched(Trace(g, mask, i, mode), j, ConfigOf(g, j))
    decreases 16 - i
  {
    hide PadWrites, ConfigOf, Requested, EffectOf, LastPad, InMask;
    var t := PadTrace(g, mask, i, mode);
    OnePad(g, i, mode, j);
    if LastPad(mask, i) {
    } else {
      MaskLeft(mask, i);
      PadsBefore(End(g, t), mask, i + 1, mode, j);
    }
  }

  lemma NotLeft(mask: bv32, i: bv32, j: bv32)
    requires i < PADS && j < PADS && i < j && LastPad(mask, i)
    ensures !InMask(mask, j)
  {
  }

  /** The trace leaves pad `j` set to `c`, in one clean step. */
  predicate Sets(g: Regs, t: seq<Regs>, j: bv32, c: Config)
    requires j < PADS
  {
    ConfigOf(End(g, t), j) == c && Clean(t, j, EffectOf(ConfigOf(g, j)), EffectOf(c))
  }

  lemma PadSets(g: Regs, i: bv32, mode: bv32)
    requires i < PADS
    ensures Sets(g, PadWrites(g, i, mode), i, Requested(mode))
  {
    hide PadWrites, ConfigOf, Requested, EffectOf;
    OnePad(g, i, mode, i);
  }

  lemma SetsThenUntouched(g: Regs, t: seq<Regs>, rest: seq<Regs>, j: bv32, c: Config)
    requires j < PADS && t != [] && Sets(g, t, j, c) && Untouched(rest, j, c)
    ensures Sets(g, t + rest, j, c)
  {
    hide ConfigOf, EffectOf;
    var u := t + rest;
    assert u[|u| - 1] == if rest == [] then t[|t| - 1] else rest[|rest| - 1];
    forall k | 0 <= k < |u|
      ensures k < |t| ==> u[k] == t[k]
      ensures k >= |t| ==> ConfigOf(u[k], j) == c
    {
    }
  }

  lemma UntouchedThenSets(g: Regs, t: seq<Regs>, rest: seq<Regs>, j: bv32, c: Config)
    requires j < PADS && Untouched(t, j, ConfigOf(g, j)) && Sets(End(g, t), rest, j, c)
    ensures Sets(g, t + rest, j, c)
  {
    hide ConfigOf, EffectOf;
    var u := t + rest;
    assert u != [] ==> u[|u| - 1] == if rest == [] then t[|t| - 1] else rest[|rest| - 1];
    forall k | 0 <= k < |u|
      ensures k < |t| ==> ConfigOf(u[k], j) == ConfigOf(g, j)
      ensures k >= |t| ==> u[k] == rest[k - |t|]
    {
    }
  }

  /** For a pad of the group that the loop has still to reach. */
  lemma {:induction false} PadsAfter(g: Regs, mask: bv32, i: bv32, mode: bv32, j: bv32)
    requires mask < 0x10000 && i <= j < PADS && InMask(mask, j)
    ensures Sets(g, Trace(g, mask, i, mode), j, Requested(mode))
    decreases 16 - i
  {
    hide PadWrites, ConfigOf, Requested, EffectOf, LastPad, InMask, Sets, End;
    var t := PadTrace(g, mask, i, mode);
    OnePad(g, i, mode, j);
    PadSets(g, i, mode);
    if LastPad(mask, i) {
      if i < j { NotLeft(mask, i, j); }
    } else {
      MaskLeft(mask, i);
      var h := End(g, t);
      var rest := Trace(h, mask, i + 1, mode);
      if i == j {
        PadEnds(g, i, mode);
        PadsBefore(h, mask, i + 1, mode, j);
        SetsThenUntouched(g, t, rest, j, Requested(mode));
      } else {
        NextPad(i, j);
        PadsAfter(h, mask, i + 1, mode, j);
        UntouchedThenSets(g, t, rest, j, Requested(mode));
      }
    }
  }

  lemma PadEnds(g: Regs, i: bv32, mode: bv32)
    requires i < PADS
    ensures ConfigOf(End(g, PadWrites(g, i, mode)), i) == Requested(mode)
  {
    hide PadWrites, ConfigOf, Requested;
    OnePad(g, i, mode, i);
  }

  lemma NextPad(i: bv32, j: bv32)
    requires i < j < PADS
    ensures i + 1 <= j
  {
  }

  lemma OnePadReserved(g: Regs, i: bv32, mode: bv32)
    requires i < PADS
    ensures Reserved(PadWrites(g, i, mode)[4].otyper) == Reserved(g.otyper)
  {
    hide Put1, Put2, Put4, At1, At2, At4, Reserved, Field1;
    RequestedInRange(mode);
    PutField1(g.otyper, i, Requested(mode).otype, i);
  }

  lemma {:induction false} ReservedBits(g: Regs, mask: bv32, i: bv32, mode: bv32)
    requires mask < 0x10000 && i < PADS
    ensures Reserved(End(g, Trace(g, mask, i, mode)).otyper) == Reserved(g.otyper)
    decreases 16 - i
  {
    hide PadWrites, Reserved, LastPad, InMask;
    OnePadReserved(g, i, mode);
    if LastPad(mask, i) {
    } else {
      MaskLeft(mask, i);
      ReservedBits(End(g, PadTrace(g, mask, i, mode)), mask, i + 1, mode);
    }
  }

  /** Field-wise: afterwards every pad of the group has what was packed into the mode word, and
      every other pad what it had. */
  lemma FieldWise(g: Regs, mask: bv32, c: Config, j: bv32)
    requires mask < 0x10000 && j < PADS && InRange(c)
    ensures ConfigOf(End(g, Trace(g, mask, 0, Pack(c))), j)
      == if mask & (1 << j) != 0 then c else ConfigOf(g, j)
  {
    hide Trace, ConfigOf, Pack, InMask;
    PackedIsRequested(c);
    MaskBit(mask, j);
    if InMask(mask, j) {
      PadsAfter(g, mask, 0, Pack(c), j);
    } else {
      PadsBefore(g, mask, 0, Pack(c), j);
    }
  }

  lemma MaskBit(mask: bv32, j: bv32)
    requires j < PADS
    ensures InMask(mask, j) <==> mask & (1 << j) != 0
  {
  }

  /** Glitch freedom: at every moment of the loop a pad does what it did before or what was
      asked for, it changes over at most once, and pads outside the group never change at all. */
  lemma GlitchFree(g: Regs, mask: bv32, c: Config, j: bv32)
    requires mask < 0x10000 && j < PADS && InRange(c)
    ensures var t := Trace(g, mask, 0, Pack(c));
      if mask & (1 << j) != 0 then Clean(t, j, EffectOf(ConfigOf(g, j)), EffectOf(c))
      else Untouched(t, j, ConfigOf(g, j))
  {
    hide Trace, ConfigOf, Pack, InMask, EffectOf, Clean;
    PackedIsRequested(c);
    MaskBit(mask, j);
    if InMask(mask, j) {
      PadsAfter(g, mask, 0, Pack(c), j);
    } else {
      PadsBefore(g, mask, 0, Pack(c), j);
    }
  }

  // ----- The loop -----------------------------------------------------------------------

  lemma ShiftedOn(v: bv32, bit: bv32)
    requires bit < 15
    ensures ShiftLeft1(At1(v, bit)) == At1(v, bit + 1)
    ensures ShiftLeft2(At2(v, bit)) == At2(v, bit + 1)
  {
  }

  lemma NotShiftedMask(mask: bv16)
    ensures MaskAt(mask as bv32, 0) == Reg(mask as bv32) && (mask as bv32) < 0x10000
  {
  }

  lemma NotShifted(v: bv32)
    ensures At1(v, 0) == Reg(v) && At2(v, 0) == Reg(v)
  {
  }

  lemma TraceUnfolds(g: Regs, mask: bv32, i: bv32, mode: bv32)
    requires mask < 0x10000 && i < PADS
    ensures var t := PadTrace(g, mask, i, mode);
      && (LastPad(mask, i) ==> Trace(g, mask, i, mode) == t)
      && (!LastPad(mask, i) ==>
            && i < 15
            && Trace(g, mask, i, mode) == t + Trace(End(g, t), mask, i + 1, mode)
            && End(g, Trace(g, mask, i, mode)) == End(End(g, t), Trace(End(g, t), mask, i + 1, mode)))
  {
    hide PadTrace, LastPad;
    if !LastPad(mask, i) {
      MaskLeft(mask, i);
    }
  }

  class Port {
    var moder: Reg
    var otyper: Reg
    var ospeedr: Reg
    var pupdr: Reg
    var afrl: Reg
    var afrh: Reg
    ghost var trace: seq<Regs>

    ghost function Registers(): Regs
      reads this
    {
      Regs(moder, otyper, ospeedr, pupdr, afrl, afrh)
    }

    /** _gpio_lld_setportmode. `trace` records the port after every register write. */
    method SetPortMode(mask0: bv16, mode: bv32)
      modifies this
      ensures var t := Trace(old(Registers()), mask0 as bv32, 0, mode);
        && Registers() == End(old(Registers()), t)
        && trace == old(trace) + t
    {
      hide Trace, PadWrites, At1, At2, MaskAt, LowestSet, ShiftRight, ShiftLeft1, ShiftLeft2;
      ghost var g0, trace0, m := Registers(), trace, mask0 as bv32;
      var c := Requested(mode);
      var moderBits, otyperBits := Reg(c.mode), Reg(c.otype);
      var ospeedrBits, pupdrBits := Reg(c.ospeed), Reg(c.pull);
      var mask, bit: bv32 := Reg(mask0 as bv32), 0;
      NotShiftedMask(mask0);
      NotShifted(c.mode);
      NotShifted(c.otype);
      NotShifted(c.ospeed);
      NotShifted(c.pull);
      while true
        invariant bit < PADS && m < 0x10000 && mask == MaskAt(m, bit)
        invariant moderBits == At2(c.mode, bit) && otyperBits == At1(c.otype, bit)
        invariant ospeedrBits == At2(c.ospeed, bit) && pupdrBits == At2(c.pull, bit)
        invariant trace + Trace(Registers(), m, bit, mode) == trace0 + Trace(g0, m, 0, mode)
        invariant End(Registers(), Trace(Registers(), m, bit, mode)) == End(g0, Trace(g0, m, 0, mode))
        decreases 16 - bit
      {
        ghost var g, before, t := Registers(), trace, PadTrace(Registers(), m, bit, mode);
        if LowestSet(mask) {
          SetPad(bit, mode, moderBits, otyperBits, ospeedrBits, pupdrBits);
        }
        assert trace == before + t && Registers() == End(g, t);
        TraceUnfolds(g, m, bit, mode);
        mask := ShiftRight(mask);
        if mask == Reg(0) {
          return;
        }
        MaskLeft(m, bit);
        ShiftedOn(c.mode, bit);
        ShiftedOn(c.otype, bit);
        ShiftedOn(c.ospeed, bit);
        ShiftedOn(c.pull, bit);
        otyperBits := ShiftLeft1(otyperBits);
        ospeedrBits := ShiftLeft2(ospeedrBits);
        pupdrBits := ShiftLeft2(pupdrBits);
        moderBits := ShiftLeft2(moderBits);
        bit := bit + 1;
      }
    }

    /** The write of the alternate function number, to the register of the pad's half. */
    method WriteAf(bit: bv32, ghost af: bv32, altrmask: Reg)
      requires bit < PADS && altrmask == At4(af, bit)
      modifies this`afrl, this`afrh, this`trace
      ensures Registers() == WithAf(old(Registers()), bit, af)
      ensures trace == old(trace) + [Registers()]
    {
      if bit < 8 {
        afrl := Put4(afrl, bit, altrmask);
      } else {
        afrh := Put4(afrh, bit, altrmask);
      }
      trace := trace + [Registers()];
    }

    /** The body of the loop: five register writes. */
    method SetPad(bit: bv32, mode: bv32, moderBits: Reg, otyperBits: Reg, ospeedrBits: Reg,
                  pupdrBits: Reg)
      requires bit < PADS
      requires moderBits == At2(Requested(mode).mode, bit) && otyperBits == At1(Requested(mode).otype, bit)
      requires ospeedrBits == At2(Requested(mode).ospeed, bit)
      requires pupdrBits == At2(Requested(mode).pull, bit)
      modifies this
      ensures var t := PadWrites(old(Registers()), bit, mode);
        Registers() == t[4] && trace == old(trace) + t
    {
      hide Put1, Put2, Put4, At1, At2, At4, WithAf, Requested;
      ghost var t := PadWrites(Registers(), bit, mode);
      var af := Requested(mode).af;
      var altrmask := At4(af, bit);
      otyper := Put1(otyper, bit, otyperBits);
      trace := trace + [Registers()];
      assert Registers() == t[0];
      ospeedr := Put2(ospeedr, bit, ospeedrBits);
      trace := trace + [Registers()];
      pupdr := Put2(pupdr, bit, pupdrBits);
      trace := trace + [Registers()];
      assert Registers() == t[2] && trace == old(trace) + t[..3];
      if Requested(mode).mode == ALTERNATE {
        WriteAf(bit, af, altrmask);
        moder := Put2(moder, bit, moderBits);
        trace := trace + [Registers()];
      } else {
        moder := Put2(moder, bit, moderBits);
        trace := trace + [Registers()];
        WriteAf(bit, af, altrmask);
      }
    }
  }
}

/**
 * CRC_A: the reader's byte-at-a-time checksum (libs/nfc/iso14443a.c), the bit-serial
 * register of Annex B of ISO/IEC 14443-3 it abbreviates, and what it detects.
 */
module CrcA {
  import opened Bytes

  /** The 16-bit checksum register. */
  datatype Register = Register(bits: bv16)

  const INITIAL := Register(0x6363)
  const ZERO := Register(0)

  // ----- The shortcut -------------------------------------------------------------------

  /** The byte that one turn of the reader's loop folds back into the register... */
  function Mixed(crc: Register, data: Byte): Byte {
    var ch: Byte := data ^ ((crc.bits & 0xFF) as Byte);
    ch ^ (ch << 4)
  }

  /** ...and how. */
  function Fold(crc: Register, ch: Byte): Register {
    Register((crc.bits >> 8) ^ ((ch as bv16) << 8) ^ ((ch as bv16) << 3) ^ ((ch >> 4) as bv16))
  }

  /** One turn of the reader's loop. */
  function Absorb(crc: Register, data: Byte): Register {
    Fold(crc, Mixed(crc, data))
  }

  function CrcFrom(crc: Register, data: seq<Byte>): Register
    decreases |data|
  {
    if data == [] then crc else CrcFrom(Absorb(crc, data[0]), data[1..])
  }

  function Crc(data: seq<Byte>): Register {
    CrcFrom(INITIAL, data)
  }

  /** The reader's loop, on the first `len` bytes of its argument. */
  method Compute(data: array<Byte>, len: nat) returns (crc: Register)
    requires len <= data.Length
    ensures crc == Crc(data[..len])
  {
    crc := Register(0x6363);
    var i := 0;
    while i < len
      invariant i <= len
      invariant CrcFrom(crc, data[i..len]) == Crc(data[..len])
    {
      assert data[i..len][1..] == data[i + 1..len];
      var ch := Mixed(crc, data[i]);
      crc := Fold(crc, ch);
      i := i + 1;
    }
  }

  // ----- The register of the standard ---------------------------------------------------

  function MessageBits(data: seq<Byte>): (bits: seq<bool>)
    ensures |bits| == 8 * |data|
  {
    if data == [] then [] else BitsOf(data[0]) + MessageBits(data[1..])
  }

  /** One clock of the shift register, with the generator in reflected form. */
  function BitStep(crc: bv16, bit: bool): bv16 {
    if (crc & 1 != 0) != bit then (crc >> 1) ^ 0x8408 else crc >> 1
  }

  function Shift(crc: Register, bit: bool): Register {
    Register(BitStep(crc.bits, bit))
  }

  function SerialFrom(crc: Register, bits: seq<bool>): Register
    decreases |bits|
  {
    if bits == [] then crc else SerialFrom(Shift(crc, bits[0]), bits[1..])
  }

  /** The standard's register: it is set to 6363 before the first bit. */
  function SerialCrc(data: seq<Byte>): Register {
    SerialFrom(Register(0x6363), MessageBits(data))
  }

  lemma {:induction false} SerialConcat(crc: Register, a: seq<bool>, b: seq<bool>)
    ensures SerialFrom(crc, a + b) == SerialFrom(SerialFrom(crc, a), b)
    decreases |a|
  {
    if a == [] {
      assert a + b == b;
    } else {
      assert (a + b)[1..] == a[1..] + b;
      SerialConcat(Shift(crc, a[0]), a[1..], b);
    }
  }

  // Clocking the register without input is linear over exclusive or, and an input bit acts as
  // if it had been added to the register beforehand. All the results below rest on these two.

  function Add(a: Register, b: Register): Register {
    Register(a.bits ^ b.bits)
  }

  /** One clock without input. */
  function Tick(x: Register): Register {
    var out := x.bits & 1;
    Register((x.bits >> 1) ^ (out << 15) ^ (out << 10) ^ (out << 3))
  }

  function Ticks(x: Register, n: nat): Register
    decreases n
  {
    if n == 0 then x else Ticks(Tick(x), n - 1)
  }

  function Bit(b: bool): Register {
    Register(if b then 1 else 0)
  }

  lemma TickEven(x: Register)
    requires x.bits & 1 == 0
    ensures Tick(x) == Register(x.bits >> 1)
  {
    ShiftedZero(x.bits & 1, x.bits >> 1);
  }

  lemma ShiftedZero(out: bv16, y: bv16)
    requires out == 0
    ensures y ^ (out << 15) ^ (out << 10) ^ (out << 3) == y
  {
  }

  lemma TickOdd(x: Register)
    requires x.bits & 1 != 0
    ensures Tick(x) == Register((x.bits >> 1) ^ 0x8408)
  {
  }

  lemma LastBit(x: bv16)
    ensures x & 1 != 0 ==> x & 1 == 1
    ensures (x ^ 1) >> 1 == x >> 1
    ensures (x ^ 1) & 1 == (x & 1) ^ 1
  {
  }

  lemma ShiftWithZero(c: Register)
    ensures Shift(c, false) == Tick(c)
  {
    if c.bits & 1 != 0 { TickOdd(c); } else { TickEven(c); }
  }

  lemma ShiftWithOne(c: Register)
    ensures Shift(c, true) == Tick(Add(c, Bit(true)))
  {
    LastBit(c.bits);
    if c.bits & 1 != 0 { TickEven(Add(c, Bit(true))); } else { TickOdd(Add(c, Bit(true))); }
  }

  lemma AddZero(c: Register)
    ensures Add(c, ZERO) == c
  {
  }

  lemma AddCancels(c: Register, p: Register, q: Register)
    requires Add(c, p) == Add(c, q) || Add(p, c) == Add(q, c)
    ensures p == q
  {
  }

  lemma ShiftIsTick(c: Register, bit: bool)
    ensures Shift(c, bit) == Tick(Add(c, Bit(bit)))
  {
    if bit {
      ShiftWithOne(c);
    } else {
      ShiftWithZero(c);
      AddZero(c);
    }
  }

  lemma TickLinear(x: Register, y: Register)
    ensures Tick(Add(x, y)) == Add(Tick(x), Tick(y))
  {
  }

  lemma TickInjective(x: Register, y: Register)
    requires Tick(x) == Tick(y)
    ensures x == y
  {
  }

  lemma {:induction false} TicksLinear(x: Register, y: Register, n: nat)
    ensures Ticks(Add(x, y), n) == Add(Ticks(x, n), Ticks(y, n))
    decreases n
  {
    if n == 0 {
    } else {
      TickLinear(x, y);
      TicksLinear(Tick(x), Tick(y), n - 1);
    }
  }

  lemma {:induction false} TicksInjective(x: Register, y: Register, n: nat)
    requires Ticks(x, n) == Ticks(y, n)
    ensures x == y
    decreases n
  {
    if n == 0 {
    } else {
      TicksInjective(Tick(x), Tick(y), n - 1);
      TickInjective(x, y);
    }
  }

  // ----- A run of at most 16 bits as one register value ---------------------------------

  /** Adds a bit below the others. */
  function Push(bit: bool, rest: Register): Register {
    Join(Bit(bit), rest)
  }

  function Join(bit: Register, rest: Register): Register {
    Register(bit.bits | (rest.bits << 1))
  }

  /** The bits of a message, the first one lowest. */
  function Pack(bits: seq<bool>): Register {
    if bits == [] then ZERO else Push(bits[0], Pack(bits[1..]))
  }

  /** `k` ones, at the low end. */
  function Ones(k: nat): Register {
    if k == 0 then ZERO else Push(true, Ones(k - 1))
  }

  predicate Under(x: Register, mask: Register) {
    x.bits & !mask.bits == 0
  }

  /** The top bit is free. */
  predicate HasRoom(x: Register) {
    x.bits & 0x8000 == 0
  }

  lemma OnesHaveRoom(k: nat)
    requires k <= 15
    ensures HasRoom(Ones(k))
  {
    assert Ones(4) == Register(0xF);
    assert Ones(8) == Register(0xFF);
    assert Ones(12) == Register(0xFFF);
    assert Ones(15) == Register(0x7FFF);
  }

  lemma PushUnder(bit: bool, rest: Register, mask: Register)
    requires Under(rest, mask)
    ensures Under(Push(bit, rest), Push(true, mask))
  {
  }

  lemma RoomUnder(rest: Register, mask: Register)
    requires Under(rest, mask) && HasRoom(mask)
    ensures HasRoom(rest)
  {
  }

  lemma {:induction false} PackUnderOnes(bits: seq<bool>)
    ensures Under(Pack(bits), Ones(|bits|))
  {
    if bits == [] {
    } else {
      PackUnderOnes(bits[1..]);
      PushUnder(bits[0], Pack(bits[1..]), Ones(|bits| - 1));
    }
  }

  lemma PackHasRoom(bits: seq<bool>)
    requires |bits| <= 15
    ensures HasRoom(Pack(bits))
  {
    PackUnderOnes(bits);
    OnesHaveRoom(|bits|);
    RoomUnder(Pack(bits), Ones(|bits|));
  }

  lemma TickPushed(c: Register, bit: bool, rest: Register)
    requires HasRoom(rest)
    ensures Tick(Add(c, Push(bit, rest))) == Add(Tick(Add(c, Bit(bit))), rest)
  {
    TickPushedBit(c, Bit(bit), rest);
  }

  lemma TickPushedBit(c: Register, bit: Register, rest: Register)
    requires HasRoom(rest) && bit.bits & 0xFFFE == 0
    ensures Tick(Add(c, Join(bit, rest))) == Add(Tick(Add(c, bit)), rest)
  {
  }

  predicate IsOdd(x: Register) {
    x.bits & 1 != 0
  }

  function Pop(x: Register): Register {
    Register(x.bits >> 1)
  }

  lemma PushInjective(bit: bool, rest: Register, bit': bool, rest': Register)
    requires HasRoom(rest) && HasRoom(rest')
    requires Push(bit, rest) == Push(bit', rest')
    ensures bit == bit' && rest == rest'
  {
    PopPushed(bit, rest);
    PopPushed(bit', rest');
  }

  lemma PopPushed(bit: bool, rest: Register)
    requires HasRoom(rest)
    ensures bit == IsOdd(Push(bit, rest))
    ensures rest == Pop(Push(bit, rest))
  {
    BitIsOdd(bit);
    PopPushedBit(Bit(bit), rest);
  }

  lemma BitIsOdd(bit: bool)
    ensures IsOdd(Bit(bit)) == bit && Bit(bit).bits & 0xFFFE == 0
  {
  }

  lemma PopPushedBit(bit: Register, rest: Register)
    requires HasRoom(rest) && bit.bits & 0xFFFE == 0
    ensures IsOdd(Join(bit, rest)) == IsOdd(bit)
    ensures Pop(Join(bit, rest)) == rest
  {
  }

  /** Feeding at most 16 bits is adding them to the register and then clocking it. */
  lemma {:induction false} SerialByPacking(c: Register, bits: seq<bool>)
    requires |bits| <= 16
    ensures SerialFrom(c, bits) == Ticks(Add(c, Pack(bits)), |bits|)
    decreases |bits|
  {
    if bits == [] {
      AddZero(c);
    } else {
      PackHasRoom(bits[1..]);
      ShiftIsTick(c, bits[0]);
      TickPushed(c, bits[0], Pack(bits[1..]));
      SerialByPacking(Shift(c, bits[0]), bits[1..]);
    }
  }

  // ----- Eight bits at once -------------------------------------------------------------

  function OfByte(b: Byte): Register {
    Register(b as bv16)
  }

  lemma PackByte(b: Byte)
    ensures Pack(BitsOf(b)) == OfByte(b)
  {
    var s := BitsOf(b);
    assert s[7..][1..] == [] && s[6..][1..] == s[7..] && s[5..][1..] == s[6..];
    assert s[4..][1..] == s[5..] && s[3..][1..] == s[4..] && s[2..][1..] == s[3..];
    assert s[1..][1..] == s[2..];
    assert Pack(s[7..]) == Push(s[7], ZERO);
    assert Pack(s[6..]) == Push(s[6], Push(s[7], ZERO));
    assert Pack(s[4..]) == Push(s[4], Push(s[5], Pack(s[6..])));
    assert Pack(s[2..]) == Push(s[2], Push(s[3], Pack(s[4..])));
    assert Pack(s) == Push(s[0], Push(s[1], Pack(s[2..])));
    PushEight(b);
  }

  lemma PushEight(b: Byte)
    ensures var s := BitsOf(b);
      Push(s[0], Push(s[1], Push(s[2], Push(s[3],
        Push(s[4], Push(s[5], Push(s[6], Push(s[7], ZERO)))))))) == OfByte(b)
  {
  }

  function EightTicks(x: Register): Register {
    Tick(Tick(Tick(Tick(Tick(Tick(Tick(Tick(x))))))))
  }

  lemma TicksOfEight(x: Register)
    ensures Ticks(x, 8) == EightTicks(x)
  {
    var y := Tick(Tick(x));
    var z := Tick(Tick(y));
    var u := Tick(Tick(z));
    assert Ticks(x, 8) == Ticks(y, 6) == Ticks(z, 4) == Ticks(u, 2);
    assert Ticks(u, 2) == Tick(Tick(u));
  }

  lemma EightTicksOfHighByte(high: bv16)
    requires high & 0xFF == 0
    ensures EightTicks(Register(high)) == Register(high >> 8)
  {
    TickEven(Register(high));
    TickEven(Register(high >> 1));
    TickEven(Register(high >> 2));
    TickEven(Register(high >> 3));
    TickEven(Register(high >> 4));
    TickEven(Register(high >> 5));
    TickEven(Register(high >> 6));
    TickEven(Register(high >> 7));
  }

  /** The shortcut's two formulas, on the whole register. */
  function Blend(low: Register): Register {
    Register((low.bits ^ (low.bits << 4)) & 0xFF)
  }

  function Spread(mixed: Register): Register {
    Register((mixed.bits << 8) ^ (mixed.bits << 3) ^ (mixed.bits >> 4))
  }

  lemma EightTicksOfLowByte(low: Register)
    requires low.bits & 0xFF00 == 0
    ensures EightTicks(low) == Spread(Blend(low))
  {
  }

  function HighByte(x: Register): Register { Register(x.bits & 0xFF00) }

  function LowByte(x: Register): Register { Register(x.bits & 0xFF) }

  lemma SplitWord(x: Register)
    ensures x == Add(HighByte(x), LowByte(x))
    ensures HighByte(x).bits & 0xFF == 0 && LowByte(x).bits & 0xFF00 == 0
    ensures HighByte(x).bits >> 8 == x.bits >> 8
  {
  }

  function Pop8(x: Register): Register {
    Register(x.bits >> 8)
  }

  function Three(a: Register, m: Register): Register {
    Register(a.bits ^ (m.bits << 8) ^ (m.bits << 3) ^ (m.bits >> 4))
  }

  lemma FoldIsThree(crc: Register, ch: Byte)
    ensures Fold(crc, ch) == Three(Pop8(crc), OfByte(ch))
  {
    ShiftedByte(ch);
  }

  lemma ShiftedByte(ch: Byte)
    ensures (ch >> 4) as bv16 == (ch as bv16) >> 4
  {
  }

  lemma ThreeIsAdd(a: Register, m: Register)
    ensures Three(a, m) == Add(a, Spread(m))
  {
  }

  lemma FoldIsAdd(crc: Register, ch: Byte)
    ensures Fold(crc, ch) == Add(Pop8(crc), Spread(OfByte(ch)))
  {
    FoldIsThree(crc, ch);
    ThreeIsAdd(Pop8(crc), OfByte(ch));
  }

  lemma MixedIsBlend(crc: Register, data: Byte)
    ensures OfByte(Mixed(crc, data)) == Blend(LowByte(Add(crc, OfByte(data))))
  {
  }

  lemma HighUntouched(crc: Register, data: Byte)
    ensures Pop8(HighByte(Add(crc, OfByte(data)))) == Pop8(crc)
  {
  }

  /** The shortcut for one byte is eight clocks of the register. */
  lemma AbsorbIsTicks(crc: Register, data: Byte)
    ensures Absorb(crc, data) == Ticks(Add(crc, OfByte(data)), 8)
  {
    var x := Add(crc, OfByte(data));
    SplitWord(x);
    TicksLinear(HighByte(x), LowByte(x), 8);
    TicksOfEight(HighByte(x));
    TicksOfEight(LowByte(x));
    EightTicksOfHighByte(HighByte(x).bits);
    EightTicksOfLowByte(LowByte(x));
    FoldIsAdd(crc, Mixed(crc, data));
    MixedIsBlend(crc, data);
    HighUntouched(crc, data);
  }

  lemma {:induction false} SerialAgreesFrom(crc: Register, data: seq<Byte>)
    ensures CrcFrom(crc, data) == SerialFrom(crc, MessageBits(data))
    decreases |data|
  {
    if data == [] {
    } else {
      var head := BitsOf(data[0]);
      SerialConcat(crc, head, MessageBits(data[1..]));
      SerialByPacking(crc, head);
      PackByte(data[0]);
      AbsorbIsTicks(crc, data[0]);
      SerialAgreesFrom(Absorb(crc, data[0]), data[1..]);
    }
  }

  /** The shortcut computes the checksum of the standard on every message. */
  lemma ShortcutIsSerial(data: seq<Byte>)
    ensures Crc(data) == SerialCrc(data)
  {
    SerialAgreesFrom(INITIAL, data);
  }

  lemma CrcOfTwo(a: Byte, b: Byte)
    ensures Crc([a, b]) == Absorb(Absorb(Register(0x6363), a), b)
  {
    assert [a, b][1..] == [b];
    assert CrcFrom(INITIAL, [a, b]) == CrcFrom(Absorb(INITIAL, a), [b]);
  }

  /** The examples of Annex B, and the checksum of HLTA. */
  lemma KnownAnswers()
    ensures Crc([0x00, 0x00]) == Register(0x1EA0) && Crc([0x12, 0x34]) == Register(0xCF26)
    ensures WithCrc([0x50, 0x00]) == [0x50, 0x00, 0x57, 0xCD]
  {
    CrcOfTwo(0x00, 0x00);
    CrcOfTwo(0x12, 0x34);
    CrcOfTwo(0x50, 0x00);
  }

  // ----- Frames and their residue -------------------------------------------------------

  function Low(crc: Register): Byte { (crc.bits & 0xFF) as Byte }

  function High(crc: Register): Byte { (crc.bits >> 8) as Byte }

  /** The two checksum bytes as the reader compares them, `lo + (hi << 8)`. */
  function Word(lo: Byte, hi: Byte): Register {
    Register((lo as bv16) + ((hi as bv16) << 8))
  }

  /** A message followed by its checksum, low byte first, as it goes on the air. */
  function WithCrc(message: seq<Byte>): (frame: seq<Byte>)
    ensures |frame| == |message| + 2
  {
    message + [Low(Crc(message)), High(Crc(message))]
  }

  lemma {:induction false} CrcConcat(crc: Register, a: seq<Byte>, b: seq<Byte>)
    ensures CrcFrom(crc, a + b) == CrcFrom(CrcFrom(crc, a), b)
    decreases |a|
  {
    if a == [] {
      assert a + b == b;
    } else {
      assert (a + b)[1..] == a[1..] + b;
      CrcConcat(Absorb(crc, a[0]), a[1..], b);
    }
  }

  lemma TicksVanish(x: Register)
    ensures Ticks(x, 8) == ZERO <==> x == ZERO
  {
    TicksOfEight(ZERO);
    EightTicksOfHighByte(0);
    if Ticks(x, 8) == ZERO {
      TicksInjective(x, ZERO, 8);
    }
  }

  lemma AddEqual(c: Register, d: Register)
    ensures Add(c, d) == ZERO <==> c == d
  {
  }

  function OfHighByte(b: Byte): Register {
    Register((b as bv16) << 8)
  }

  lemma AddMoves(c: Register, p: Register, q: Register)
    ensures Add(c, p) == q <==> c == Add(q, p)
  {
    AddTwice(c, p);
    AddTwice(q, p);
  }

  lemma AddTwice(c: Register, p: Register)
    ensures Add(Add(c, p), p) == c
  {
  }

  lemma WordIsAdd(lo: Byte, hi: Byte)
    ensures Word(lo, hi) == Add(OfHighByte(hi), OfByte(lo))
  {
  }

  lemma WordParts(lo: Byte, hi: Byte)
    ensures Word(lo, hi).bits & 0xFF == lo as bv16 && Word(lo, hi).bits >> 8 == hi as bv16
    ensures Low(Word(lo, hi)) == lo && High(Word(lo, hi)) == hi
  {
  }

  lemma WordOfHalves(crc: Register)
    ensures Word(Low(crc), High(crc)) == crc
  {
  }

  lemma TwoBytesCancel(crc: Register, lo: Byte, hi: Byte)
    ensures Absorb(Absorb(crc, lo), hi) == ZERO <==> crc == Word(lo, hi)
  {
    var next := Absorb(crc, lo);
    AbsorbIsTicks(crc, lo);
    AbsorbIsTicks(next, hi);
    TicksVanish(Add(next, OfByte(hi)));
    AddEqual(next, OfByte(hi));
    AddMoves(crc, OfByte(lo), OfHighByte(hi));
    WordIsAdd(lo, hi);
    TicksOfHighByte(hi);
    if next == OfByte(hi) {
      TicksInjective(Add(crc, OfByte(lo)), OfHighByte(hi), 8);
    }
  }

  lemma TicksOfHighByte(hi: Byte)
    ensures Ticks(OfHighByte(hi), 8) == OfByte(hi)
  {
    ByteOfHighByte(hi);
    TicksOfEight(OfHighByte(hi));
    EightTicksOfHighByte(OfHighByte(hi).bits);
  }

  lemma ByteOfHighByte(b: Byte)
    ensures OfHighByte(b).bits & 0xFF == 0
    ensures Register(OfHighByte(b).bits >> 8) == OfByte(b)
  {
  }

  /** The receiver's two tests agree: comparing the trailing bytes, or running over them to zero. */
  lemma ResidueIffMatch(message: seq<Byte>, lo: Byte, hi: Byte)
    ensures Crc(message) == Word(lo, hi) <==> Crc(message + [lo, hi]) == ZERO
  {
    var c := Crc(message);
    CrcConcat(INITIAL, message, [lo, hi]);
    assert [lo, hi][1..] == [hi] && [hi][1..] == [];
    assert CrcFrom(c, [lo, hi]) == CrcFrom(Absorb(c, lo), [hi]) == Absorb(Absorb(c, lo), hi);
    TwoBytesCancel(c, lo, hi);
  }

  /** Every frame the reader builds has residue zero, and no other two trailing bytes do. */
  lemma FrameResidue(message: seq<Byte>, lo: Byte, hi: Byte)
    ensures Crc(WithCrc(message)) == ZERO
    ensures Crc(message + [lo, hi]) == ZERO ==> message + [lo, hi] == WithCrc(message)
  {
    var c := Crc(message);
    WordOfHalves(c);
    ResidueIffMatch(message, Low(c), High(c));
    ResidueIffMatch(message, lo, hi);
    WordParts(lo, hi);
  }

  // ----- Burst detection ----------------------------------------------------------------

  lemma {:induction false} SerialInjective(c: Register, d: Register, bits: seq<bool>)
    requires SerialFrom(c, bits) == SerialFrom(d, bits)
    ensures c == d
    decreases |bits|
  {
    if bits == [] {
    } else {
      SerialInjective(Shift(c, bits[0]), Shift(d, bits[0]), bits[1..]);
      ShiftIsTick(c, bits[0]);
      ShiftIsTick(d, bits[0]);
      TickInjective(Add(c, Bit(bits[0])), Add(d, Bit(bits[0])));
      AddCancels(Bit(bits[0]), c, d);
    }
  }

  lemma {:induction false} PackInjective(a: seq<bool>, b: seq<bool>)
    requires |a| == |b| <= 16
    requires Pack(a) == Pack(b)
    ensures a == b
  {
    if a == [] {
    } else {
      PackHasRoom(a[1..]);
      PackHasRoom(b[1..]);
      PushInjective(a[0], Pack(a[1..]), b[0], Pack(b[1..]));
      PackInjective(a[1..], b[1..]);
      assert a == [a[0]] + a[1..] && b == [b[0]] + b[1..];
    }
  }

  lemma WindowMatters(c: Register, a: seq<bool>, b: seq<bool>)
    requires |a| == |b| <= 16
    requires SerialFrom(c, a) == SerialFrom(c, b)
    ensures a == b
  {
    SerialByPacking(c, a);
    SerialByPacking(c, b);
    TicksInjective(Add(c, Pack(a)), Add(c, Pack(b)), |a|);
    AddCancels(c, Pack(a), Pack(b));
    PackInjective(a, b);
  }

  /** `a` and `b` agree on every bit outside the `width` bits from `start` on. */
  predicate AgreeOutside(a: seq<bool>, b: seq<bool>, start: nat, width: nat)
    requires |a| == |b|
  {
    forall i :: 0 <= i < |a| && (i < start || start + width <= i) ==> a[i] == b[i]
  }

  lemma BitsDetermineByte(a: Byte, b: Byte)
    requires BitsOf(a) == BitsOf(b)
    ensures a == b
  {
    var s, t := BitsOf(a), BitsOf(b);
    assert s[0] == t[0] && s[1] == t[1] && s[2] == t[2] && s[3] == t[3];
    assert s[4] == t[4] && s[5] == t[5] && s[6] == t[6] && s[7] == t[7];
  }

  lemma {:induction false} BitsDetermineMessage(a: seq<Byte>, b: seq<Byte>)
    requires MessageBits(a) == MessageBits(b)
    ensures a == b
  {
    assert |a| == |b|;
    if a == [] {
    } else {
      assert MessageBits(a)[..8] == BitsOf(a[0]) && MessageBits(b)[..8] == BitsOf(b[0]);
      BitsDetermineByte(a[0], b[0]);
      assert MessageBits(a)[8..] == MessageBits(a[1..]) && MessageBits(b)[8..] == MessageBits(b[1..]);
      BitsDetermineMessage(a[1..], b[1..]);
      assert a == [a[0]] + a[1..] && b == [b[0]] + b[1..];
    }
  }

  lemma BitBurstDetected(c: Register, a: seq<bool>, b: seq<bool>, start: nat, width: nat)
    requires |a| == |b| && width <= 16
    requires AgreeOutside(a, b, start, width)
    requires SerialFrom(c, a) == SerialFrom(c, b)
    ensures a == b
  {
    var n := |a|;
    var lo := if start <= n then start else n;
    var hi := if start + width <= n then start + width else n;
    assert b[..lo] == a[..lo] && b[hi..] == a[hi..];
    Cut(a, lo, hi);
    Cut(b, lo, hi);
    SerialConcat(c, a[..lo], a[lo..hi] + a[hi..]);
    SerialConcat(c, b[..lo], b[lo..hi] + b[hi..]);
    BurstThenSuffix(SerialFrom(c, a[..lo]), a[lo..hi], b[lo..hi], a[hi..]);
  }

  lemma Cut(a: seq<bool>, lo: nat, hi: nat)
    requires lo <= hi <= |a|
    ensures a == a[..lo] + (a[lo..hi] + a[hi..])
  {
  }

  lemma BurstThenSuffix(c: Register, a: seq<bool>, b: seq<bool>, suffix: seq<bool>)
    requires |a| == |b| <= 16
    requires SerialFrom(c, a + suffix) == SerialFrom(c, b + suffix)
    ensures a == b
  {
    SerialConcat(c, a, suffix);
    SerialConcat(c, b, suffix);
    SerialInjective(SerialFrom(c, a), SerialFrom(c, b), suffix);
    WindowMatters(c, a, b);
  }

  /** Two different messages of one length that differ only within 16 consecutive bits have
      different checksums. */
  lemma BurstDetected(a: seq<Byte>, b: seq<Byte>, start: nat, width: nat)
    requires |a| == |b| && a != b && width <= 16
    requires AgreeOutside(MessageBits(a), MessageBits(b), start, width)
    ensures Crc(a) != Crc(b)
  {
    if Crc(a) == Crc(b) {
      ShortcutIsSerial(a);
      ShortcutIsSerial(b);
      BitBurstDetected(INITIAL, MessageBits(a), MessageBits(b), start, width);
      BitsDetermineMessage(a, b);
    }
  }

  /** No burst of at most 16 bits turns one of the reader's frames into another frame that a
      receiver accepts. */
  lemma DamagedFrameRejected(message: seq<Byte>, received: seq<Byte>, start: nat, width: nat)
    requires |received| == |message| + 2 && received != WithCrc(message) && width <= 16
    requires AgreeOutside(MessageBits(WithCrc(message)), MessageBits(received), start, width)
    ensures Crc(received) != ZERO
  {
    FrameResidue(message, 0, 0);
    BurstDetected(WithCrc(message), received, start, width);
  }

  /** Sixteen bits is the limit: one burst of 17 bits, the generator itself, goes unnoticed. */
  lemma SeventeenBitsEscape()
    ensures var a, b := [0, 0, 0], [0x11, 0x08, 0x01];
      && AgreeOutside(MessageBits(a), MessageBits(b), 0, 17)
      && a != b && Crc(a) == Crc(b)
  {
  }
}

/** Coding of the blocks of ISO/IEC 14443-4 and the size tables, as in libs/nfc/iso14443.c. */
module Blocks {
  import opened Bytes

  const MAX_FRAME_SIZE: nat := 256

  predicate IsIBlock(b: Byte) { b & 0xE2 == 0x02 }

  predicate IsRBlock(b: Byte) { b & 0xE6 == 0xA2 }

  predicate IsSBlock(b: Byte) { b & 0xC7 == 0xC2 }

  predicate IsAck(b: Byte) { IsRBlock(b) && b & 0x10 == 0 }

  predicate IsWtx(b: Byte) { IsSBlock(b) && b & 0x30 == 0x30 }

  predicate HasCid(b: Byte) { b & 0x08 != 0 }

  predicate HasNad(b: Byte) { b & 0x04 != 0 }

  /** "More": the I-block announces another one. */
  predicate IsChained(b: Byte) { b & 0x10 != 0 }

  function HeaderSize(b: Byte): nat {
    1 + (if HasCid(b) then 1 else 0) + (if HasNad(b) then 1 else 0)
  }

  /** The block number carried by a header. */
  predicate Toggle(b: Byte) { b & 1 != 0 }

  /** The reader's block counter, 32 bits wide. */
  datatype Counter = Counter(bits: bv32)

  function Increment(block: Counter): Counter { Counter(block.bits + 1) }

  /** The block number the counter stands for. */
  predicate Number(block: Counter) { block.bits & 1 != 0 }

  function Numbered(header: Byte, number: bool): Byte {
    header | (if number then 1 else 0)
  }

  const CHAINED_BLOCK: Byte := 0x12
  const LAST_BLOCK: Byte := 0x02
  const ACK: Byte := 0xA2
  const WTX: Byte := 0xF2

  function IHeader(chained: bool, number: bool): Byte {
    Numbered(if chained then CHAINED_BLOCK else LAST_BLOCK, number)
  }

  function AckHeader(number: bool): Byte {
    Numbered(ACK, number)
  }

  /** The multiplier of an S(WTX) request as the answer repeats it (rule 3): without the power
      level bits. */
  function Granted(power: Byte): Byte { power & 0x3F }

  /** Counting up changes the block number, also where the counter wraps to zero. */
  lemma NumberAlternates(block: Counter)
    ensures Number(Increment(block)) == !Number(block)
    ensures Increment(Counter(0)) == Counter(1) && Increment(Counter(0xFFFFFFFF)) == Counter(0)
  {
  }

  lemma IHeaderCoding(chained: bool, number: bool)
    ensures var h := IHeader(chained, number);
      && IsIBlock(h) && !IsRBlock(h) && !IsSBlock(h)
      && !HasCid(h) && !HasNad(h) && IsChained(h) == chained && Toggle(h) == number
  {
    if chained { if number { } else { } } else { if number { } else { } }
  }

  lemma AckHeaderCoding(number: bool)
    ensures var h := AckHeader(number);
      && IsAck(h) && !IsIBlock(h) && !IsSBlock(h) && Toggle(h) == number
  {
    if number { } else { }
  }

  /** The codes of the blocks, as section 7.1.2.1 of ISO/IEC 14443-4 has them. */
  lemma StandardCodes(number: bool)
    ensures IHeader(false, number) == (if number then 0x03 else 0x02)
    ensures IHeader(true, number) == (if number then 0x13 else 0x12)
    ensures AckHeader(number) == (if number then 0xA3 else 0xA2)
    ensures WTX == 0xF2
  {
  }

  /** And what the reader makes of any first byte, bit by bit (b1 is bit 0): the kind in the two
      highest bits, then "NAK", "more", CID and NAD, and the block number in the lowest. */
  lemma StandardKinds(b: Byte)
    ensures var bits := BitsOf(b);
      && (IsIBlock(b) <==> !bits[7] && !bits[6] && !bits[5] && bits[1])
      && (IsAck(b) <==> bits[7] && !bits[6] && bits[5] && !bits[4] && !bits[2] && bits[1])
      && (IsWtx(b) <==> bits[7] && bits[6] && bits[5] && bits[4] && !bits[2] && bits[1] && !bits[0])
      && (IsChained(b) <==> bits[4]) && (Toggle(b) <==> bits[0])
      && HeaderSize(b) == 1 + (if bits[3] then 1 else 0) + (if bits[2] then 1 else 0)
  {
  }

  lemma WtxCoding()
    ensures IsWtx(WTX) && !IsIBlock(WTX) && !IsRBlock(WTX)
  {
  }

  // ----- Sizes and times ----------------------------------------------------------------

  const SIZES: seq<nat> := [16, 24, 32, 40, 48, 64, 96, 128, 256]

  const TIMES: seq<nat> := [1, 1, 2, 3, 5, 10, 20, 40, 80, 160, 310, 620, 1240, 2480, 4950]

  /** The frame size a card's FSCI stands for; codes beyond the table count as the last one. */
  function SizeOfCode(fsci: nat): (fsc: nat)
    ensures 16 <= fsc <= MAX_FRAME_SIZE
  {
    SIZES[if fsci < 8 then fsci else 8]
  }

  function TimeOfCode(fwi: nat): (fwt: nat)
    ensures 1 <= fwt <= 4950
  {
    TIMES[if fwi < 14 then fwi else 14]
  }

  /** The sizes of section 5.1 of ISO/IEC 14443-4. */
  lemma StandardSizes(fsci: nat)
    ensures SizeOfCode(fsci)
      == if fsci <= 4 then 16 + 8 * fsci else if fsci <= 6 then 64 + 32 * (fsci - 5)
         else if fsci == 7 then 128 else 256
  {
    assert fsci < 9 ==> fsci in {0, 1, 2, 3, 4, 5, 6, 7, 8};
  }

  /** The waiting time of a code is 4096 * 2^code carrier periods of 1/13560 ms; what the table
      has is that time rounded up, to whole milliseconds up to code 4 and to tens from 5 on. */
  lemma StandardTimes(fwi: nat)
    ensures var t, periods := TimeOfCode(fwi), 4096 * Power2(Least(fwi, 14));
      var step := if fwi <= 4 then 1 else 10;
      t % step == 0 && periods <= 13560 * t < periods + 13560 * step
  {
    hide Power2;
    SmallPowers();
    assert fwi < 14 ==> fwi in {0, 1, 2, 3, 4, 5, 6, 7, 8, 9, 10, 11, 12, 13};
  }

  lemma SmallPowers()
    ensures Power2(0) == 1 && Power2(1) == 2 && Power2(2) == 4 && Power2(3) == 8 && Power2(4) == 16
    ensures Power2(5) == 32 && Power2(6) == 64 && Power2(7) == 128 && Power2(8) == 256
    ensures Power2(9) == 512 && Power2(10) == 1024 && Power2(11) == 2048 && Power2(12) == 4096
    ensures Power2(13) == 8192 && Power2(14) == 16384
  {
  }

  /** `code` is the largest one whose size is at most `fsd`, or 0 when even 16 is too much. */
  predicate BestCode(fsd: int, code: nat) {
    && code <= 8
    && (SIZES[code] <= fsd || code == 0)
    && (forall j :: code < j <= 8 ==> fsd < SIZES[j])
  }

  function CodeBelow(fsd: int, i: nat): (code: nat)
    requires i <= 8
    ensures code <= i && (SIZES[code] <= fsd || code == 0)
    ensures forall j :: code < j <= i ==> fsd < SIZES[j]
  {
    if SIZES[i] <= fsd || i == 0 then i else CodeBelow(fsd, i - 1)
  }

  function CodeOf(fsd: int): (code: nat)
    ensures BestCode(fsd, code)
  {
    CodeBelow(fsd, 8)
  }

  /** A conforming answer fits the reader's own limit exactly when that limit is at least the
      smallest size the standard knows. */
  lemma AnnouncedSizeFits(fsd: int)
    ensures SizeOfCode(CodeOf(fsd)) <= fsd <==> 16 <= fsd
  {
    if 16 <= fsd {
      var code := CodeOf(fsd);
      assert code == 0 || SIZES[code] <= fsd;
    }
  }

  /** The reader's search for the code to announce. */
  method CodeOfSize(fsd: int) returns (fsdi: nat)
    ensures fsdi == CodeOf(fsd)
  {
    var i := 8;
    while i >= 0
      invariant -1 <= i <= 8
      invariant i >= 0 ==> CodeOf(fsd) == CodeBelow(fsd, i)
      invariant i < 0 ==> CodeOf(fsd) == 0
    {
      if SIZES[i] <= fsd {
        return i;
      }
      i := i - 1;
    }
    return 0;
  }
}

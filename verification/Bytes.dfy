/** Byte strings, and the few operations on them that every layer of the reader shares. */
module Bytes {

  type Byte = bv8

  function Least(a: nat, b: nat): nat { if a < b then a else b }

  /** The concatenation of a list of byte strings. */
  function Flatten(pieces: seq<seq<Byte>>): seq<Byte> {
    if pieces == [] then [] else pieces[0] + Flatten(pieces[1..])
  }

  /** The first `n` elements of `s`, or all of `s` when it is shorter. */
  function Take<T>(s: seq<T>, n: nat): seq<T> {
    if n <= |s| then s[..n] else s
  }

  /** What `memory` holds after `data` was copied to it from position `offset` on. */
  function Overwrite<T>(memory: seq<T>, offset: nat, data: seq<T>): (r: seq<T>)
    requires offset + |data| <= |memory|
    ensures |r| == |memory|
  {
    memory[..offset] + data + memory[offset + |data|..]
  }

  // ----- Bits and numbers ---------------------------------------------------------------

  /** The bits of a byte in the order they are sent: least significant first. */
  function BitsOf(b: Byte): (bits: seq<bool>)
    ensures |bits| == 8
  {
    [b & 1 != 0, b & 2 != 0, b & 4 != 0, b & 8 != 0,
     b & 16 != 0, b & 32 != 0, b & 64 != 0, b & 128 != 0]
  }

  function Flag(on: bool, weight: Byte): Byte { if on then weight else 0 }

  function OfBits(d: seq<bool>): Byte
    requires |d| == 8
  {
    Flag(d[0], 1) | Flag(d[1], 2) | Flag(d[2], 4) | Flag(d[3], 8)
    | Flag(d[4], 16) | Flag(d[5], 32) | Flag(d[6], 64) | Flag(d[7], 128)
  }

  lemma BitsRoundTrip(d: seq<bool>)
    requires |d| == 8
    ensures BitsOf(OfBits(d)) == d
  {
    hide Flag;
    JoinedBits(d[0], d[1], d[2], d[3], d[4], d[5], d[6], d[7]);
    var bits := BitsOf(OfBits(d));
    assert forall i :: 0 <= i < 8 ==> bits[i] == d[i];
  }

  lemma JoinedBits(d0: bool, d1: bool, d2: bool, d3: bool, d4: bool, d5: bool, d6: bool, d7: bool)
    ensures var b := Flag(d0, 1) | Flag(d1, 2) | Flag(d2, 4) | Flag(d3, 8)
                     | Flag(d4, 16) | Flag(d5, 32) | Flag(d6, 64) | Flag(d7, 128);
      && (b & 1 != 0) == d0 && (b & 2 != 0) == d1 && (b & 4 != 0) == d2 && (b & 8 != 0) == d3
      && (b & 16 != 0) == d4 && (b & 32 != 0) == d5 && (b & 64 != 0) == d6 && (b & 128 != 0) == d7
  {
  }

  /** The `k` lowest binary digits of a number, lowest first. */
  function Digits(n: nat, k: nat): (d: seq<bool>)
    ensures |d| == k
  {
    if k == 0 then [] else [n % 2 == 1] + Digits(n / 2, k - 1)
  }

  function Binary(d: seq<bool>): nat {
    if d == [] then 0 else (if d[0] then 1 else 0) + 2 * Binary(d[1..])
  }

  function Power2(k: nat): nat { if k == 0 then 1 else 2 * Power2(k - 1) }

  lemma {:induction false} BinaryOfDigits(n: nat, k: nat)
    requires n < Power2(k)
    ensures Binary(Digits(n, k)) == n
  {
    if k == 0 {
    } else {
      BinaryOfDigits(n / 2, k - 1);
      assert Digits(n, k)[1..] == Digits(n / 2, k - 1);
    }
  }

  function OfNat(n: nat): Byte { OfBits(Digits(n, 8)) }

  function ValueOf(b: Byte): nat { Binary(BitsOf(b)) }

  lemma ByteRoundTrip(n: nat)
    requires n < 256
    ensures ValueOf(OfNat(n)) == n
  {
    hide OfBits, BitsOf, Binary, Digits;
    assert Power2(8) == 256;
    BinaryOfDigits(n, 8);
    BitsRoundTrip(Digits(n, 8));
  }

  function Digit(on: bool, weight: nat): nat { if on then weight else 0 }

  lemma BinaryOfEight(d: seq<bool>)
    requires |d| == 8
    ensures Binary(d) == Digit(d[0], 1) + Digit(d[1], 2) + Digit(d[2], 4) + Digit(d[3], 8)
                         + Digit(d[4], 16) + Digit(d[5], 32) + Digit(d[6], 64) + Digit(d[7], 128)
  {
    BinaryOfFour(d);
    BinaryOfFour(d[4..]);
    assert d[4..][4..] == [];
  }

  lemma BinaryOfFour(d: seq<bool>)
    requires |d| >= 4
    ensures Binary(d) == Digit(d[0], 1) + Digit(d[1], 2) + Digit(d[2], 4) + Digit(d[3], 8)
                         + 16 * Binary(d[4..])
  {
    assert d[1..][1..] == d[2..] && d[2..][1..] == d[3..] && d[3..][1..] == d[4..];
  }

  lemma HalfByte(x: Byte)
    requires x & 0xF0 == 0
    ensures x as nat == Digit(x & 1 != 0, 1) + Digit(x & 2 != 0, 2) + Digit(x & 4 != 0, 4) + Digit(x & 8 != 0, 8)
  {
    assert x == 0 || x == 1 || x == 2 || x == 3 || x == 4 || x == 5 || x == 6 || x == 7
      || x == 8 || x == 9 || x == 10 || x == 11 || x == 12 || x == 13 || x == 14 || x == 15;
  }

  lemma HalvesOfByte(b: Byte)
    ensures var lo, hi := b & 0x0F, b >> 4;
      && lo & 0xF0 == 0 && hi & 0xF0 == 0
      && (lo & 1 != 0) == (b & 1 != 0) && (lo & 2 != 0) == (b & 2 != 0)
      && (lo & 4 != 0) == (b & 4 != 0) && (lo & 8 != 0) == (b & 8 != 0)
      && (hi & 1 != 0) == (b & 16 != 0) && (hi & 2 != 0) == (b & 32 != 0)
      && (hi & 4 != 0) == (b & 64 != 0) && (hi & 8 != 0) == (b & 128 != 0)
  {
  }

  // ----- Lists --------------------------------------------------------------------------

  /** Cutting after `n` elements can be done piece by piece. */
  lemma TakeConcat<T>(a: seq<T>, b: seq<T>, n: nat)
    ensures Take(a + b, n) == Take(a, n) + Take(b, n - |Take(a, n)|)
  {
  }

  lemma SliceOfFront<T>(s: seq<T>, n: nat, i: nat, j: nat)
    requires i <= j <= n <= |s|
    ensures s[..n][i..j] == s[i..j]
  {
  }

  lemma SliceOfSlice<T>(s: seq<T>, i: nat, j: nat, n: nat)
    requires i <= j <= |s| && n <= j - i
    ensures s[i..j][..n] == s[i..i + n]
  {
  }

  lemma SliceWithin<T>(s: seq<T>, i: nat, j: nat, a: nat, b: nat)
    requires a <= b && i + b <= j <= |s|
    ensures s[i..j][a..b] == s[i + a..i + b]
  {
    var u, v := s[i..j][a..b], s[i + a..i + b];
    assert forall k :: 0 <= k < |u| ==> u[k] == v[k];
  }

  lemma OverwriteTwice<T>(memory: seq<T>, a: seq<T>, b: seq<T>)
    requires |a| + |b| <= |memory|
    ensures Overwrite(Overwrite(memory, 0, a), |a|, b) == Overwrite(memory, 0, a + b)
  {
  }
}

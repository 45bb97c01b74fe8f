/**
 The CRC-32 of section 8 of RFC 1952, stated bit by bit, and the table-driven computation proved against
 it.  The later lemmas are what the frame codec relies on: the residue of a message followed by its own CRC, and
 the detection of every error burst of up to 32 bits.
 */
module Crc32 {
  import opened Bytes

  const POLYNOMIAL: uint32 := 0xEDB8_8320
  const ALL_ONES: uint32 := 0xFFFF_FFFF
  const BITS_PER_BYTE: nat := 8

  /** Exclusive or of two words is a word. */
  function XorWord(a: uint32, b: uint32): uint32 {
    XorIsWord(a, b);
    Xor(a, b)
  }

  lemma XorIsWord(a: uint32, b: uint32)
    ensures Xor(a, b) < 0x1_0000_0000
  {
    Pow2Known();
    XorBound(a, b, 32);
  }

  /** One step of the reflected shift register, reading one bit. */
  function FeedBit(c: uint32, bit: bool): uint32 {
    if (c % 2 == 1) != bit then XorWord(c / 2, POLYNOMIAL) else c / 2
  }

  /** The register after reading a string of bits, first bit first. */
  function FeedBits(c: uint32, bits: seq<bool>): uint32
    decreases |bits|
  {
    if bits == [] then c else FeedBits(FeedBit(c, bits[0]), bits[1..])
  }

  /** The CRC-32 of a string of octets: all ones in, bits least significant first, complemented out. */
  function Crc(s: seq<byte>): uint32 {
    XorWord(FeedBits(ALL_ONES, BitsOf(s)), ALL_ONES)
  }

  lemma {:induction false} FeedBitsConcat(c: uint32, x: seq<bool>, y: seq<bool>)
    ensures FeedBits(c, x + y) == FeedBits(FeedBits(c, x), y)
    decreases |x|
  {
    if x == [] {
      assert x + y == y;
    } else {
      assert (x + y)[1..] == x[1..] + y;
      FeedBitsConcat(FeedBit(c, x[0]), x[1..], y);
    }
  }

  // ---------------------------------------------------------------- differences between two runs

  function Differences(x: seq<bool>, y: seq<bool>): (d: seq<bool>)
    requires |x| == |y|
    ensures |d| == |x|
  {
    seq(|x|, i requires 0 <= i < |x| => x[i] != y[i])
  }

  /** With the top bit clear, the difference after a step determines the difference before it. */
  lemma FeedBitDifference(c: uint32, d: uint32, b: bool, e: bool, w: uint32)
    requires w < 0x8000_0000
    ensures Xor(FeedBit(c, b), FeedBit(d, e)) == w <==> Xor(c, d) == Flag(b != e) + 2 * w
  {
    Pow2Known();
    XorHalf(c, d);
    if ((c % 2 == 1) != b) == ((d % 2 == 1) != e) {
      XorMask(c / 2, d / 2, POLYNOMIAL);
    } else {
      TopBitAppears(c / 2, d / 2);
      TopBitAppears(d / 2, c / 2);
    }
  }

  lemma TopBitAppears(p: nat, q: nat)
    requires p < 0x8000_0000 && q < 0x8000_0000
    ensures Xor(Xor(p, POLYNOMIAL), q) >= 0x8000_0000
    ensures Xor(q, Xor(p, POLYNOMIAL)) >= 0x8000_0000
  {
    Pow2Known();
    XorTopBit(p, POLYNOMIAL, 31);
    XorTopBit(q, Xor(p, POLYNOMIAL), 31);
    XorCommutes(q, Xor(p, POLYNOMIAL));
  }

  /**
   Two runs over `x` and `y` end with the register difference `r` exactly when they started with the
   difference that has the differences of `x` and `y` as its low bits and `r` above them, as long as that
   fits 32 bits.  The table step, the residue and burst detection are all instances.
   */
  lemma {:induction false} RunDifference(c: uint32, d: uint32, x: seq<bool>, y: seq<bool>, r: uint32, m: nat)
    requires |x| == |y| && r < Pow2(m) && m + |x| <= 32
    ensures Xor(FeedBits(c, x), FeedBits(d, y)) == r <==> Xor(c, d) == FromBits(Differences(x, y), r)
    decreases |x|
  {
    if x != [] {
      RunDifference(FeedBit(c, x[0]), FeedBit(d, y[0]), x[1..], y[1..], r, m);
      FirstDifference(c, d, x, y, r, m);
    }
  }

  /** The first step of the two runs, given the difference that the rest of them needs. */
  lemma FirstDifference(c: uint32, d: uint32, x: seq<bool>, y: seq<bool>, r: uint32, m: nat)
    requires |x| == |y| > 0 && r < Pow2(m) && m + |x| <= 32
    ensures Xor(FeedBit(c, x[0]), FeedBit(d, y[0])) == FromBits(Differences(x[1..], y[1..]), r)
            <==> Xor(c, d) == FromBits(Differences(x, y), r)
  {
    var z := Differences(x[1..], y[1..]);
    assert Differences(x, y)[1..] == z;
    FromBitsBound(z, r, m);
    Pow2Grows(m + |z|, 31);
    Pow2Known();
    FeedBitDifference(c, d, x[0], y[0], FromBits(z, r));
  }

  lemma {:induction false} Pow2Grows(a: nat, b: nat)
    requires a <= b
    ensures Pow2(a) <= Pow2(b)
    decreases b
  {
    if a < b {
      Pow2Grows(a, b - 1);
    }
  }

  function Zeros(n: nat): (bits: seq<bool>)
    ensures |bits| == n
  {
    seq(n, _ => false)
  }

  // ---------------------------------------------------------------- the lookup table

  /** Entry `i`: the register after moving octet `i` through all eight steps. */
  function Entry(i: byte): uint32 {
    FeedBits(i, Zeros(BITS_PER_BYTE))
  }

  function LookupTable(): (table: seq<uint32>)
    ensures |table| == 256
    ensures forall i: byte :: table[i] == Entry(i)
  {
    seq(256, i requires 0 <= i < 256 => Entry(i))
  }

  lemma ZerosNext(c: uint32, n: nat)
    ensures var d := FeedBits(c, Zeros(n));
            FeedBits(c, Zeros(n + 1)) == if d % 2 != 0 then XorWord(d / 2, POLYNOMIAL) else d / 2
  {
    assert Zeros(n + 1) == Zeros(n) + [false];
    FeedBitsConcat(c, Zeros(n), [false]);
  }

  method GenerateLookupTable() returns (table: array<uint32>)
    ensures fresh(table) && table[..] == LookupTable()
  {
    table := new uint32[256];
    var value: int := 0;
    while value < 256
      invariant 0 <= value <= 256
      invariant forall i | 0 <= i < value :: table[i] == Entry(i)
    {
      var accumulator: uint32 := value;
      var bitPosition := 0;
      while bitPosition < BITS_PER_BYTE
        invariant 0 <= bitPosition <= BITS_PER_BYTE
        invariant accumulator == FeedBits(value, Zeros(bitPosition))
        invariant forall i | 0 <= i < value :: table[i] == Entry(i)
      {
        ZerosNext(value, bitPosition);
        if accumulator % 2 != 0 {
          accumulator := XorWord(accumulator / 2, POLYNOMIAL);
        } else {
          accumulator := accumulator / 2;
        }
        bitPosition := bitPosition + 1;
      }
      table[value] := accumulator;
      value := value + 1;
    }
  }

  /** One table lookup reads a whole octet. */
  function TableStep(c: uint32, b: byte): uint32 {
    XorWord(c / 0x100, LookupTable()[XorWord(c, b) % 0x100])
  }

  lemma LowOctetCancels(c: uint32, b: byte, index: byte)
    requires index == Xor(c, b) % 0x100
    ensures Xor(c, index) == b + 0x100 * (c / 0x100)
  {
    LowOfIndex(c, b, index);
    XorLow(c, index, 8);
    XorSolve(Low(c, 8), b, index);
    HighOfIndex(c, index);
    LowOctet(Xor(c, index));
  }

  lemma LowOfIndex(c: uint32, b: byte, index: byte)
    requires index == Xor(c, b) % 0x100
    ensures Xor(Low(c, 8), b) == index && Low(index, 8) == index
  {
    LowOctet(Xor(c, b));
    LowOfOctet(b);
    LowOfOctet(index);
    XorLow(c, b, 8);
  }

  lemma HighOfIndex(c: uint32, index: byte)
    ensures High(Xor(c, index), 8) == c / 0x100
  {
    LowOctet(c);
    LowOctet(index);
    XorHigh(c, index, 8);
    XorZero(c / 0x100);
  }

  lemma TableStepCorrect(c: uint32, b: byte)
    ensures TableStep(c, b) == FeedBits(c, NumBits(b, 8))
  {
    var index: byte := XorWord(c, b) % 0x100;
    var x, y := NumBits(b, 8), Zeros(BITS_PER_BYTE);
    var rest: uint32 := c / 0x100;
    Pow2Known();
    RunDifference(c, index, x, y, rest, 24);
    assert Differences(x, y) == x;
    FromNumBits(b, 8, rest);
    LowOctetCancels(c, b, index);
    XorCommutes(FeedBits(c, x), Entry(index));
    XorSolve(Entry(index), FeedBits(c, x), rest);
    XorCommutes(Entry(index), rest);
  }

  lemma BitsOfNext(s: seq<byte>, b: byte)
    ensures BitsOf(s + [b]) == BitsOf(s) + NumBits(b, 8)
  {
  }

  method ComputeCrc32(data: array<byte>, length: nat) returns (crc: uint32)
    requires length <= data.Length
    ensures crc == Crc(data[..length])
  {
    var accumulator := ALL_ONES;
    var byteIndex := 0;
    while byteIndex < length
      invariant byteIndex <= length
      invariant accumulator == FeedBits(ALL_ONES, BitsOf(data[..byteIndex]))
    {
      var tableIndex := XorWord(accumulator, data[byteIndex]) % 0x100;
      TableStepCorrect(accumulator, data[byteIndex]);
      BitsOfNext(data[..byteIndex], data[byteIndex]);
      FeedBitsConcat(ALL_ONES, BitsOf(data[..byteIndex]), NumBits(data[byteIndex], 8));
      assert data[..byteIndex] + [data[byteIndex]] == data[..byteIndex + 1];
      accumulator := XorWord(accumulator / 0x100, LookupTable()[tableIndex]);
      byteIndex := byteIndex + 1;
    }
    crc := XorWord(accumulator, ALL_ONES);
  }

  // ---------------------------------------------------------------- residue

  /** The CRC of a message followed by its own CRC. */
  function ResidueOf(s: seq<byte>): uint32 {
    Crc(s + Le32(Crc(s)))
  }

  lemma {:induction false} FromDifferences(x: seq<bool>, y: seq<bool>)
    requires |x| == |y|
    ensures FromBits(Differences(x, y), 0) == Xor(FromBits(x, 0), FromBits(y, 0))
  {
    if x != [] {
      assert Differences(x, y)[1..] == Differences(x[1..], y[1..]);
      FromDifferences(x[1..], y[1..]);
      XorFromHalves(Flag(x[0]), Flag(y[0]), FromBits(x[1..], 0), FromBits(y[1..], 0));
    }
  }

  lemma MaskInjective(p: nat, q: nat, m: nat)
    ensures Xor(p, m) == Xor(q, m) <==> p == q
  {
    XorMask(p, q, m);
    XorEqual(p, q);
    XorEqual(Xor(p, m), Xor(q, m));
  }

  lemma CrcConcat(s: seq<byte>, t: seq<byte>)
    ensures Crc(s + t) == XorWord(FeedBits(FeedBits(ALL_ONES, BitsOf(s)), BitsOf(t)), ALL_ONES)
  {
    BitsOfConcat(s, t);
    FeedBitsConcat(ALL_ONES, BitsOf(s), BitsOf(t));
  }

  /** Two registers meet after four octets each exactly when they differ as the octets do. */
  lemma RegistersMeet(c: uint32, d: uint32, t: seq<byte>, u: seq<byte>)
    requires |t| == |u| == 4
    ensures FeedBits(c, BitsOf(t)) == FeedBits(d, BitsOf(u)) <==> Xor(c, d) == Xor(Num32(t), Num32(u))
  {
    var x, y := BitsOf(t), BitsOf(u);
    Pow2Known();
    RunDifference(c, d, x, y, 0, 0);
    FromDifferences(x, y);
    BitsOfNum32(t);
    BitsOfNum32(u);
    XorEqual(FeedBits(c, x), FeedBits(d, y));
  }

  lemma SameDifference(c: nat, d: nat, n: nat, m: nat)
    requires m == Xor(d, ALL_ONES)
    ensures Xor(c, d) == Xor(n, m) <==> n == Xor(c, ALL_ONES)
  {
    XorMask(c, d, ALL_ONES);
    MaskInjective(n, Xor(c, ALL_ONES), m);
  }

  /**
   A message followed by four octets has the residue of any other message exactly when those octets hold its CRC.
   */
  lemma ResidueExactly(s: seq<byte>, t: seq<byte>, other: seq<byte>)
    requires |t| == 4
    ensures Crc(s + t) == ResidueOf(other) <==> Num32(t) == Crc(s)
  {
    var u := Le32(Crc(other));
    Num32OfLe32(Crc(other));
    var c, d := FeedBits(ALL_ONES, BitsOf(s)), FeedBits(ALL_ONES, BitsOf(other));
    CrcConcat(s, t);
    CrcConcat(other, u);
    MaskInjective(FeedBits(c, BitsOf(t)), FeedBits(d, BitsOf(u)), ALL_ONES);
    RegistersMeet(c, d, t, u);
    SameDifference(c, d, Num32(t), Num32(u));
  }

  // ---------------------------------------------------------------- burst detection

  /** `x` and `y` agree outside the 32 bits that start at `lo`. */
  predicate BurstOf32(x: seq<bool>, y: seq<bool>, lo: nat) {
    && |x| == |y|
    && lo + 32 <= |x|
    && x[..lo] == y[..lo]
    && x[lo + 32..] == y[lo + 32..]
  }

  lemma {:induction false} SameBitsKeepRegistersApart(c: uint32, d: uint32, x: seq<bool>)
    requires FeedBits(c, x) == FeedBits(d, x)
    ensures c == d
    decreases |x|
  {
    if x != [] {
      SameBitsKeepRegistersApart(FeedBit(c, x[0]), FeedBit(d, x[0]), x[1..]);
      XorEqual(FeedBit(c, x[0]), FeedBit(d, x[0]));
      FeedBitDifference(c, d, x[0], x[0], 0);
      XorEqual(c, d);
    }
  }

  lemma WindowDetected(c: uint32, x: seq<bool>, y: seq<bool>)
    requires |x| == |y| == 32
    requires FeedBits(c, x) == FeedBits(c, y)
    ensures x == y
  {
    Pow2Known();
    RunDifference(c, c, x, y, 0, 0);
    XorEqual(FeedBits(c, x), FeedBits(c, y));
    XorEqual(c, c);
    FromDifferences(x, y);
    XorEqual(FromBits(x, 0), FromBits(y, 0));
    FromBitsInjective(x, y, 0);
  }

  /** Two strings with the same CRC that differ at all differ over more than 32 consecutive bits. */
  lemma BurstDetected(s: seq<byte>, t: seq<byte>, lo: nat)
    requires BurstOf32(BitsOf(s), BitsOf(t), lo)
    requires Crc(s) == Crc(t)
    ensures s == t
  {
    var x, y := BitsOf(s), BitsOf(t);
    var head, tail := x[..lo], x[lo + 32..];
    var v, w := x[lo..lo + 32], y[lo..lo + 32];
    assert x == (head + v) + tail && y == (head + w) + tail;
    FeedBitsConcat(ALL_ONES, head + v, tail);
    FeedBitsConcat(ALL_ONES, head + w, tail);
    FeedBitsConcat(ALL_ONES, head, v);
    FeedBitsConcat(ALL_ONES, head, w);
    MaskInjective(FeedBits(ALL_ONES, x), FeedBits(ALL_ONES, y), ALL_ONES);
    var c := FeedBits(ALL_ONES, head);
    SameBitsKeepRegistersApart(FeedBits(c, v), FeedBits(c, w), tail);
    WindowDetected(c, v, w);
    BitsOfInjective(s, t);
  }
}

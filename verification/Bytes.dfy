/**
 Fixed-width unsigned arithmetic and octets.  The program's unsigned integers are integers within a bound;
 `>> k` and `& (2^k - 1)` are division and remainder by a power of two, and `^` is `Xor` below.
 The module also fixes the little-endian fields and the bit order of the wire format.
 */
module Bytes {

  type byte = x: int | 0 <= x < 0x100
  type uint16 = x: int | 0 <= x < 0x1_0000
  type uint32 = x: int | 0 <= x < 0x1_0000_0000

  function Pow2(n: nat): (p: nat)
    ensures p > 0
  {
    if n == 0 then 1 else 2 * Pow2(n - 1)
  }

  lemma Pow2Known()
    ensures Pow2(8) == 0x100 && Pow2(24) == 0x100_0000 && Pow2(31) == 0x8000_0000 && Pow2(32) == 0x1_0000_0000
  {
    assert Pow2(8) == 0x100;
    assert Pow2(16) == 0x1_0000;
    assert Pow2(24) == 0x100_0000;
  }

  // ---------------------------------------------------------------- bits and exclusive or

  function Flag(b: bool): nat {
    if b then 1 else 0
  }

  /** Bit `k` of a number, counted from the least significant. */
  predicate BitAt(n: nat, k: nat) {
    if k == 0 then n % 2 == 1 else BitAt(n / 2, k - 1)
  }

  /** The `n` low bits of a number, least significant first. */
  function NumBits(v: nat, n: nat): (bits: seq<bool>)
    ensures |bits| == n
  {
    seq(n, k requires 0 <= k < n => BitAt(v, k))
  }

  lemma NumBitsTail(v: nat, n: nat)
    requires n > 0
    ensures NumBits(v, n) == [v % 2 == 1] + NumBits(v / 2, n - 1)
  {
  }

  /** The number whose low bits are given, least significant first, above them `r`. */
  function FromBits(bits: seq<bool>, r: nat): nat {
    if bits == [] then r else Flag(bits[0]) + 2 * FromBits(bits[1..], r)
  }

  lemma {:induction false} FromBitsBound(bits: seq<bool>, r: nat, m: nat)
    requires r < Pow2(m)
    ensures FromBits(bits, r) < Pow2(m + |bits|)
  {
    if bits != [] {
      FromBitsBound(bits[1..], r, m);
    }
  }

  lemma {:induction false} FromBitsInjective(x: seq<bool>, y: seq<bool>, r: nat)
    requires |x| == |y| && FromBits(x, r) == FromBits(y, r)
    ensures x == y
  {
    if x != [] {
      FromBitsInjective(x[1..], y[1..], r);
      assert x == [x[0]] + x[1..] && y == [y[0]] + y[1..];
    }
  }

  lemma {:induction false} FromNumBits(v: nat, n: nat, r: nat)
    requires v < Pow2(n)
    ensures FromBits(NumBits(v, n), r) == v + Pow2(n) * r
  {
    if n > 0 {
      NumBitsTail(v, n);
      assert NumBits(v, n)[1..] == NumBits(v / 2, n - 1);
      FromNumBits(v / 2, n - 1, r);
      assert 2 * (Pow2(n - 1) * r) == Pow2(n) * r;
    }
  }

  /** Bitwise exclusive or. */
  function Xor(a: nat, b: nat): nat {
    if a == 0 && b == 0 then 0 else Flag(a % 2 != b % 2) + 2 * Xor(a / 2, b / 2)
  }

  lemma XorHalf(a: nat, b: nat)
    ensures Xor(a, b) / 2 == Xor(a / 2, b / 2)
    ensures Xor(a, b) % 2 == Flag(a % 2 != b % 2)
  {
  }

  /** That is what `Xor` means, bit by bit. */
  lemma {:induction false} XorBits(a: nat, b: nat, k: nat)
    ensures BitAt(Xor(a, b), k) == (BitAt(a, k) != BitAt(b, k))
  {
    XorHalf(a, b);
    if k > 0 {
      XorBits(a / 2, b / 2, k - 1);
    }
  }

  lemma {:induction false} XorZero(a: nat)
    ensures Xor(a, 0) == a && Xor(0, a) == a
  {
    if a > 0 {
      XorZero(a / 2);
    }
  }

  lemma {:induction false} XorCommutes(a: nat, b: nat)
    ensures Xor(a, b) == Xor(b, a)
  {
    if a != 0 || b != 0 {
      XorCommutes(a / 2, b / 2);
    }
  }

  lemma {:induction false} XorAssociates(a: nat, b: nat, c: nat)
    ensures Xor(Xor(a, b), c) == Xor(a, Xor(b, c))
    decreases a + b + c
  {
    if a != 0 || b != 0 || c != 0 {
      XorHalf(a, b);
      XorHalf(b, c);
      XorHalf(Xor(a, b), c);
      XorHalf(a, Xor(b, c));
      XorAssociates(a / 2, b / 2, c / 2);
    }
  }

  /** Two numbers have exclusive or zero exactly when they are equal. */
  lemma {:induction false} XorEqual(a: nat, b: nat)
    ensures Xor(a, b) == 0 <==> a == b
  {
    if a != 0 || b != 0 {
      XorEqual(a / 2, b / 2);
    }
  }

  /** A mask applied to both sides cancels. */
  lemma XorMask(a: nat, b: nat, m: nat)
    ensures Xor(Xor(a, m), Xor(b, m)) == Xor(a, b)
  {
    XorCommutes(b, m);
    XorAssociates(a, m, Xor(m, b));
    XorAssociates(m, m, b);
    XorEqual(m, m);
    XorZero(b);
  }

  /** The one number that combines with `a` to `r`. */
  lemma XorSolve(a: nat, b: nat, r: nat)
    ensures Xor(a, b) == r <==> b == Xor(a, r)
  {
    XorAssociates(a, a, b);
    XorAssociates(a, a, r);
    XorEqual(a, a);
    XorZero(b);
    XorZero(r);
  }

  lemma {:induction false} XorBound(a: nat, b: nat, n: nat)
    requires a < Pow2(n) && b < Pow2(n)
    ensures Xor(a, b) < Pow2(n)
  {
    if n > 0 {
      XorHalf(a, b);
      XorBound(a / 2, b / 2, n - 1);
    }
  }

  /** The `n` low bits of a number, and what remains above them. */
  function Low(v: nat, n: nat): nat {
    if n == 0 then 0 else v % 2 + 2 * Low(v / 2, n - 1)
  }

  function High(v: nat, n: nat): nat {
    if n == 0 then v else High(v / 2, n - 1)
  }

  lemma XorFromHalves(p: nat, q: nat, x: nat, y: nat)
    requires p < 2 && q < 2
    ensures Xor(p + 2 * x, q + 2 * y) == Flag(p != q) + 2 * Xor(x, y)
  {
    var u, v := p + 2 * x, q + 2 * y;
    XorHalf(u, v);
    assert u / 2 == x && v / 2 == y;
    assert u % 2 == p && v % 2 == q;
  }

  /** Exclusive or works separately on the low bits and on the rest. */
  lemma {:induction false} XorLow(a: nat, b: nat, n: nat)
    ensures Low(Xor(a, b), n) == Xor(Low(a, n), Low(b, n))
  {
    if n > 0 {
      var c, x, y := Xor(a, b), Low(a / 2, n - 1), Low(b / 2, n - 1);
      XorHalf(a, b);
      XorLow(a / 2, b / 2, n - 1);
      XorFromHalves(a % 2, b % 2, x, y);
      assert Low(c, n) == c % 2 + 2 * Low(c / 2, n - 1);
      assert Low(a, n) == a % 2 + 2 * x && Low(b, n) == b % 2 + 2 * y;
    }
  }

  lemma {:induction false} XorHigh(a: nat, b: nat, n: nat)
    ensures High(Xor(a, b), n) == Xor(High(a, n), High(b, n))
  {
    if n > 0 {
      XorHalf(a, b);
      XorHigh(a / 2, b / 2, n - 1);
    }
  }

  lemma {:induction false} Low4High4(v: nat)
    ensures Low(v, 4) == v % 16 && High(v, 4) == v / 16
  {
    var h := v / 2 / 2;
    assert High(v, 4) == High(v / 2, 3) == High(h, 2) == High(h / 2, 1) == h / 2 / 2;
    assert Low(v, 4) == v % 2 + 2 * (v / 2 % 2 + 2 * Low(h, 2));
    assert Low(h, 2) == h % 2 + 2 * (h / 2 % 2 + 2 * Low(h / 2 / 2, 0));
  }

  lemma {:induction false} LowTwice(v: nat, n: nat)
    ensures Low(v, n + 4) == Low(v, 4) + 16 * Low(High(v, 4), n)
    ensures High(v, n + 4) == High(High(v, 4), n)
  {
    var h := v / 2 / 2;
    assert High(v, n + 4) == High(v / 2, n + 3) == High(h, n + 2) == High(h / 2, n + 1) == High(h / 2 / 2, n);
    assert High(v, 4) == High(v / 2, 3) == High(h, 2) == High(h / 2, 1) == h / 2 / 2;
    assert Low(v, n + 4) == v % 2 + 2 * (v / 2 % 2 + 2 * Low(h, n + 2));
    assert Low(h, n + 2) == h % 2 + 2 * (h / 2 % 2 + 2 * Low(h / 2 / 2, n));
    assert Low(v, 4) == v % 2 + 2 * (v / 2 % 2 + 2 * Low(h, 2));
    assert Low(h, 2) == h % 2 + 2 * (h / 2 % 2 + 2 * Low(h / 2 / 2, 0));
  }

  /** The low octet of a word, and the word shifted right by eight. */
  lemma LowOctet(v: nat)
    ensures Low(v, 8) == v % 0x100 && High(v, 8) == v / 0x100
  {
    LowTwice(v, 4);
    Low4High4(v);
    Low4High4(v / 16);
    NibblesOfOctet(v);
  }

  lemma NibblesOfOctet(v: nat)
    ensures v % 0x100 == v % 16 + 16 * (v / 16 % 16) && v / 0x100 == v / 16 / 16
  {
  }

  lemma LowOfOctet(b: byte)
    ensures Low(b, 8) == b
  {
    LowOctet(b);
  }

  /** A number with the top bit keeps it when combined with one that lacks it. */
  lemma {:induction false} XorTopBit(a: nat, b: nat, n: nat)
    requires a < Pow2(n) <= b
    ensures Xor(a, b) >= Pow2(n)
  {
    XorHalf(a, b);
    if n > 0 {
      XorTopBit(a / 2, b / 2, n - 1);
    } else {
      XorZero(b);
    }
  }

  // ---------------------------------------------------------------- octets in wire order

  /** The bits of a string of octets in the order in which the reflected CRC reads them. */
  function BitsOf(s: seq<byte>): (bits: seq<bool>)
    ensures |bits| == 8 * |s|
  {
    if s == [] then [] else BitsOf(s[..|s| - 1]) + NumBits(s[|s| - 1], 8)
  }

  lemma {:induction false} BitsOfConcat(s: seq<byte>, t: seq<byte>)
    ensures BitsOf(s + t) == BitsOf(s) + BitsOf(t)
  {
    if t == [] {
      assert s + t == s;
    } else {
      var n := |t| - 1;
      assert (s + t)[..|s + t| - 1] == s + t[..n];
      BitsOfConcat(s, t[..n]);
    }
  }

  lemma OctetBitsInjective(a: byte, b: byte)
    requires NumBits(a, 8) == NumBits(b, 8)
    ensures a == b
  {
    Pow2Known();
    FromNumBits(a, 8, 0);
    FromNumBits(b, 8, 0);
  }

  /** Two strings of octets with the same bits are the same string. */
  lemma {:induction false} BitsOfInjective(s: seq<byte>, t: seq<byte>)
    requires BitsOf(s) == BitsOf(t)
    ensures s == t
  {
    if s != [] {
      var n := |s| - 1;
      assert |t| == n + 1;
      var p, q := BitsOf(s[..n]), BitsOf(t[..n]);
      assert BitsOf(s)[..8 * n] == p && BitsOf(t)[..8 * n] == q;
      assert BitsOf(s)[8 * n..] == NumBits(s[n], 8) && BitsOf(t)[8 * n..] == NumBits(t[n], 8);
      BitsOfInjective(s[..n], t[..n]);
      OctetBitsInjective(s[n], t[n]);
      assert s == s[..n] + [s[n]] && t == t[..n] + [t[n]];
    }
  }

  // ---------------------------------------------------------------- little-endian numbers

  function Le16(n: uint16): (s: seq<byte>)
    ensures |s| == 2
  {
    [n % 0x100, n / 0x100]
  }

  function Num16(s: seq<byte>): uint16
    requires |s| == 2
  {
    s[0] as int + 0x100 * s[1] as int
  }

  lemma Le16RoundTrip(n: uint16, s: seq<byte>)
    ensures Num16(Le16(n)) == n
    ensures |s| == 2 ==> Le16(Num16(s)) == s
  {
  }

  function Le32(n: uint32): (s: seq<byte>)
    ensures |s| == 4
  {
    Le16(n % 0x1_0000) + Le16(n / 0x1_0000)
  }

  function Num32(s: seq<byte>): uint32
    requires |s| == 4
  {
    Num16(s[..2]) as int + 0x1_0000 * Num16(s[2..]) as int
  }

  /** The lower two octets of a word, and its upper half. */
  lemma LowerOctets(n: nat)
    ensures n % 65536 % 256 == n % 256
    ensures n % 65536 / 256 == n / 256 % 256
  {
    var m := n / 256;
    LowerHalf(n, n % 256 + 256 * (m % 256), m / 256);
  }

  lemma LowerHalf(n: nat, r: nat, q: nat)
    requires n == r + 65536 * q && r < 65536
    ensures n % 65536 == r && n / 65536 == q
  {
  }

  lemma UpperOctet(n: nat)
    ensures n / 65536 / 256 == n / 16777216
  {
  }

  lemma Le32Octets(n: uint32)
    ensures Le32(n) == [n % 256, n / 256 % 256, n / 65536 % 256, n / 16777216]
  {
    LowerOctets(n);
    UpperOctet(n);
  }

  lemma Num32OfLe32(n: uint32)
    ensures Num32(Le32(n)) == n
  {
  }

  lemma Le32OfNum32(s: seq<byte>)
    requires |s| == 4
    ensures Le32(Num32(s)) == s
  {
    var a, b := Num16(s[..2]), Num16(s[2..]);
    LowerHalf(Num32(s), a, b);
    Le16RoundTrip(0, s[..2]);
    Le16RoundTrip(0, s[2..]);
  }

  lemma {:induction false} FromBitsConcat(x: seq<bool>, y: seq<bool>, r: nat)
    ensures FromBits(x + y, r) == FromBits(x, FromBits(y, r))
  {
    if x == [] {
      assert x + y == y;
    } else {
      assert (x + y)[1..] == x[1..] + y;
      FromBitsConcat(x[1..], y, r);
    }
  }

  lemma BitsOfFour(s: seq<byte>)
    requires |s| == 4
    ensures BitsOf(s) == ((NumBits(s[0], 8) + NumBits(s[1], 8)) + NumBits(s[2], 8)) + NumBits(s[3], 8)
  {
    assert s[..3][..2] == s[..2] && s[..2][..1] == s[..1] && s[..1][..0] == [];
    assert BitsOf(s[..1]) == NumBits(s[0], 8);
    assert BitsOf(s[..2]) == BitsOf(s[..1]) + NumBits(s[1], 8);
    assert BitsOf(s[..3]) == BitsOf(s[..2]) + NumBits(s[2], 8);
  }

  /** The octet's bits, with `r` above them. */
  lemma FromOctet(b: byte, r: nat)
    ensures FromBits(NumBits(b, 8), r) == b + 0x100 * r
  {
    Pow2Known();
    FromNumBits(b, 8, r);
  }

  /** The bits of four octets in wire order are the bits of the number they hold. */
  lemma BitsOfNum32(s: seq<byte>)
    requires |s| == 4
    ensures FromBits(BitsOf(s), 0) == Num32(s)
  {
    var b0, b1, b2, b3 := NumBits(s[0], 8), NumBits(s[1], 8), NumBits(s[2], 8), NumBits(s[3], 8);
    var r3: nat := s[3];
    var r2: nat := s[2] as int + 0x100 * r3;
    var r1: nat := s[1] as int + 0x100 * r2;
    BitsOfFour(s);
    FromBitsConcat((b0 + b1) + b2, b3, 0);
    FromOctet(s[3], 0);
    FromBitsConcat(b0 + b1, b2, r3);
    FromOctet(s[2], r3);
    FromBitsConcat(b0, b1, r2);
    FromOctet(s[1], r2);
    FromOctet(s[0], r1);
  }
}

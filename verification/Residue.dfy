/**
 The value of the CRC residue.  The register is followed through 32 steps on hexadecimal digits of four bits each,
 which are proved to compute what `FeedBit` and `Xor` compute on numbers.
 */
module Residue {
  import opened Bytes
  import opened Crc32

  const RESIDUE: uint32 := 0x2144_DF1C

  datatype Nibble = Nibble(b3: bool, b2: bool, b1: bool, b0: bool)

  /** The digits of a number, the lowest first. */
  datatype Digits = End | Digit(low: Nibble, above: Digits)

  function Over(b: bool, above: nat): nat {
    Flag(b) + 2 * above
  }

  /** The number with the four given bits at its low end, and `above` above them. */
  function Above(n: Nibble, above: nat): nat {
    Over(n.b0, Over(n.b1, Over(n.b2, Over(n.b3, above))))
  }

  function Value(d: Digits): nat {
    if d == End then 0 else Above(d.low, Value(d.above))
  }

  function Length(d: Digits): nat {
    if d == End then 0 else 1 + Length(d.above)
  }

  function FlipNibble(a: Nibble, b: Nibble): Nibble {
    Nibble(a.b3 != b.b3, a.b2 != b.b2, a.b1 != b.b1, a.b0 != b.b0)
  }

  function Flip(d: Digits, e: Digits): Digits
    requires Length(d) == Length(e)
  {
    if d == End then End else Digit(FlipNibble(d.low, e.low), Flip(d.above, e.above))
  }

  function HalveNibble(above: bool, n: Nibble): Nibble {
    Nibble(above, n.b3, n.b2, n.b1)
  }

  predicate LowBit(d: Digits) {
    d != End && d.low.b0
  }

  function Halve(d: Digits): Digits {
    if d == End then End else Digit(HalveNibble(LowBit(d.above), d.low), Halve(d.above))
  }

  // ---------------------------------------------------------------- digits compute what numbers do

  lemma XorParts(a: bool, b: bool, x: nat, y: nat, u: nat, v: nat)
    requires u == Flag(a) + 2 * x && v == Flag(b) + 2 * y
    ensures Xor(u, v) == Flag(a != b) + 2 * Xor(x, y)
  {
    XorHalf(u, v);
    assert u / 2 == x && v / 2 == y;
    assert u % 2 == Flag(a) && v % 2 == Flag(b);
  }

  lemma XorOver(a: bool, b: bool, x: nat, y: nat)
    ensures Xor(Over(a, x), Over(b, y)) == Over(a != b, Xor(x, y))
  {
    XorParts(a, b, x, y, Over(a, x), Over(b, y));
  }

  lemma XorPair(a1: bool, a0: bool, b1: bool, b0: bool, x: nat, y: nat)
    ensures Xor(Over(a0, Over(a1, x)), Over(b0, Over(b1, y))) == Over(a0 != b0, Over(a1 != b1, Xor(x, y)))
  {
    XorOver(a1, b1, x, y);
    XorOver(a0, b0, Over(a1, x), Over(b1, y));
  }

  lemma XorNibble(a: Nibble, b: Nibble, x: nat, y: nat)
    ensures Xor(Above(a, x), Above(b, y)) == Above(FlipNibble(a, b), Xor(x, y))
  {
    XorPair(a.b3, a.b2, b.b3, b.b2, x, y);
    XorPair(a.b1, a.b0, b.b1, b.b0, Over(a.b2, Over(a.b3, x)), Over(b.b2, Over(b.b3, y)));
  }

  lemma {:induction false} FlipCorrect(d: Digits, e: Digits)
    requires Length(d) == Length(e)
    ensures Xor(Value(d), Value(e)) == Value(Flip(d, e))
  {
    if d == End {
      XorZero(0);
    } else {
      FlipCorrect(d.above, e.above);
      XorNibble(d.low, e.low, Value(d.above), Value(e.above));
    }
  }

  lemma HalveAbove(n: Nibble, x: nat, carry: bool, half: nat)
    requires x == Flag(carry) + 2 * half
    ensures Above(n, x) == Flag(n.b0) + 2 * Above(HalveNibble(carry, n), half)
  {
  }

  lemma {:induction false} HalveCorrect(d: Digits)
    ensures Value(d) == Flag(LowBit(d)) + 2 * Value(Halve(d))
  {
    if d != End {
      HalveCorrect(d.above);
      HalveAbove(d.low, Value(d.above), LowBit(d.above), Value(Halve(d.above)));
    }
  }

  // ---------------------------------------------------------------- words of eight digits

  datatype Word = Word(n7: Nibble, n6: Nibble, n5: Nibble, n4: Nibble, n3: Nibble, n2: Nibble, n1: Nibble, n0: Nibble)

  const D0 := Nibble(false, false, false, false)
  const D1 := Nibble(false, false, false, true)
  const D2 := Nibble(false, false, true, false)
  const D3 := Nibble(false, false, true, true)
  const D4 := Nibble(false, true, false, false)
  const D5 := Nibble(false, true, false, true)
  const D6 := Nibble(false, true, true, false)
  const D7 := Nibble(false, true, true, true)
  const D8 := Nibble(true, false, false, false)
  const D9 := Nibble(true, false, false, true)
  const DA := Nibble(true, false, true, false)
  const DB := Nibble(true, false, true, true)
  const DC := Nibble(true, true, false, false)
  const DD := Nibble(true, true, false, true)
  const DE := Nibble(true, true, true, false)
  const DF := Nibble(true, true, true, true)

  const ONES := Word(DF, DF, DF, DF, DF, DF, DF, DF)
  const POLYNOMIAL_DIGITS := Word(DE, DD, DB, D8, D8, D3, D2, D0)

  function FlipWord(v: Word, w: Word): Word {
    Word(FlipNibble(v.n7, w.n7), FlipNibble(v.n6, w.n6), FlipNibble(v.n5, w.n5), FlipNibble(v.n4, w.n4),
         FlipNibble(v.n3, w.n3), FlipNibble(v.n2, w.n2), FlipNibble(v.n1, w.n1), FlipNibble(v.n0, w.n0))
  }

  function HalveWord(w: Word): Word {
    Word(HalveNibble(false, w.n7), HalveNibble(w.n7.b0, w.n6), HalveNibble(w.n6.b0, w.n5), HalveNibble(w.n5.b0, w.n4),
         HalveNibble(w.n4.b0, w.n3), HalveNibble(w.n3.b0, w.n2), HalveNibble(w.n2.b0, w.n1), HalveNibble(w.n1.b0, w.n0))
  }

  /** One step of the register that reads a clear bit. */
  function StepWord(w: Word, polynomial: Word): Word {
    if w.n0.b0 then FlipWord(HalveWord(w), polynomial) else HalveWord(w)
  }

  function Four(n0: Nibble, n1: Nibble, n2: Nibble, n3: Nibble, rest: Digits): Digits {
    Digit(n0, Digit(n1, Digit(n2, Digit(n3, rest))))
  }

  function Upper(w: Word): Digits {
    Four(w.n4, w.n5, w.n6, w.n7, End)
  }

  function DigitsOf(w: Word): Digits {
    Four(w.n0, w.n1, w.n2, w.n3, Upper(w))
  }

  function Number(w: Word): nat {
    Value(DigitsOf(w))
  }

  /** What the functions on digits do, four digits at a time. */
  lemma FourFlip(a: Word, d: Digits, b: Word, e: Digits)
    requires Length(d) == Length(e)
    ensures var v, w := Four(a.n0, a.n1, a.n2, a.n3, d), Four(b.n0, b.n1, b.n2, b.n3, e);
            && Length(v) == Length(w) == 4 + Length(d)
            && Flip(v, w) == Four(FlipNibble(a.n0, b.n0), FlipNibble(a.n1, b.n1), FlipNibble(a.n2, b.n2),
                                  FlipNibble(a.n3, b.n3), Flip(d, e))
  {
    var v2, w2 := Digit(a.n2, Digit(a.n3, d)), Digit(b.n2, Digit(b.n3, e));
    assert Length(Digit(a.n3, d)) == 1 + Length(d) && Length(v2) == 2 + Length(d);
    assert Length(Digit(b.n3, e)) == 1 + Length(e) && Length(w2) == 2 + Length(e);
    assert Flip(v2, w2) == Digit(FlipNibble(a.n2, b.n2), Digit(FlipNibble(a.n3, b.n3), Flip(d, e)));
  }

  lemma FourHalve(n0: Nibble, n1: Nibble, n2: Nibble, n3: Nibble, d: Digits)
    ensures Halve(Four(n0, n1, n2, n3, d)) == Four(HalveNibble(n1.b0, n0), HalveNibble(n2.b0, n1), HalveNibble(n3.b0, n2),
                                                   HalveNibble(LowBit(d), n3), Halve(d))
  {
    var v2 := Digit(n2, Digit(n3, d));
    assert Halve(v2) == Digit(HalveNibble(n3.b0, n2), Digit(HalveNibble(LowBit(d), n3), Halve(d)));
  }

  lemma FourValue(n0: Nibble, n1: Nibble, n2: Nibble, n3: Nibble, d: Digits)
    ensures Value(Four(n0, n1, n2, n3, d)) == Above(n0, Above(n1, Above(n2, Above(n3, Value(d)))))
  {
    ValueFirst(n3, d);
    ValueFirst(n2, Digit(n3, d));
    ValueFirst(n1, Digit(n2, Digit(n3, d)));
    ValueFirst(n0, Digit(n1, Digit(n2, Digit(n3, d))));
  }

  lemma ValueFirst(n: Nibble, d: Digits)
    ensures Value(Digit(n, d)) == Above(n, Value(d))
  {
  }

  lemma UpperFlips(v: Word, w: Word)
    ensures Length(Upper(v)) == Length(Upper(w)) == 4
    ensures Flip(Upper(v), Upper(w)) == Upper(FlipWord(v, w))
  {
    var a := Word(v.n3, v.n2, v.n1, v.n0, v.n7, v.n6, v.n5, v.n4);
    var b := Word(w.n3, w.n2, w.n1, w.n0, w.n7, w.n6, w.n5, w.n4);
    FourFlip(a, End, b, End);
  }

  lemma WordFlips(v: Word, w: Word)
    ensures Length(DigitsOf(v)) == Length(DigitsOf(w)) == 8
    ensures Flip(DigitsOf(v), DigitsOf(w)) == DigitsOf(FlipWord(v, w))
  {
    UpperFlips(v, w);
    FourFlip(v, Upper(v), w, Upper(w));
  }

  lemma WordHalves(w: Word)
    ensures Halve(DigitsOf(w)) == DigitsOf(HalveWord(w))
  {
    FourHalve(w.n4, w.n5, w.n6, w.n7, End);
    FourHalve(w.n0, w.n1, w.n2, w.n3, Upper(w));
  }

  lemma NumberOfNibbles(w: Word)
    ensures Number(w)
         == Above(w.n0, Above(w.n1, Above(w.n2, Above(w.n3, Above(w.n4, Above(w.n5, Above(w.n6, Above(w.n7, 0))))))))
  {
    FourValue(w.n4, w.n5, w.n6, w.n7, End);
    FourValue(w.n0, w.n1, w.n2, w.n3, Upper(w));
  }

  lemma XorOfWords(v: Word, w: Word)
    ensures Xor(Number(v), Number(w)) == Number(FlipWord(v, w))
  {
    WordFlips(v, w);
    FlipCorrect(DigitsOf(v), DigitsOf(w));
  }

  lemma HalfOfWord(w: Word, c: uint32)
    requires Number(w) == c
    ensures c / 2 == Number(HalveWord(w)) && (c % 2 == 1 <==> w.n0.b0)
  {
    WordHalves(w);
    HalveCorrect(DigitsOf(w));
  }

  lemma StepCorrect(w: Word, polynomial: Word, c: uint32)
    requires Number(polynomial) == POLYNOMIAL && Number(w) == c
    ensures FeedBit(c, false) == Number(StepWord(w, polynomial))
  {
    HalfOfWord(w, c);
    XorOfWords(HalveWord(w), polynomial);
  }

  function Steps(w: Word, polynomial: Word, n: nat): Word {
    if n == 0 then w else StepWord(Steps(w, polynomial, n - 1), polynomial)
  }

  lemma NextZero(c: uint32, n: nat)
    ensures FeedBits(c, Zeros(n + 1)) == FeedBit(FeedBits(c, Zeros(n)), false)
  {
    ZerosNext(c, n);
  }

  lemma NextStepCorrect(v: Word, polynomial: Word, c: uint32, n: nat, next: Word)
    requires Number(polynomial) == POLYNOMIAL && Number(v) == FeedBits(c, Zeros(n))
    requires next == StepWord(v, polynomial)
    ensures FeedBits(c, Zeros(n + 1)) == Number(next)
  {
    NextZero(c, n);
    StepCorrect(v, polynomial, FeedBits(c, Zeros(n)));
  }

  lemma {:induction false} StepsCorrect(w: Word, polynomial: Word, c: uint32, n: nat)
    requires Number(polynomial) == POLYNOMIAL && Number(w) == c
    ensures FeedBits(c, Zeros(n)) == Number(Steps(w, polynomial, n))
  {
    if n > 0 {
      StepsCorrect(w, polynomial, c, n - 1);
      NextStepCorrect(Steps(w, polynomial, n - 1), polynomial, c, n - 1, Steps(w, polynomial, n));
    }
  }

  // ---------------------------------------------------------------- the value

  const FINAL := Word(DD, DE, DB, DB, D2, D0, DE, D3)
  const RESIDUE_DIGITS := Word(D2, D1, D4, D4, DD, DF, D1, DC)

  lemma FourSteps(w: Word, p: Word, n: nat, v: Word)
    requires Steps(w, p, n) == v
    ensures Steps(w, p, n + 4) == StepWord(StepWord(StepWord(StepWord(v, p), p), p), p)
  {
    assert Steps(w, p, n + 1) == StepWord(v, p);
    assert Steps(w, p, n + 2) == StepWord(StepWord(v, p), p);
    assert Steps(w, p, n + 3) == StepWord(StepWord(StepWord(v, p), p), p);
  }

  lemma AllSteps(w: Word, p: Word, n: nat)
    requires w == ONES && p == POLYNOMIAL_DIGITS
    requires n == 0
    ensures Steps(w, p, n + 32) == FINAL && FlipWord(FINAL, w) == RESIDUE_DIGITS
  {
    FourSteps(w, p, n, Word(DF, DF, DF, DF, DF, DF, DF, DF));
    FourSteps(w, p, n + 4, Word(DB, D2, D4, D2, D0, DD, DE, D3));
    FourSteps(w, p, n + 8, Word(D2, DD, DF, DD, D1, D0, D7, D2));
    FourSteps(w, p, n + 12, Word(D3, D9, DB, D1, DF, D1, DC, DF));
    FourSteps(w, p, n + 16, Word(DB, DE, D2, D6, DE, DD, D0, D0));
    FourSteps(w, p, n + 20, Word(D0, DB, DE, D2, D6, DE, DD, D0));
    FourSteps(w, p, n + 24, Word(D0, D0, DB, DE, D2, D6, DE, DD));
    FourSteps(w, p, n + 28, Word(D8, D6, DD, D8, D3, D0, DB, DA));
  }

  function DigitValue(n: Nibble): nat {
    8 * Flag(n.b3) + 4 * Flag(n.b2) + 2 * Flag(n.b1) + Flag(n.b0)
  }

  lemma AboveDigit(n: Nibble, d: nat, above: nat)
    requires d == DigitValue(n)
    ensures Above(n, above) == d + 16 * above
  {
  }

  lemma NumberIs(w: Word, d7: nat, d6: nat, d5: nat, d4: nat, d3: nat, d2: nat, d1: nat, d0: nat)
    requires d7 == DigitValue(w.n7) && d6 == DigitValue(w.n6) && d5 == DigitValue(w.n5) && d4 == DigitValue(w.n4)
    requires d3 == DigitValue(w.n3) && d2 == DigitValue(w.n2) && d1 == DigitValue(w.n1) && d0 == DigitValue(w.n0)
    ensures Number(w) == d0 + 0x10 * d1 + 0x100 * d2 + 0x1000 * d3
                         + 0x1_0000 * d4 + 0x10_0000 * d5 + 0x100_0000 * d6 + 0x1000_0000 * d7
  {
    var v7 := Above(w.n7, 0);
    var v6 := Above(w.n6, v7);
    var v5 := Above(w.n5, v6);
    var v4 := Above(w.n4, v5);
    var v3 := Above(w.n3, v4);
    var v2 := Above(w.n2, v3);
    var v1 := Above(w.n1, v2);
    NumberOfNibbles(w);
    AboveDigit(w.n7, d7, 0);
    AboveDigit(w.n6, d6, v7);
    AboveDigit(w.n5, d5, v6);
    AboveDigit(w.n4, d4, v5);
    AboveDigit(w.n3, d3, v4);
    AboveDigit(w.n2, d2, v3);
    AboveDigit(w.n1, d1, v2);
    AboveDigit(w.n0, d0, v1);
  }

  lemma OnesNumber()
    ensures Number(ONES) == ALL_ONES
  {
    NumberIs(ONES, 0xF, 0xF, 0xF, 0xF, 0xF, 0xF, 0xF, 0xF);
  }

  lemma PolynomialNumber()
    ensures Number(POLYNOMIAL_DIGITS) == POLYNOMIAL
  {
    NumberIs(POLYNOMIAL_DIGITS, 0xE, 0xD, 0xB, 8, 8, 3, 2, 0);
  }

  lemma ResidueNumber()
    ensures Number(RESIDUE_DIGITS) == RESIDUE
  {
    NumberIs(RESIDUE_DIGITS, 2, 1, 4, 4, 0xD, 0xF, 1, 0xC);
  }

  /** Running over clear bits and complementing, on digits. */
  lemma RunOnWords(w: Word, p: Word, n: nat, c: uint32, last: Word)
    requires Number(w) == c && Number(p) == POLYNOMIAL && Steps(w, p, n) == last
    ensures Xor(FeedBits(c, Zeros(n)), c) == Number(FlipWord(last, w))
  {
    StepsCorrect(w, p, c, n);
    XorOfWords(last, w);
  }

  /** The run of 32 steps on digits, and the numbers they stand for. */
  lemma WordsOfRun(n: nat) returns (w: Word, p: Word, last: Word)
    requires n == 0
    ensures Number(w) == ALL_ONES && Number(p) == POLYNOMIAL
    ensures Steps(w, p, n + 32) == last && Number(FlipWord(last, w)) == RESIDUE
  {
    w, p, last := ONES, POLYNOMIAL_DIGITS, FINAL;
    OnesNumber();
    PolynomialNumber();
    ResidueNumber();
    AllSteps(w, p, n);
  }

  lemma RunOfZeros(c: uint32, n: nat)
    requires c == ALL_ONES && n == 0
    ensures Xor(FeedBits(c, Zeros(n + 32)), c) == RESIDUE
  {
    var w, p, last := WordsOfRun(n);
    RunOnWords(w, p, n + 32, c, last);
  }

  /** A register that reads its own complement ends as the all-ones register that reads clear bits. */
  lemma OwnCrcClears(c: uint32, d: uint32, t: seq<byte>, n: nat)
    requires |t| == 4 && n == 32 && Num32(t) == Xor(c, d)
    ensures FeedBits(c, BitsOf(t)) == FeedBits(d, Zeros(n))
  {
    var x, y := BitsOf(t), Zeros(n);
    Pow2Known();
    assert Differences(x, y) == x;
    RunDifference(c, d, x, y, 0, 0);
    BitsOfNum32(t);
    XorEqual(FeedBits(c, x), FeedBits(d, y));
  }

  lemma ClearedIsResidue(c: uint32, d: uint32, t: seq<byte>)
    requires |t| == 4 && d == ALL_ONES && Num32(t) == Xor(c, d)
    ensures Xor(FeedBits(c, BitsOf(t)), d) == RESIDUE
  {
    OwnCrcClears(c, d, t, 32);
    RunOfZeros(d, 0);
  }

  /** The CRC over a message and its own little-endian CRC. */
  lemma ResidueValue(s: seq<byte>)
    ensures ResidueOf(s) == RESIDUE
  {
    var t := Le32(Crc(s));
    Num32OfLe32(Crc(s));
    CrcConcat(s, t);
    ClearedIsResidue(FeedBits(ALL_ONES, BitsOf(s)), ALL_ONES, t);
  }

  /** A message followed by four octets has this CRC exactly when they hold the CRC of the message. */
  lemma ResidueCharacterises(s: seq<byte>, t: seq<byte>)
    requires |t| == 4
    ensures Crc(s + t) == RESIDUE <==> Num32(t) == Crc(s)
  {
    ResidueValue([]);
    ResidueExactly(s, t, []);
  }
}

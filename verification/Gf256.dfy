/**
 * GF(2^8) with the generator polynomial 0x11d, and the kernel's tables for it (powerfs_ec.c).
 *
 * Bytes are polynomials over GF(2) and addition is exclusive-or.  Multiplying by x is the
 * kernel's shift and conditional reduction; x generates all nonzero bytes with period 255.
 */
module Gf256 {
  import opened Basics
  import opened Fields
  import opened CyclicFields

  type u8 = bv8

  function Xor(a: u8, b: u8): u8 {
    a ^ b
  }

  /** One round of the exponent loop: shift left, and reduce by 0x11d when bit 8 appears. */
  function Xtime(a: u8): u8 {
    (a << 1) ^ (if a & 0x80 != 0 then 0x1d else 0)
  }

  const BYTES := Generator(0, 1, Xor, Xtime)

  lemma XorLaws(a: u8, b: u8, c: u8)
    ensures Xor(a, b) == Xor(b, a) && Xor(a, 0) == a && Xor(a, a) == 0
    ensures Xor(Xor(a, b), c) == Xor(a, Xor(b, c))
  {
  }

  lemma XtimeLinear(a: u8, b: u8)
    ensures Xtime(Xor(a, b)) == Xor(Xtime(a), Xtime(b))
  {
    if a & 0x80 != 0 {
      if b & 0x80 != 0 {} else {}
    } else {
      if b & 0x80 != 0 {} else {}
    }
  }

  lemma XtimeInjective(a: u8, b: u8)
    requires Xtime(a) == Xtime(b)
    ensures a == b
  {
  }

  lemma BytesLawsAt(a: u8, b: u8, c: u8)
    ensures GroupLawsAt(BYTES, a, b, c)
  {
    XorLaws(a, b, c);
    XtimeLinear(a, b);
  }

  lemma BytesAreLinear()
    ensures IsLinear(BYTES)
  {
    forall a: u8, b: u8, c: u8 ensures GroupLawsAt(BYTES, a, b, c) { BytesLawsAt(a, b, c); }
    forall a: u8, b: u8 | BYTES.times(a) == BYTES.times(b) ensures a == b { XtimeInjective(a, b); }
  }

  // ---------------------------------------------------------------- the period of x

  lemma PowStep(n: nat, c: u8)
    requires Pow(BYTES, n) == c
    ensures Pow(BYTES, n + 1) == Xtime(c)
  {
  }

  /** The exponent loop run for seventeen rounds. */
  lemma SeventeenSteps(n: nat, c: u8)
    requires Pow(BYTES, n) == c
    ensures
      var c1 := Xtime(c); var c2 := Xtime(c1); var c3 := Xtime(c2); var c4 := Xtime(c3);
      var c5 := Xtime(c4); var c6 := Xtime(c5); var c7 := Xtime(c6); var c8 := Xtime(c7);
      var c9 := Xtime(c8); var c10 := Xtime(c9); var c11 := Xtime(c10); var c12 := Xtime(c11);
      var c13 := Xtime(c12); var c14 := Xtime(c13); var c15 := Xtime(c14);
      var c16 := Xtime(c15); var c17 := Xtime(c16);
      Pow(BYTES, n + 17) == c17
  {
    var c1 := Xtime(c); var c2 := Xtime(c1); var c3 := Xtime(c2); var c4 := Xtime(c3);
    var c5 := Xtime(c4); var c6 := Xtime(c5); var c7 := Xtime(c6); var c8 := Xtime(c7);
    var c9 := Xtime(c8); var c10 := Xtime(c9); var c11 := Xtime(c10); var c12 := Xtime(c11);
    var c13 := Xtime(c12); var c14 := Xtime(c13); var c15 := Xtime(c14);
    var c16 := Xtime(c15); var c17 := Xtime(c16);
    PowStep(n, c); PowStep(n + 1, c1); PowStep(n + 2, c2); PowStep(n + 3, c3);
    PowStep(n + 4, c4); PowStep(n + 5, c5); PowStep(n + 6, c6); PowStep(n + 7, c7);
    PowStep(n + 8, c8); PowStep(n + 9, c9); PowStep(n + 10, c10); PowStep(n + 11, c11);
    PowStep(n + 12, c12); PowStep(n + 13, c13); PowStep(n + 14, c14);
    PowStep(n + 15, c15); PowStep(n + 16, c16);
  }

  lemma PowersAtMultiplesOf17()
    ensures Pow(BYTES, 17) == 0x98 && Pow(BYTES, 51) == 0xa && Pow(BYTES, 85) == 0xd6 && Pow(BYTES, 255) == 1
  {
    SeventeenSteps(0, 0x01);
    SeventeenSteps(17, 0x98);
    SeventeenSteps(34, 0x4e);
    SeventeenSteps(51, 0x0a);
    SeventeenSteps(68, 0x99);
    SeventeenSteps(85, 0xd6);
    SeventeenSteps(102, 0x44);
    SeventeenSteps(119, 0x93);
    SeventeenSteps(136, 0x4f);
    SeventeenSteps(153, 0x92);
    SeventeenSteps(170, 0xd7);
    SeventeenSteps(187, 0xdc);
    SeventeenSteps(204, 0xdd);
    SeventeenSteps(221, 0x45);
    SeventeenSteps(238, 0x0b);
  }

  lemma FullCycle(n: nat)
    requires n == 255
    ensures Pow(BYTES, n) == 1
  {
    PowersAtMultiplesOf17();
  }

  lemma NoCycleAt(n: nat)
    requires n == 15 || n == 51 || n == 85
    ensures Pow(BYTES, n) != 1
  {
    PowersAtMultiplesOf17();
    if n == 15 {
      PowStep(n, Pow(BYTES, n));
      PowStep(n + 1, Pow(BYTES, n + 1));
    }
  }

  lemma SmallDivisor(d: nat, q: nat)
    requires d * q == 255 && d < 16
    ensures d == 1 || d == 3 || d == 5 || d == 15
  {
    assert d == 0 || d == 1 || d == 2 || d == 3 || d == 4 || d == 5 || d == 6 || d == 7 || d == 8
      || d == 9 || d == 10 || d == 11 || d == 12 || d == 13 || d == 14 || d == 15;
  }

  /** Every proper divisor of 255 = 3 * 5 * 17 divides 15, 51 or 85. */
  lemma DivisorsOf255(d: nat, q: nat)
    requires d * q == 255 && d < 255
    ensures exists k :: d * k == 15 || d * k == 51 || d * k == 85
  {
    if q >= 16 {
      assert d < 16;
      SmallDivisor(d, q);
      if d == 1 { assert d * 15 == 15; }
      if d == 3 { assert d * 5 == 15; }
      if d == 5 { assert d * 3 == 15; }
      if d == 15 { assert d * 1 == 15; }
    } else {
      SmallDivisor(q, d);
      if q == 3 { assert d * 1 == 85; }
      if q == 5 { assert d * 1 == 51; }
      if q == 15 { assert d * 3 == 51; }
    }
  }

  lemma NoDivisorCycle(d: nat, n: nat)
    requires 0 < d < n == 255 && n % d == 0
    ensures Pow(BYTES, d) != 1
  {
    assert d * (n / d) == n;
    DivisorsOf255(d, n / d);
    var k :| d * k == 15 || d * k == 51 || d * k == 85;
    NoCycleAt(d * k);
    if Pow(BYTES, d) == 1 {
      CycleRepeats(BYTES, d, k, 0);
    }
  }

  /** x has order exactly 255. */
  lemma {:induction false} NoShortCycle(d: nat, n: nat)
    requires 0 < d < n == 255
    ensures Pow(BYTES, d) != 1
    decreases d
  {
    FullCycle(n);
    if Pow(BYTES, d) == 1 {
      ReduceExponent(BYTES, n, d);
    }
    if n % d > 0 {
      NoShortCycle(n % d, n);
    } else {
      NoDivisorCycle(d, n);
    }
  }

  // ---------------------------------------------------------------- pigeonholes

  lemma {:induction false} DistinctCount(s: seq<int>, image: set<int>)
    requires Distinct(s)
    requires image == set a | a in s
    ensures |image| == |s|
  {
    if s != [] {
      var n := |s| - 1;
      var t, last := s[..n], s[n];
      var rest := set a | a in t;
      assert s == t + [last];
      assert last !in t;
      assert image == rest + {last};
      DistinctCount(t, rest);
    }
  }

  ghost function Interval(n: nat): (r: set<int>)
    ensures |r| == n && forall a :: a in r <==> 1 <= a <= n
  {
    if n == 0 then {} else Interval(n - 1) + {n}
  }

  /** n different numbers between 1 and n are all of them. */
  lemma DistinctIsOnto(s: seq<int>, a: int)
    requires Distinct(s)
    requires forall i :: 0 <= i < |s| ==> 1 <= s[i] <= |s|
    requires 1 <= a <= |s|
    ensures a in s
  {
    var image := set b | b in s;
    var all := Interval(|s|);
    DistinctCount(s, image);
    assert all == image + (all - image);
    assert |all - image| == 0;
    assert a in image;
  }

  // ---------------------------------------------------------------- x generates every nonzero byte

  lemma SameByte(a: u8, b: u8)
    requires a as int == b as int
    ensures a == b
  {
  }

  lemma PowersDistinct(i: nat, j: nat, order: nat)
    requires i < j < order == 255
    ensures Pow(BYTES, i) as int != Pow(BYTES, j) as int
  {
    BytesAreLinear();
    NoShortCycle(j - i, order);
    if Pow(BYTES, i) as int == Pow(BYTES, j) as int {
      SameByte(Pow(BYTES, i), Pow(BYTES, j));
      EqualPowers(BYTES, i, j);
    }
  }

  lemma PowerInRange(k: nat)
    ensures 1 <= Pow(BYTES, k) as int <= 255
  {
    BytesAreLinear();
    PowersNonzero(BYTES, k);
    ByteInRange(Pow(BYTES, k));
  }

  lemma ByteInRange(a: u8)
    requires a != 0
    ensures 1 <= a as int <= 255
  {
  }

  lemma EveryByteIsAPower(a: u8, order: nat)
    requires a != 0 && order == 255
    ensures IsPower(BYTES, a, order)
  {
    var s := seq(order, k requires 0 <= k => Pow(BYTES, k) as int);
    forall i, j | 0 <= i < j < order ensures s[i] != s[j] { PowersDistinct(i, j, order); }
    forall i | 0 <= i < order ensures 1 <= s[i] <= order { PowerInRange(i); }
    ByteInRange(a);
    DistinctIsOnto(s, a as int);
    var k :| 0 <= k < order && s[k] == a as int;
    SameByte(a, Pow(BYTES, k));
  }

  /** The polynomial 0x11d is primitive. */
  lemma XGeneratesTheBytes(order: nat)
    requires order == 255
    ensures IsGenerator(BYTES, order)
  {
    BytesAreLinear();
    FullCycle(order);
    forall a: u8 | a != 0
      ensures IsPower(BYTES, a, order)
    {
      EveryByteIsAPower(a, order);
    }
  }

  /** The field of bytes. */
  ghost function GF256(order: nat): (F: Field<u8>)
    requires order == 255
    ensures IsField(F) && F.zero == 0 && F.one == 1
  {
    XGeneratesTheBytes(order);
    FieldOfIsField(BYTES, order);
    FieldOf(BYTES, order)
  }

  lemma SmallPowers()
    ensures Pow(BYTES, 0) == 1 && Pow(BYTES, 1) == 2 && Pow(BYTES, 2) == 4 && Pow(BYTES, 3) == 8
    ensures Pow(BYTES, 4) == 16 && Pow(BYTES, 5) == 32 && Pow(BYTES, 6) == 64 && Pow(BYTES, 7) == 128
  {
    PowStep(0, 1); PowStep(1, 2); PowStep(2, 4); PowStep(3, 8);
    PowStep(4, 16); PowStep(5, 32); PowStep(6, 64);
  }

  lemma Masks(a: u8)
    ensures a == (a & 0x7f) ^ (a & 0x80) && a & 0x7f == (a & 0x3f) ^ (a & 0x40)
    ensures a & 0x3f == (a & 0x1f) ^ (a & 0x20) && a & 0x1f == (a & 0x0f) ^ (a & 0x10)
    ensures a & 0x0f == (a & 0x07) ^ (a & 0x08) && a & 0x07 == (a & 0x03) ^ (a & 0x04)
    ensures a & 0x03 == (a & 0x01) ^ (a & 0x02) && a & 0x01 == 0 ^ (a & 0x01)
  {
  }

  lemma BitMasks(a: u8)
    ensures (a & 0x01 == 0 || a & 0x01 == 1) && (a & 0x02 == 0 || a & 0x02 == 2)
    ensures (a & 0x04 == 0 || a & 0x04 == 4) && (a & 0x08 == 0 || a & 0x08 == 8)
    ensures (a & 0x10 == 0 || a & 0x10 == 16) && (a & 0x20 == 0 || a & 0x20 == 32)
    ensures (a & 0x40 == 0 || a & 0x40 == 64) && (a & 0x80 == 0 || a & 0x80 == 128)
  {
  }

  /** The bits of a byte, lowest first. */
  function Bits(a: u8): seq<bool> {
    [a & 0x01 != 0] + [a & 0x02 != 0] + [a & 0x04 != 0] + [a & 0x08 != 0]
    + [a & 0x10 != 0] + [a & 0x20 != 0] + [a & 0x40 != 0] + [a & 0x80 != 0]
  }

  lemma AddBit(bits: seq<bool>, x: u8, y: u8, bit: u8, r: u8)
    requires Combination(BYTES, bits, 1) == x
    requires bit == Pow(BYTES, |bits|) && (y == 0 || y == bit) && r == x ^ y
    ensures Combination(BYTES, bits + [y != 0], 1) == r
  {
    assert (bits + [y != 0])[..|bits|] == bits;
  }

  lemma LowBits(a: u8, s: seq<bool>)
    requires s == [a & 0x01 != 0] + [a & 0x02 != 0] + [a & 0x04 != 0] + [a & 0x08 != 0]
    ensures Combination(BYTES, s, 1) == a & 0x0f
  {
    SmallPowers();
    Masks(a);
    BitMasks(a);
    var s1 := [] + [a & 0x01 != 0];
    AddBit([], 0, a & 0x01, 1, a & 0x01);
    var s2 := s1 + [a & 0x02 != 0];
    AddBit(s1, a & 0x01, a & 0x02, 2, a & 0x03);
    var s3 := s2 + [a & 0x04 != 0];
    AddBit(s2, a & 0x03, a & 0x04, 4, a & 0x07);
    AddBit(s3, a & 0x07, a & 0x08, 8, a & 0x0f);
    assert s3 + [a & 0x08 != 0] == s;
  }

  lemma HighBits(a: u8, s4: seq<bool>, s: seq<bool>)
    requires |s4| == 4 && Combination(BYTES, s4, 1) == a & 0x0f
    requires s == s4 + [a & 0x10 != 0] + [a & 0x20 != 0] + [a & 0x40 != 0] + [a & 0x80 != 0]
    ensures Combination(BYTES, s, 1) == a
  {
    SmallPowers();
    Masks(a);
    BitMasks(a);
    var s5 := s4 + [a & 0x10 != 0];
    AddBit(s4, a & 0x0f, a & 0x10, 16, a & 0x1f);
    var s6 := s5 + [a & 0x20 != 0];
    AddBit(s5, a & 0x1f, a & 0x20, 32, a & 0x3f);
    var s7 := s6 + [a & 0x40 != 0];
    AddBit(s6, a & 0x3f, a & 0x40, 64, a & 0x7f);
    AddBit(s7, a & 0x7f, a & 0x80, 128, a);
    assert s7 + [a & 0x80 != 0] == s;
  }

  /** A byte is the polynomial of its bits. */
  lemma ByteIsItsBits(a: u8)
    ensures Combination(BYTES, Bits(a), 1) == a
  {
    var low := [a & 0x01 != 0] + [a & 0x02 != 0] + [a & 0x04 != 0] + [a & 0x08 != 0];
    var all := low + [a & 0x10 != 0] + [a & 0x20 != 0] + [a & 0x40 != 0] + [a & 0x80 != 0];
    LowBits(a, low);
    HighBits(a, low, all);
  }

  /** The product of bytes is the polynomial product modulo 0x11d: add b*x^i for every bit i of a. */
  lemma ProductIsPolynomialProduct(order: nat, a: u8, b: u8)
    requires order == 255
    ensures GF256(order).mul(a, b) == Combination(BYTES, Bits(a), b)
  {
    XGeneratesTheBytes(order);
    ByteIsItsBits(a);
    ProductIsSchoolbook(BYTES, Bits(a), b, order);
  }
}

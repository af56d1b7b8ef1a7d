/**
 * The exponent and logarithm tables of the kernel (struct powerfs_gf_tables) and the four
 * operations on them.
 */
module GfTables {
  import opened Basics
  import opened Fields
  import opened CyclicFields
  import opened Gf256

  /** An entry of the logarithm table. */
  type byte = x: int | 0 <= x < 256

  function IndexOf(a: u8): byte {
    a as int
  }

  /** The first n powers of x. */
  ghost function Powers(n: nat): (r: seq<u8>)
    ensures |r| == n && forall k :: 0 <= k < n ==> r[k] == Pow(BYTES, k)
  {
    seq(n, k requires 0 <= k => Pow(BYTES, k))
  }

  /** `log` holds an index below n of each of the first n elements of p. */
  ghost predicate LogsUpTo(log: seq<byte>, p: seq<u8>, n: nat)
    requires |log| == 256 && n <= |p|
  {
    forall k :: 0 <= k < n ==> LogOk(log, p, n, k)
  }

  ghost predicate LogOk(log: seq<byte>, p: seq<u8>, n: nat, k: nat)
    requires |log| == 256 && k < n <= |p|
  {
    var l := log[IndexOf(p[k])]; l < n && IndexOf(p[l]) == IndexOf(p[k])
  }

  ghost predicate Doubles(p: seq<u8>) {
    |p| == 256 && p[0] == 1 && forall k :: 0 <= k < 255 ==> p[k + 1] == BYTES.times(p[k])
  }

  lemma PowersDouble(p: seq<u8>)
    requires p == Powers(256)
    ensures Doubles(p)
  {
  }

  /** The first loop of gf_init. */
  method FillTables(exp: array<u8>, log: array<byte>, ghost p: seq<u8>)
    requires exp.Length == 512 && log.Length == 256 && Doubles(p)
    modifies exp, log
    ensures forall k :: 0 <= k < 255 ==> exp[k] == p[k]
    ensures LogsUpTo(log[..], p, 255)
  {
    var x: u8 := 1;
    var i := 0;
    while i < 255
      invariant 0 <= i <= 255
      invariant x == p[i]
      invariant forall k :: 0 <= k < i ==> exp[k] == p[k]
      invariant LogsUpTo(log[..], p, i)
    {
      exp[i] := x;
      ghost var before := log[..];
      log[IndexOf(x)] := i;
      LogsExtend(before, log[..], p, i);
      x := BYTES.times(x);
      i := i + 1;
    }
  }

  lemma LogsExtend(before: seq<byte>, after: seq<byte>, p: seq<u8>, i: byte)
    requires |before| == |after| == 256 && i < |p|
    requires LogsUpTo(before, p, i) && after == before[IndexOf(p[i]) := i]
    ensures LogsUpTo(after, p, i + 1)
  {
    var n := i + 1;
    forall k | 0 <= k < n
      ensures LogOk(after, p, n, k)
    {
      if k < i { assert LogOk(before, p, i, k); }
    }
  }

  /** The second loop of gf_init: exp[i + 255] == exp[i]. */
  method RepeatExponents(exp: array<u8>)
    requires exp.Length == 512
    requires forall k :: 0 <= k < 255 ==> exp[k] == Pow(BYTES, k)
    modifies exp
    ensures forall k :: 0 <= k < 512 ==> exp[k] == Pow(BYTES, k)
  {
    for i := 255 to 512
      invariant forall k :: 0 <= k < i ==> exp[k] == Pow(BYTES, k)
    {
      OnePeriod(i - 255, 255);
      exp[i] := exp[i - 255];
    }
  }

  lemma OnePeriod(n: nat, order: nat)
    requires order == 255
    ensures Pow(BYTES, order + n) == Pow(BYTES, n)
  {
    FullCycle(order);
    CycleRepeats(BYTES, order, 1, n);
  }

  lemma LogsAreComplete(log: seq<byte>, p: seq<u8>, a: u8, order: nat)
    requires order == 255 && |log| == 256 && p == Powers(order + 1) && LogsUpTo(log, p, order) && a != 0
    ensures log[IndexOf(a)] < order && Pow(BYTES, log[IndexOf(a)]) == a
  {
    EveryByteIsAPower(a, order);
    var k :| 0 <= k < order && Pow(BYTES, k) == a;
    assert LogOk(log, p, order, k);
    SameByte(p[log[IndexOf(a)]], a);
  }

  /** a^e by repeated multiplication. */
  ghost function Power(F: Field<u8>, a: u8, e: nat): u8 {
    if e == 0 then F.one else F.mul(a, Power(F, a, e - 1))
  }

  lemma {:induction false} PowerOfPower(k: nat, e: nat, order: nat)
    requires order == 255
    ensures Power(GF256(order), Pow(BYTES, k), e) == Pow(BYTES, k * e)
  {
    if e > 0 {
      PowerOfPower(k, e - 1, order);
      XGeneratesTheBytes(order);
      ProductOfPowers(BYTES, k, k * (e - 1), order);
      assert k + k * (e - 1) == k * e;
    }
  }

  /** The exponent that gf_pow looks up is right exactly when the 32-bit product does not wrap around. */
  lemma TableExponent(l: nat, e: nat, order: nat)
    requires order == 255 && l < order && e < U32
    ensures Power(GF256(order), Pow(BYTES, l), e) == Pow(BYTES, (l * e % U32) % 255) <==> l * e < U32
  {
    PowerOfPower(l, e, order);
    FullCycle(order);
    ReduceExponent(BYTES, l * e, order);
    ProductBound(l, e);
    WrappedResidue(l * e);
    EqualExponents(l * e % 255, (l * e % U32) % 255, order);
  }

  lemma EqualExponents(i: nat, j: nat, order: nat)
    requires order == 255 && i < order && j < order
    ensures Pow(BYTES, i) == Pow(BYTES, j) <==> i == j
  {
    if i < j {
      PowersDistinct(i, j, order);
    } else if j < i {
      PowersDistinct(j, i, order);
    }
  }

  /** 2^32 is 1 modulo 255, so each wrap-around shifts the residue by one. */
  lemma WrappedResidue(n: nat)
    requires n < 255 * U32
    ensures n % 255 == (n % U32) % 255 <==> n < U32
  {
    var w, m := n / U32, n % U32;
    assert n == w + m + 255 * (w * 16843009);
    assert n % 255 == (w + m) % 255;
  }

  lemma {:induction false} ProductBound(l: nat, e: nat)
    requires l < 255
    ensures l * e <= 254 * e
  {
    if e > 0 {
      ProductBound(l, e - 1);
      assert l * e == l * (e - 1) + l;
    }
  }

  class Tables {
    const exp: array<u8>
    const log: array<byte>
    ghost const F: Field<u8>

    /** The arrays of the tables. */
    ghost function Repr(): set<object> {
      {exp, log}
    }

    /** The tables compute in the field F: what the codec relies on. */
    ghost predicate Valid()
      reads exp, log
    {
      && IsField(F) && F.zero == 0 && F.one == 1
      && (forall a: u8, b: u8 {:trigger Xor(a, b)} :: F.add(a, b) == Xor(a, b))
      && exp.Length == 512 && log.Length == 256
      && (forall a: u8 {:trigger IndexOf(a)} :: a != 0 ==> LogAt(a) && F.mul(a, exp[255 - log[IndexOf(a)] as int]) == 1)
      && (forall a: u8, b: u8 {:trigger IndexOf(a), IndexOf(b)} :: a != 0 && b != 0 ==>
            exp[log[IndexOf(a)] as int + log[IndexOf(b)] as int] == F.mul(a, b))
    }

    ghost predicate LogAt(a: u8)
      reads log
    {
      log.Length == 256 && log[IndexOf(a)] < 255
    }

    /** The tables hold the powers of x and their logarithms. */
    ghost predicate Exact(order: nat)
      requires order == 255
      reads exp, log
    {
      && F == GF256(order)
      && exp.Length == 512 && log.Length == 256
      && (forall k :: 0 <= k < 512 ==> exp[k] == Pow(BYTES, k))
      && (forall a: u8 {:trigger IndexOf(a)} :: a != 0 ==> LogAt(a) && Pow(BYTES, log[IndexOf(a)]) == a)
    }

    /** gf_init */
    constructor (order: nat)
      requires order == 255
      ensures Valid() && Exact(order) && fresh(exp) && fresh(log)
    {
      exp := new u8[512](_ => 0);
      log := new byte[256](_ => 0);
      F := GF256(order);
      new;
      ghost var p := Powers(256);
      PowersDouble(p);
      FillTables(exp, log, p);
      RepeatExponents(exp);
      ghost var filled := log[..];
      log[0] := 0;
      forall a: u8 {:trigger IndexOf(a)} | a != 0
        ensures LogAt(a) && Pow(BYTES, log[IndexOf(a)]) == a
      {
        LogsAreComplete(filled, p, a, order);
        ByteInRange(a);
      }
      ExactIsValid(order);
    }

    lemma InverseEntry(a: u8, order: nat)
      requires order == 255 && Exact(order) && a != 0
      ensures F.mul(a, exp[255 - log[IndexOf(a)] as int]) == 1
    {
      XGeneratesTheBytes(order);
      ProductInverse(BYTES, log[IndexOf(a)], order);
    }

    lemma ProductEntry(a: u8, b: u8, order: nat)
      requires order == 255 && Exact(order) && a != 0 && b != 0
      ensures exp[log[IndexOf(a)] as int + log[IndexOf(b)] as int] == F.mul(a, b)
    {
      XGeneratesTheBytes(order);
      ProductOfPowers(BYTES, log[IndexOf(a)], log[IndexOf(b)], order);
    }

    lemma ExactIsValid(order: nat)
      requires order == 255 && Exact(order)
      ensures Valid()
    {
      forall a: u8 {:trigger IndexOf(a)} | a != 0
        ensures LogAt(a) && F.mul(a, exp[255 - log[IndexOf(a)] as int]) == 1
      {
        InverseEntry(a, order);
      }
      forall a: u8, b: u8 {:trigger IndexOf(a), IndexOf(b)} | a != 0 && b != 0
        ensures exp[log[IndexOf(a)] as int + log[IndexOf(b)] as int] == F.mul(a, b)
      {
        ProductEntry(a, b, order);
      }
    }

    /** The kernel's ^ on bytes. */
    function Plus(a: u8, b: u8): (r: u8)
      requires Valid()
      reads exp, log
      ensures r == F.add(a, b)
    {
      Xor(a, b)
    }

    /** gf_mul */
    function Times(a: u8, b: u8): (r: u8)
      requires Valid()
      reads exp, log
      ensures r == F.mul(a, b)
    {
      MulRight(F, b, a, a);
      assert LawsAt(F, a, F.zero, a);
      if a == 0 || b == 0 then 0 else exp[log[IndexOf(a)] as int + log[IndexOf(b)] as int]
    }

    /** gf_inv */
    function Inverse(a: u8): (r: u8)
      requires Valid()
      requires a != 0
      reads exp, log
      ensures F.mul(a, r) == 1 && r != 0
    {
      assert LawsAt(F, a, F.zero, a);
      exp[255 - log[IndexOf(a)] as int]
    }

    /** gf_div */
    function Quotient(a: u8, b: u8, order: nat): (r: u8)
      requires order == 255 && Exact(order)
      requires b != 0
      reads exp, log
      ensures F.mul(r, b) == a
    {
      MulRight(F, b, b, b);
      if a == 0 then
        0
      else
        var k := (log[IndexOf(a)] as int + 255 - log[IndexOf(b)] as int) % 255;
        XGeneratesTheBytes(order);
        ProductOfPowers(BYTES, k, log[IndexOf(b)], order);
        ReduceExponent(BYTES, k + log[IndexOf(b)], order);
        exp[k]
    }

    /**
     * gf_pow, with the 32-bit product of the kernel.  A zero base gives 0 at every exponent,
     * exponent 0 included, so for a zero base it is the power exactly when the exponent is positive.
     */
    function Exponential(a: u8, e: nat, order: nat): (r: u8)
      requires order == 255 && Exact(order)
      requires e < U32
      reads exp, log
      ensures a == 0 ==> r == 0
      ensures a != 0 ==> (r == Power(F, a, e) <==> log[IndexOf(a)] as int * e < U32)
    {
      if a == 0 then
        0
      else if e == 0 then
        1
      else
        var l := log[IndexOf(a)] as int;
        TableExponent(l, e, order);
        exp[(l * e % U32) % 255]
    }
  }
}

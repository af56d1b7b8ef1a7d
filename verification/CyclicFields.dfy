/**
 * Fields built from one linear map, as the kernel builds its exponent table.
 *
 * `times` multiplies by a generator x; iterating it from one lists the nonzero elements, with a
 * period.  The product of two elements adds their exponents.  Everything here holds for any
 * element type; `Gf256` supplies the bytes.
 */
module CyclicFields {
  import opened Fields

  /** A group under `add` with the map `times`, multiplication by the generator. */
  datatype Generator<!T> = Generator(zero: T, one: T, add: (T, T) -> T, times: T -> T)

  ghost predicate GroupLawsAt<T>(G: Generator<T>, a: T, b: T, c: T) {
    && G.add(a, b) == G.add(b, a)
    && G.add(G.add(a, b), c) == G.add(a, G.add(b, c))
    && G.add(a, G.zero) == a
    && G.add(a, a) == G.zero
    && G.times(G.add(a, b)) == G.add(G.times(a), G.times(b))
  }

  /** b multiplied n times by x. */
  ghost function Shifted<T>(G: Generator<T>, b: T, n: nat): T {
    if n == 0 then b else G.times(Shifted(G, b, n - 1))
  }

  /** x^n */
  ghost function Pow<T>(G: Generator<T>, n: nat): T {
    Shifted(G, G.one, n)
  }

  ghost predicate IsLinear<T(!new)>(G: Generator<T>) {
    && G.zero != G.one
    && (forall a, b, c :: GroupLawsAt(G, a, b, c))
    && (forall a, b :: G.times(a) == G.times(b) ==> a == b)
  }

  ghost predicate IsPower<T>(G: Generator<T>, a: T, period: nat) {
    exists k :: 0 <= k < period && Pow(G, k) == a
  }

  ghost predicate IsGenerator<T(!new)>(G: Generator<T>, period: nat) {
    && IsLinear(G)
    && Pow(G, period) == G.one
    && (forall a :: a != G.zero ==> IsPower(G, a, period))
  }

  // ---------------------------------------------------------------- shifting

  lemma {:induction false} ShiftsCompose<T>(G: Generator<T>, b: T, m: nat, n: nat)
    ensures Shifted(G, Shifted(G, b, m), n) == Shifted(G, b, m + n)
  {
    if n > 0 {
      ShiftsCompose(G, b, m, n - 1);
    }
  }

  lemma {:induction false} ShiftedLinear<T(!new)>(G: Generator<T>, a: T, b: T, n: nat)
    requires IsLinear(G)
    ensures Shifted(G, G.add(a, b), n) == G.add(Shifted(G, a, n), Shifted(G, b, n))
  {
    if n > 0 {
      ShiftedLinear(G, a, b, n - 1);
      assert GroupLawsAt(G, Shifted(G, a, n - 1), Shifted(G, b, n - 1), a);
    }
  }

  lemma {:induction false} ShiftedZero<T(!new)>(G: Generator<T>, n: nat)
    requires IsLinear(G)
    ensures Shifted(G, G.zero, n) == G.zero
  {
    if n > 0 {
      ShiftedZero(G, n - 1);
      var z := G.times(G.zero);
      assert GroupLawsAt(G, G.zero, G.zero, G.zero);
      assert GroupLawsAt(G, z, z, z);
    }
  }

  lemma {:induction false} ShiftedInjective<T(!new)>(G: Generator<T>, a: T, b: T, n: nat)
    requires IsLinear(G)
    requires Shifted(G, a, n) == Shifted(G, b, n)
    ensures a == b
  {
    if n > 0 {
      ShiftedInjective(G, a, b, n - 1);
    }
  }

  lemma PowersAdd<T>(G: Generator<T>, m: nat, n: nat)
    ensures Shifted(G, Pow(G, m), n) == Pow(G, m + n)
  {
    ShiftsCompose(G, G.one, m, n);
  }

  lemma PowersNonzero<T(!new)>(G: Generator<T>, n: nat)
    requires IsLinear(G)
    ensures Pow(G, n) != G.zero
  {
    ShiftedZero(G, n);
    if Pow(G, n) == G.zero {
      ShiftedInjective(G, G.one, G.zero, n);
    }
  }

  // ---------------------------------------------------------------- cycles

  lemma {:induction false} CycleRepeats<T>(G: Generator<T>, d: nat, q: nat, r: nat)
    requires Pow(G, d) == G.one
    ensures Pow(G, d * q + r) == Pow(G, r)
    decreases q
  {
    if q > 0 {
      assert d * q + r == d + (d * (q - 1) + r);
      PowersAdd(G, d, d * (q - 1) + r);
      CycleRepeats(G, d, q - 1, r);
    }
  }

  lemma ReduceExponent<T>(G: Generator<T>, n: nat, period: nat)
    requires period > 0 && Pow(G, period) == G.one
    ensures Pow(G, n) == Pow(G, n % period)
  {
    CycleRepeats(G, period, n / period, n % period);
    assert n == period * (n / period) + n % period;
  }

  /** Two equal powers close a cycle. */
  lemma EqualPowers<T(!new)>(G: Generator<T>, i: nat, j: nat)
    requires IsLinear(G) && i <= j && Pow(G, i) == Pow(G, j)
    ensures Pow(G, j - i) == G.one
  {
    PowersAdd(G, j - i, i);
    ShiftedInjective(G, G.one, Pow(G, j - i), i);
  }

  // ---------------------------------------------------------------- the product

  ghost function Log<T(!new)>(G: Generator<T>, a: T, period: nat): (k: nat)
    requires IsGenerator(G, period) && a != G.zero
    ensures k < period && Pow(G, k) == a
  {
    assert IsPower(G, a, period);
    var k :| 0 <= k < period && Pow(G, k) == a;
    k
  }

  /** a*b: shift b by the exponent of a. */
  ghost function Product<T(!new)>(G: Generator<T>, a: T, b: T, period: nat): T
    requires IsGenerator(G, period)
  {
    if a == G.zero then G.zero else Shifted(G, b, Log(G, a, period))
  }

  lemma ProductOfPower<T(!new)>(G: Generator<T>, k: nat, b: T, period: nat)
    requires IsGenerator(G, period)
    ensures Product(G, Pow(G, k), b, period) == Shifted(G, b, k)
  {
    PowersNonzero(G, k);
    var l := Log(G, Pow(G, k), period);
    if b == G.zero {
      ShiftedZero(G, k);
      ShiftedZero(G, l);
    } else {
      var m := Log(G, b, period);
      PowersAdd(G, m, k);
      PowersAdd(G, k, m);
      PowersAdd(G, m, l);
      PowersAdd(G, l, m);
    }
  }

  lemma ProductOfPowers<T(!new)>(G: Generator<T>, m: nat, n: nat, period: nat)
    requires IsGenerator(G, period)
    ensures Product(G, Pow(G, m), Pow(G, n), period) == Pow(G, m + n)
  {
    ProductOfPower(G, m, Pow(G, n), period);
    PowersAdd(G, n, m);
  }

  lemma ProductZero<T(!new)>(G: Generator<T>, a: T, period: nat)
    requires IsGenerator(G, period)
    ensures Product(G, a, G.zero, period) == G.zero && Product(G, G.zero, a, period) == G.zero
  {
    if a != G.zero {
      ShiftedZero(G, Log(G, a, period));
    }
  }

  lemma ProductCommutes<T(!new)>(G: Generator<T>, a: T, b: T, period: nat)
    requires IsGenerator(G, period)
    ensures Product(G, a, b, period) == Product(G, b, a, period)
  {
    if a == G.zero || b == G.zero {
      ProductZero(G, a, period);
      ProductZero(G, b, period);
    } else {
      ProductOfPowers(G, Log(G, a, period), Log(G, b, period), period);
      ProductOfPowers(G, Log(G, b, period), Log(G, a, period), period);
    }
  }

  lemma ProductAssociates<T(!new)>(G: Generator<T>, a: T, b: T, c: T, period: nat)
    requires IsGenerator(G, period)
    ensures Product(G, Product(G, a, b, period), c, period) == Product(G, a, Product(G, b, c, period), period)
  {
    if a == G.zero || b == G.zero || c == G.zero {
      ProductZero(G, a, period);
      ProductZero(G, b, period);
      ProductZero(G, c, period);
      ProductZero(G, Product(G, a, b, period), period);
    } else {
      var i, j, k := Log(G, a, period), Log(G, b, period), Log(G, c, period);
      ProductOfPowers(G, i, j, period);
      ProductOfPowers(G, j, k, period);
      ProductOfPowers(G, i + j, k, period);
      ProductOfPowers(G, i, j + k, period);
    }
  }

  lemma ProductDistributes<T(!new)>(G: Generator<T>, a: T, b: T, c: T, period: nat)
    requires IsGenerator(G, period)
    ensures Product(G, a, G.add(b, c), period) == G.add(Product(G, a, b, period), Product(G, a, c, period))
  {
    assert GroupLawsAt(G, G.zero, G.zero, G.zero);
    if a != G.zero {
      ShiftedLinear(G, b, c, Log(G, a, period));
    }
  }

  lemma ProductInverse<T(!new)>(G: Generator<T>, k: nat, period: nat)
    requires IsGenerator(G, period) && k <= period
    ensures Product(G, Pow(G, k), Pow(G, period - k), period) == G.one
  {
    ProductOfPowers(G, k, period - k, period);
  }

  /** The sum of b*x^i over the set bits i: a polynomial, given by its coefficients, times b. */
  ghost function Combination<T>(G: Generator<T>, bits: seq<bool>, b: T): T {
    if bits == [] then G.zero
    else
      var i := |bits| - 1;
      G.add(Combination(G, bits[..i], b), if bits[i] then Shifted(G, b, i) else G.zero)
  }

  /** Multiplying the element with polynomial `bits` by b is the schoolbook product. */
  lemma {:induction false} ProductIsSchoolbook<T(!new)>(G: Generator<T>, bits: seq<bool>, b: T, period: nat)
    requires IsGenerator(G, period)
    ensures Product(G, Combination(G, bits, G.one), b, period) == Combination(G, bits, b)
  {
    if bits == [] {
    } else {
      var i := |bits| - 1;
      var rest := Combination(G, bits[..i], G.one);
      var term := if bits[i] then Pow(G, i) else G.zero;
      ProductIsSchoolbook(G, bits[..i], b, period);
      ProductOfPower(G, i, b, period);
      ProductZero(G, b, period);
      ProductDistributes(G, b, rest, term, period);
      ProductCommutes(G, b, G.add(rest, term), period);
      ProductCommutes(G, b, rest, period);
      ProductCommutes(G, b, term, period);
    }
  }

  ghost function FieldOf<T(!new)>(G: Generator<T>, period: nat): Field<T>
    requires IsGenerator(G, period)
  {
    Field(G.zero, G.one, G.add, (a, b) => Product(G, a, b, period))
  }

  lemma FieldOfIsField<T(!new)>(G: Generator<T>, period: nat)
    requires IsGenerator(G, period)
    ensures IsField(FieldOf(G, period))
  {
    var F := FieldOf(G, period);
    forall a, b, c
      ensures LawsAt(F, a, b, c)
    {
      assert GroupLawsAt(G, a, b, c);
      ProductCommutes(G, a, b, period);
      ProductAssociates(G, a, b, c, period);
      ProductDistributes(G, a, b, c, period);
      ProductZero(G, a, period);
      ProductOfPower(G, 0, a, period);
      ProductCommutes(G, a, G.one, period);
    }
    forall a | a != F.zero
      ensures HasInverse(F, a)
    {
      var k := Log(G, a, period);
      ProductInverse(G, k, period);
      assert F.mul(a, Pow(G, period - k)) == F.one;
    }
  }
}

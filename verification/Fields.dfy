/**
 * Fields of characteristic two, as values.
 *
 * The codec is proved over any such field; `Gf256` shows that the kernel's tables compute in one.
 */
module Fields {

  datatype Field<!T> = Field(zero: T, one: T, add: (T, T) -> T, mul: (T, T) -> T)

  /** The laws that need no inverse, at three elements. */
  ghost predicate LawsAt<T>(F: Field<T>, a: T, b: T, c: T) {
    && F.add(a, b) == F.add(b, a)
    && F.add(F.add(a, b), c) == F.add(a, F.add(b, c))
    && F.add(a, F.zero) == a
    && F.add(a, a) == F.zero
    && F.mul(a, b) == F.mul(b, a)
    && F.mul(F.mul(a, b), c) == F.mul(a, F.mul(b, c))
    && F.mul(a, F.add(b, c)) == F.add(F.mul(a, b), F.mul(a, c))
    && F.mul(a, F.one) == a
    && F.mul(a, F.zero) == F.zero
  }

  ghost predicate HasInverse<T(!new)>(F: Field<T>, a: T) {
    exists b :: F.mul(a, b) == F.one
  }

  ghost predicate IsField<T(!new)>(F: Field<T>) {
    && F.zero != F.one
    && (forall a, b, c :: LawsAt(F, a, b, c))
    && (forall a :: a != F.zero ==> HasInverse(F, a))
  }

  lemma AddZeroLeft<T(!new)>(F: Field<T>, a: T)
    requires IsField(F)
    ensures F.add(F.zero, a) == a && F.add(a, F.zero) == a
  {
    assert LawsAt(F, a, F.zero, a);
  }

  lemma AddSwap<T(!new)>(F: Field<T>, a: T, b: T, c: T, d: T)
    requires IsField(F)
    ensures F.add(F.add(a, b), F.add(c, d)) == F.add(F.add(a, c), F.add(b, d))
  {
    assert LawsAt(F, a, b, F.add(c, d));
    assert LawsAt(F, b, c, d);
    assert LawsAt(F, c, b, d);
    assert LawsAt(F, a, c, F.add(b, d));
  }

  lemma AddCancel<T(!new)>(F: Field<T>, a: T, b: T, c: T)
    requires IsField(F)
    requires F.add(a, c) == F.add(b, c)
    ensures a == b
  {
    assert LawsAt(F, a, c, c);
    assert LawsAt(F, b, c, c);
    assert LawsAt(F, c, c, c);
  }

  lemma MulRight<T(!new)>(F: Field<T>, a: T, b: T, c: T)
    requires IsField(F)
    ensures F.mul(F.add(a, b), c) == F.add(F.mul(a, c), F.mul(b, c))
    ensures F.mul(F.mul(a, b), c) == F.mul(F.mul(a, c), b)
    ensures F.mul(F.zero, a) == F.zero && F.mul(F.one, a) == a
  {
    assert LawsAt(F, c, a, b);
    assert LawsAt(F, F.add(a, b), c, c);
    assert LawsAt(F, a, c, c);
    assert LawsAt(F, b, c, c);
    assert LawsAt(F, a, b, c);
    assert LawsAt(F, a, c, b);
    assert LawsAt(F, a, F.zero, a);
    assert LawsAt(F, a, F.one, a);
  }

  lemma MulCancel<T(!new)>(F: Field<T>, a: T, b: T, c: T)
    requires IsField(F)
    requires c != F.zero && F.mul(a, c) == F.mul(b, c)
    ensures a == b
  {
    assert HasInverse(F, c);
    var d :| F.mul(c, d) == F.one;
    assert LawsAt(F, a, c, d);
    assert LawsAt(F, b, c, d);
  }
}

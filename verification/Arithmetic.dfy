/** Division facts shared by the addressing and the paging proofs. */
module Arithmetic {

  lemma MulAtLeast(a: int, d: int)
    requires d > 0
    ensures a >= 1 ==> a * d >= d
  {
  }

  /** A quotient and a remainder in range are the quotient and the remainder. */
  lemma DivUnique(x: int, d: int, q: int, r: int)
    requires d > 0 && x == q * d + r && 0 <= r < d
    ensures x / d == q && x % d == r
  {
    assert x == (x / d) * d + x % d;
    assert (x / d - q) * d == r - x % d;
    MulAtLeast(x / d - q, d);
    MulAtLeast(q - x / d, d);
  }

  lemma DivMonotone(x: int, y: int, d: int)
    requires d > 0 && x <= y
    ensures x / d <= y / d
  {
    MulAtLeast(x / d - y / d, d);
    assert (x / d - y / d) * d == x / d * d - y / d * d;
  }

  lemma DivBound(x: int, d: int)
    requires d > 0
    ensures (x / d) * d <= x < (x / d + 1) * d
  {
    assert x == (x / d) * d + x % d;
  }

  /** Dividing by a * b is dividing by a and then by b. */
  lemma DivDiv(x: int, a: int, b: int)
    requires a > 0 && b > 0 && x >= 0
    ensures a * b > 0
    ensures x / (a * b) == (x / a) / b
    ensures (x % (a * b)) / a == (x / a) % b
  {
    var q, s, t := x / a, (x / a) / b, (x / a) % b;
    assert q == s * b + t;
    assert x == (s * b + t) * a + x % a;
    assert (s * b + t) * a == s * (a * b) + t * a by {
      assert (s * b + t) * a == s * b * a + t * a;
      assert s * b * a == s * (a * b);
    }
    assert t * a <= (b - 1) * a == a * b - a;
    DivUnique(x, a * b, s, t * a + x % a);
    DivUnique(t * a + x % a, a, t, x % a);
  }

  lemma DivAtMost(x: nat, d: nat)
    requires d > 0
    ensures 0 <= x / d <= x
  {
    DivMonotone(0, x, d);
    DivUnique(0, d, 0, 0);
    var q := x / d;
    MulMonotone(q, q, 1, d);
    assert x == q * d + x % d;
  }

  lemma MulMonotone(a: nat, b: nat, c: nat, d: nat)
    requires a <= b && c <= d
    ensures 0 <= a * c <= b * d
  {
    assert a * c <= b * c;
    assert b * c <= b * d;
  }
}

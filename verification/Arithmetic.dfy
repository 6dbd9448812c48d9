/** The few facts of non-linear arithmetic the proofs rest on. */
module Arithmetic {
  lemma MulMonotone(a: int, b: int, c: nat)
    requires a <= b
    ensures a * c <= b * c
  {
  }

  lemma QuotientBound(x: nat, d: nat)
    requires d > 0
    ensures 0 <= x / d <= x && d * (x / d) <= x < d * (x / d) + d
  {
    MulMonotone(1, d, x / d);
  }

  /** The quotient is the only integer in its interval. */
  lemma QuotientUnique(x: int, d: nat, q: int)
    requires d > 0 && q * d <= x < q * d + d
    ensures x / d == q
  {
    if x / d < q {
      MulMonotone(x / d + 1, q, d);
    } else if x / d > q {
      MulMonotone(q + 1, x / d, d);
    }
  }

  /** A step shorter than the modulus changes the remainder. */
  lemma ModDiffers(x: nat, step: nat, n: nat)
    requires 0 < step < n
    ensures x % n != (x + step) % n
  {
    var p := x % n + step;
    QuotientUnique(x + step, n, if p < n then x / n else x / n + 1);
  }

  /** The remainder is the only one that fits. */
  lemma RemainderUnique(x: int, d: nat, q: int, r: nat)
    requires r < d && x == q * d + r
    ensures x / d == q && x % d == r
  {
    QuotientUnique(x, d, q);
  }

  lemma ModDouble(v: nat, p: nat)
    requires p > 0
    ensures v % (2 * p) == 2 * (v / 2 % p) + v % 2
  {
    var q, r := v / 2 / p, v / 2 % p;
    assert v / 2 == q * p + r;
    assert q * (2 * p) == 2 * (q * p);
    RemainderUnique(v, 2 * p, q, 2 * r + v % 2);
  }

  lemma ModOfMod(v: nat, a: nat, b: nat)
    requires a > 0 && b > 0
    ensures a * b > 0 && v % (a * b) % a == v % a
  {
    MulMonotone(1, b, a);
    var q, r := v / (a * b), v % (a * b);
    var s, t := r / a, r % a;
    assert v == q * (a * b) + r;
    assert r == s * a + t;
    assert q * (a * b) == (q * b) * a;
    assert (q * b + s) * a == (q * b) * a + s * a;
    RemainderUnique(v, a, q * b + s, t);
  }
}

/** Facts about Euclidean remainder that the circle-method proof uses.
    All operands are such that Dafny's `%` agrees with Swift's (the
    divisor is positive and every dividend the source computes is
    non-negative). */
module Arith {

  /** The remainder is determined by any decomposition `x == q * m + r` with `0 <= r < m`. */
  lemma ModUnique(x: int, m: int, q: int, r: int)
    requires m > 0 && 0 <= r < m && x == q * m + r
    ensures x % m == r && x / m == q
  {
    var q', r' := x / m, x % m;
    assert x == q' * m + r';
    assert (q' - q) * m == r - r';
    if q' > q {
      MulAtLeast(q' - q, m);
      assert false;
    } else if q' < q {
      MulAtLeast(q - q', m);
      assert false;
    }
  }

  lemma Distribute(a: int, b: int, c: int)
    ensures (a + b) * c == a * c + b * c
  {
  }

  /** Shifting by `r` and back again modulo `m` returns a remainder. */
  lemma ModUndo(x: int, r: int, m: int)
    requires m > 0 && 0 <= x < m
    ensures ((x + r) % m - r) % m == x
  {
    var q, a := (x + r) / m, (x + r) % m;
    assert x + r == q * m + a;
    assert a - r == x + (-q) * m;
    ModShift(x, m, -q);
    ModSmall(x, m);
  }

  /** Equal factors give equal products (the verifier treats a product of
      two variables as an opaque term, so this step must be asked for). */
  lemma MulCongruent(a: int, b: int, c: int, d: int)
    requires a == c && b == d
    ensures a * b == c * d
  {
  }

  lemma MulAtLeast(k: int, m: int)
    requires k >= 1 && m > 0
    ensures k * m >= m
  {
  }

  lemma ModSmall(x: int, m: int)
    requires 0 <= x < m
    ensures x % m == x
  {
    ModUnique(x, m, 0, x);
  }

  /** Adding a multiple of the modulus does not change the remainder. */
  lemma ModShift(x: int, m: int, k: int)
    requires m > 0
    ensures (x + k * m) % m == x % m
  {
    var q, r := x / m, x % m;
    assert x == q * m + r;
    assert x + k * m == (q + k) * m + r;
    ModUnique(x + k * m, m, q + k, r);
  }

  /** Two numbers closer than the modulus with the same remainder are equal. */
  lemma ModClose(a: int, b: int, m: int)
    requires m > 0 && a % m == b % m && -m < a - b < m
    ensures a == b
  {
    var qa, qb := a / m, b / m;
    assert a == qa * m + a % m;
    assert b == qb * m + b % m;
    assert a - b == (qa - qb) * m;
    assert b - a == (qb - qa) * m;
    if qa - qb >= 1 {
      MulAtLeast(qa - qb, m);
      assert false;
    } else if qb - qa >= 1 {
      MulAtLeast(qb - qa, m);
      assert false;
    }
  }

  /** The remainder of a sum depends only on the remainders of its terms. */
  lemma ModAdd(a: int, b: int, m: int)
    requires m > 0
    ensures (a % m + b) % m == (a + b) % m
  {
    assert a == (a / m) * m + a % m;
    ModShift(a % m + b, m, a / m);
    assert a % m + b + (a / m) * m == a + b;
  }

  /** Halving is unique modulo an odd number: `2 * d` is a multiple of the
      odd `m` only for `d == 0` when `d` is smaller than `m` in size. */
  lemma DoubleModOdd(d: int, m: int, k: int)
    requires m > 0 && m % 2 == 1 && -m < d < m && 2 * d == k * m
    ensures d == 0
  {
    assert k * m == (k - 2) * m + 2 * m;
    assert -k * m == (-k - 2) * m + 2 * m;
    if k >= 2 {
      MulNonNeg(k - 2, m);
      assert false;
    } else if k <= -2 {
      MulNonNeg(-k - 2, m);
      assert false;
    } else if k == 1 || k == -1 {
      assert false;
    }
  }

  lemma MulNonNeg(a: int, b: int)
    requires a >= 0 && b >= 0
    ensures a * b >= 0
  {
  }
}

/** Facts about multiplication, Euclidean division and real division the
    solver does not find unaided. */
module Arith {
  lemma MulMono(a: int, b: int, c: int)
    requires a <= b && c >= 0
    ensures a * c <= b * c
  {
  }

  /** Euclidean division has one quotient and remainder. */
  lemma DivUnique(k: int, d: int, q: int, r: int)
    requires d > 0 && 0 <= r < d && k == q * d + r
    ensures k / d == q && k % d == r
  {
    var q', r' := k / d, k % d;
    assert k == q' * d + r';
    if q' < q {
      MulMono(q' + 1, q, d);
    } else if q < q' {
      MulMono(q + 1, q', d);
    }
  }

  /** Dividing by a positive real and multiplying back gives the dividend. */
  lemma RealDivMul(a: real, b: real)
    requires b > 0.0
    ensures a / b * b == a
  {
  }

  /** A non-negative real divided by a positive one is non-negative. */
  lemma RealDivNonNegative(a: real, b: real)
    requires a >= 0.0 && b > 0.0
    ensures a / b >= 0.0
  {
    RealDivMul(a, b);
  }

  /** A quotient of non-negative reals is bounded by any `k` with
      `a <= k * b`. */
  lemma RealDivAtMost(a: real, b: real, k: real)
    requires 0.0 <= a <= k * b && b > 0.0
    ensures 0.0 <= a / b <= k
  {
    RealDivMul(a, b);
    RealDivNonNegative(a, b);
    if a / b > k {
      RealMulStrict(k, a / b, b);
    }
  }

  /** Multiplying by a positive real keeps a strict order. */
  lemma RealMulStrict(x: real, y: real, c: real)
    requires x < y && c > 0.0
    ensures x * c < y * c
  {
  }

  /** The product of two integers is the same as integer or as real. */
  lemma RealOfProduct(a: int, b: int)
    ensures (a * b) as real == a as real * b as real
  {
  }

  /** Multiplying by a positive real keeps a weak order. */
  lemma RealMulMono(x: real, y: real, c: real)
    requires x <= y && c > 0.0
    ensures x * c <= y * c
  {
  }

  /** If `n` is the ceiling of `a / b`, then `n` steps of `b` reach `a` and
      one step fewer falls short of it. */
  lemma CeilingCovers(a: real, b: real, n: real)
    requires b > 0.0 && n - 1.0 < a / b <= n
    ensures n * b >= a && (n - 1.0) * b < a
  {
    RealDivMul(a, b);
    CeilingOfQuotient(a, b, n, a / b);
  }

  /** The same, for a quotient `q` given by `q * b == a`. */
  lemma CeilingOfQuotient(a: real, b: real, n: real, q: real)
    requires b > 0.0 && q * b == a && n - 1.0 < q <= n
    ensures n * b >= a && (n - 1.0) * b < a
  {
    assert n * b >= a by {
      RealMulMono(q, n, b);
    }
    var m := n - 1.0;
    assert m * b < a by {
      RealMulStrict(m, q, b);
    }
  }
}

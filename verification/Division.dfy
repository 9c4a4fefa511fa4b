/** Quotients and remainders are determined by what they add up to. */
module Division {
  import opened Moments

  lemma Remainder(x: int, q: int, d: int, r: int)
    requires 0 <= r < d && x == q * d + r
    ensures x % d == r && x / d == q
  {
    DivisionUnique(q, r, x / d, x % d, d);
  }

  lemma DivisionUnique(q: int, r: int, q': int, r': int, d: int)
    requires 0 <= r < d && 0 <= r' < d && q * d + r == q' * d + r'
    ensures q == q' && r == r'
  {
    assert (q' - q) * d == r - r';
    if q' > q {
      Multiple(q' - q, d);
    } else if q' < q {
      Multiple(q - q', d);
    }
  }

  lemma Multiple(n: int, d: int)
    requires n >= 1 && d >= 0
    ensures n * d >= d
  {}

  lemma QuotientExact(a: nat, b: nat)
    requires b > 0
    ensures a / b >= 0 && a / b * b <= a < a / b * b + b
  {}

  /** The floor of a real quotient is the integer quotient. */
  lemma FloorOfQuotient(a: nat, q: real, s: int)
    requires s > 0 && q * s as real == a as real
    ensures q.Floor == a / s
  {
    var c := q.Floor;
    assert c >= 0 by { assert Times(q, s as real) == a as real; }
    RealProduct(c, s);
    RestBelow(a as real, q, c as real, s as real);
    assert (a - c * s) as real == a as real - c as real * s as real;
    Remainder(a, c, s, a - c * s);
  }

  lemma RestBelow(a: real, q: real, c: real, s: real)
    requires s > 0.0 && q * s == a && c <= q < c + 1.0
    ensures 0.0 <= a - c * s < s
  {
    assert Times(q - c, s) == q * s - c * s && Times(c + 1.0 - q, s) == c * s + s - q * s;
  }

  lemma {:induction false} RealProduct(n: nat, s: int)
    ensures (n * s) as real == n as real * s as real
  {
    if n > 0 {
      RealProduct(n - 1, s);
      assert n * s == (n - 1) * s + s;
      assert n as real * s as real == (n - 1) as real * s as real + s as real;
    }
  }
}

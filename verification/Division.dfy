/** Products and quotients of natural numbers. */
module Division {

  lemma MulAssoc(a: nat, b: nat, c: nat)
    ensures a * b * c == a * (b * c)
  {
  }

  lemma MulDistributes(c: nat, a: nat, b: nat)
    ensures c * (a + b) == c * a + c * b
  {
  }

  lemma MulSucc(c: nat, q: nat)
    ensures c * (q + 1) == c * q + c
  {
  }

  lemma {:induction false} MulMonotone(c: nat, p: nat, q: nat)
    requires p <= q
    ensures c * p <= c * q
    decreases q
  {
    if p < q {
      MulMonotone(c, p, q - 1);
      MulSucc(c, q - 1);
    }
  }

  lemma MulGap(c: nat, p: nat, q: nat)
    requires p < q
    ensures c * p + c <= c * q
  {
    MulMonotone(c, p + 1, q);
    MulSucc(c, p);
  }

  /** Quotient and remainder are unique. */
  lemma DivUnique(a: nat, c: nat, q: nat, r: nat)
    requires r < c && a == c * q + r
    ensures a / c == q && a % c == r
  {
    var p, t := a / c, a % c;
    assert a == c * p + t;
    if p < q {
      MulGap(c, p, q);
    } else if q < p {
      MulGap(c, q, p);
    }
  }

  /** A multiple of the divisor adds to the quotient only. */
  lemma AddMultiple(a: nat, c: nat, k: nat)
    requires 0 < c
    ensures (c * k + a) / c == k + a / c && (c * k + a) % c == a % c
  {
    var q, r := a / c, a % c;
    assert a == c * q + r;
    MulDistributes(c, k, q);
    DivUnique(c * k + a, c, k + q, r);
  }

  lemma DivMonotone(a: nat, b: nat, c: nat)
    requires a <= b && 0 < c
    ensures a / c <= b / c
  {
    if b / c < a / c {
      MulGap(c, b / c, a / c);
    }
  }

  lemma DivBelow(a: nat, c: nat, k: nat)
    requires 0 < c && a < c * k
    ensures a / c < k
  {
    if k <= a / c {
      MulMonotone(c, k, a / c);
    }
  }

  /** Equal sums of a multiple and of remainders below the divisor. */
  lemma NearQuotients(c: nat, q: nat, s: nat, x: nat, y: nat, z: nat)
    requires x < c && y < c && z < c && c * s + x + y == c * q + z
    ensures s == q || s == q - 1
    ensures s == q <==> y <= z
  {
    if q < s {
      MulGap(c, q, s);
    } else if s + 1 < q {
      MulGap(c, s + 1, q);
      MulSucc(c, s);
    } else if s + 1 == q {
      MulSucc(c, s);
    }
  }

  lemma QuotientRemainder(a: nat, c: nat)
    requires 0 < c
    ensures a == c * (a / c) + a % c
  {
  }

  lemma RemainderSmall(a: nat, c: nat)
    requires a < c
    ensures a % c == a
  {
    DivUnique(a, c, 0, a);
  }

  /** Taking the divisor away does not change the remainder. */
  lemma RemainderBelow(a: nat, c: nat)
    requires 1 <= c <= a
    ensures (a - c) % c == a % c
  {
    AddMultiple(a - c, c, 1);
  }
}

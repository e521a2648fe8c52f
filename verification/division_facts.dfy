/** Facts about truncating division of naturals that the fixed-point
    proofs use. Each proof names its quotients first and then supplies the
    product facts, so the solver only has linear steps left. */
module DivisionFacts {

  /** Floor division is characterised by its quotient bounds. */
  lemma {:induction false} DivBounds(a: nat, b: nat)
    requires b > 0
    ensures (a / b) * b <= a < (a / b + 1) * b
  {
    assert a == (a / b) * b + a % b;
  }

  /** Multiplying by the same factor keeps the order. */
  lemma MulMono(x: nat, y: nat, b: nat)
    ensures x <= y ==> x * b <= y * b
  {
    if x <= y {
      assert y * b == x * b + (y - x) * b;
    }
  }

  /** A quotient bounded by both sides of a product is the quotient. */
  lemma {:induction false} DivUnique(a: nat, b: nat, q: nat)
    requires b > 0
    requires q * b <= a < (q + 1) * b
    ensures a / b == q
  {
    var p := a / b;
    DivBounds(a, b);
    MulMono(q + 1, p, b);
    MulMono(p + 1, q, b);
  }

  /** For any quotient bounded like `a / b`: it is at least `k` exactly
      when `a` is at least `k * b`. */
  lemma QuotientAtLeast(a: nat, b: nat, q: nat, k: nat)
    requires q * b <= a < (q + 1) * b
    ensures q >= k <==> a >= k * b
  {
    MulMono(k, q, b);
    MulMono(q + 1, k, b);
  }

  /** `a / b >= k` exactly when `a >= k * b`. */
  lemma DivAtLeast(a: nat, b: nat, k: nat)
    requires b > 0
    ensures a / b >= k <==> a >= k * b
  {
    var q := a / b;
    DivBounds(a, b);
    QuotientAtLeast(a, b, q, k);
  }

  /** Scaling dividend and divisor by the same factor keeps the quotient. */
  lemma {:induction false} DivCancel(a: nat, b: nat, c: nat)
    requires b > 0 && c > 0
    ensures (a * c) / (b * c) == a / b
  {
    var q := a / b;
    DivBounds(a, b);
    MulMono(q * b, a, c);
    MulMono(a + 1, (q + 1) * b, c);
    assert q * (b * c) == (q * b) * c;
    assert (q + 1) * (b * c) == ((q + 1) * b) * c;
    assert (a + 1) * c == a * c + c;
    DivUnique(a * c, b * c, q);
  }

  /** Dividing twice is dividing by the product. */
  lemma {:induction false} DivDiv(a: nat, b: nat, c: nat)
    requires b > 0 && c > 0
    ensures (a / b) / c == a / (b * c)
  {
    var q := a / b;
    var p := q / c;
    DivBounds(a, b);
    DivBounds(q, c);
    MulMono(p * c, q, b);
    MulMono(q + 1, (p + 1) * c, b);
    assert p * (b * c) == (p * c) * b;
    assert (p + 1) * (b * c) == ((p + 1) * c) * b;
    DivUnique(a, b * c, p);
  }

  /** A larger dividend never gives a smaller quotient. */
  lemma {:induction false} DivMonoDividend(a1: nat, a2: nat, b: nat)
    requires b > 0 && a1 <= a2
    ensures a1 / b <= a2 / b
  {
    var q1 := a1 / b;
    var q2 := a2 / b;
    DivBounds(a1, b);
    DivBounds(a2, b);
    QuotientAtLeast(a2, b, q2, q1);
  }

  /** A larger divisor never gives a larger quotient. */
  lemma {:induction false} DivMonoDivisor(a: nat, b1: nat, b2: nat)
    requires 0 < b1 <= b2
    ensures a / b2 <= a / b1
  {
    var q1 := a / b1;
    var q2 := a / b2;
    DivBounds(a, b1);
    DivBounds(a, b2);
    MulMono(b1, b2, q2);
    assert q2 * b1 == b1 * q2 && q2 * b2 == b2 * q2;
    QuotientAtLeast(a, b1, q1, q2);
  }
}

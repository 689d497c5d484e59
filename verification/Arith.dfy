/** Products and quotients of variables, one fact at a time. */
module Arith {
  lemma Quotient(a: nat, b: nat)
    requires 0 < b
    ensures 0 <= a / b && 0 <= a % b < b
    ensures a / b * b <= a < a / b * b + b
  {
  }

  lemma MulLe(a: nat, b: nat, k: nat)
    requires a <= b
    ensures a * k <= b * k
  {
  }

  lemma Distribute(a: nat, b: nat, k: nat)
    ensures (a + b) * k == a * k + b * k
  {
  }

  lemma Associate(a: nat, b: nat, k: nat)
    ensures a * (b * k) == a * b * k
  {
  }

  // The quotient q with remainder below b is unique.
  lemma QuotientUnique(a: nat, b: nat, q: nat)
    requires q * b <= a < q * b + b
    ensures 0 < b && a / b == q
  {
    Quotient(a, b);
    if q < a / b {
      MulLe(q + 1, a / b, b);
      Distribute(q, 1, b);
      assert false;
    } else if a / b < q {
      MulLe(a / b + 1, q, b);
      Distribute(a / b, 1, b);
      assert false;
    }
  }

  lemma Remainder(a: nat, b: nat, q: nat)
    requires q * b <= a < q * b + b
    ensures 0 < b && a % b == a - q * b
  {
    QuotientUnique(a, b, q);
    assert a == b * (a / b) + a % b;
  }

  lemma Nested(a: nat, b: nat, c: nat, x: nat, q: nat)
    requires x * b <= a < x * b + b && q * c <= x < q * c + c
    ensures q * (b * c) <= a < q * (b * c) + b * c
  {
    MulLe(q * c, x, b);
    MulLe(x + 1, q * c + c, b);
    Distribute(q * c, c, b);
    Distribute(x, 1, b);
    Associate(q, c, b);
    assert c * b == b * c;
  }

  lemma DivDiv(a: nat, b: nat, c: nat)
    requires 0 < b && 0 < c && 0 < b * c
    ensures a / (b * c) == a / b / c
  {
    Quotient(a, b);
    Quotient(a / b, c);
    Nested(a, b, c, a / b, a / b / c);
    QuotientUnique(a, b * c, a / b / c);
  }

  lemma Squeeze(a: nat, b: nat, c: nat, x: nat, y: nat)
    requires x * c <= a <= b < y * c + c
    ensures x <= y
  {
    if y < x {
      MulLe(y + 1, x, c);
    }
  }

  lemma DivMonotone(a: nat, b: nat, c: nat)
    requires a <= b && 0 < c
    ensures a / c <= b / c
  {
    Quotient(a, c);
    Quotient(b, c);
    Squeeze(a, b, c, a / c, b / c);
  }
}

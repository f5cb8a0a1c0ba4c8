/** Quotient and remainder are determined by the equation that defines them. */
module Division {

  lemma MultipleIsLarge(d: nat, k: int)
    ensures k >= 1 ==> k * d >= d
    ensures k <= -1 ==> k * d <= 0 - d
  {
    if k >= 1 {
      assert k * d == d + (k - 1) * d;
    } else if k <= -1 {
      assert k * d == (0 - d) + (k + 1) * d;
    }
  }

  lemma DivModUnique(a: nat, d: nat, q: nat, r: nat)
    requires r < d && q * d + r == a
    ensures a / d == q && a % d == r
  {
    var q', r' := a / d, a % d;
    assert q' * d + r' == a;
    var k := q' - q;
    assert k * d == r - r' by { assert k * d == q' * d - q * d; }
    MultipleIsLarge(d, k);
  }

  lemma ModSmall(a: nat, d: nat)
    requires a < d
    ensures a % d == a
  {
    DivModUnique(a, d, 0, a);
  }

  lemma ModStep(a: nat, d: nat)
    requires 0 < d <= a
    ensures (a - d) % d == a % d
  {
    var q, r := (a - d) / d, (a - d) % d;
    assert (q + 1) * d == q * d + d;
    DivModUnique(a, d, q + 1, r);
  }

  lemma {:induction false} TimesMonotone(b: nat, x: nat, y: nat)
    requires x <= y
    ensures b * x <= b * y
    decreases y - x
  {
    if x < y {
      TimesMonotone(b, x, y - 1);
      assert b * y == b * (y - 1) + b;
    }
  }

  /** Multiplication is associative. */
  lemma TimesAssociates(a: int, b: int, c: int)
    ensures a * (b * c) == (a * b) * c
  {
  }
}

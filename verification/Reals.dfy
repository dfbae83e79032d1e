// Products of reals, kept apart from linear reasoning.
module Reals {
  function Mul(a: real, b: real): real {
    a * b
  }

  lemma MulAdd(a: real, b: real, f: real)
    ensures Mul(a + b, f) == Mul(a, f) + Mul(b, f)
  {
  }

  lemma MulRest(a: real, f: real)
    ensures Mul(a, 1.0 - f) == a - Mul(a, f)
    ensures Mul(1.0, f) == f && Mul(0.0, f) == 0.0
  {
  }

  lemma MulMonotone(a: real, b: real, f: real)
    requires a <= b && f >= 0.0
    ensures Mul(a, f) <= Mul(b, f)
  {
    MulAdd(a, b - a, f);
    MulPositive(b - a, f);
  }

  lemma MulPositive(a: real, f: real)
    requires a >= 0.0 && f >= 0.0
    ensures Mul(a, f) >= 0.0
  {
  }

  lemma MulStrict(a: real, b: real, f: real)
    requires a < b && f > 0.0
    ensures Mul(a, f) < Mul(b, f)
  {
    MulAdd(a, b - a, f);
    assert Mul(b - a, f) > 0.0;
  }

  lemma MulQuotient(a: real, f: real)
    requires f > 0.0
    ensures Mul(a / f, f) == a && (a >= 0.0 ==> a / f >= 0.0)
  {
    var q := a / f;
    assert q * f == a;
    if q < 0.0 {
      hide Mul;
      MulStrict(q, 0.0, f);
      MulRest(0.0, f);
      MulIs(q, f);
    }
  }

  lemma MulIs(a: real, b: real)
    ensures Mul(a, b) == a * b
  {
  }
}

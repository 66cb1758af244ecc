/** The little non-linear arithmetic the time-window bounds need. */
module Arithmetic {

  lemma MulMonotone(c: int, a: int, b: int)
    requires c >= 0 && a <= b
    ensures c * a <= c * b
  {}

  lemma MulNext(c: int, k: int)
    ensures c * (k + 1) == c * k + c
  {}

  lemma DivUnique(a: int, d: int, q: int)
    requires d >= 1 && d * q <= a < d * q + d
    ensures a / d == q
  {
    assert a == d * (a / d) + a % d;
    MulNext(d, q - 1);
    MulNext(d, q);
    if a / d < q { MulMonotone(d, a / d, q - 1); }
    if a / d > q { MulMonotone(d, q + 1, a / d); }
  }

  lemma DivStep(a: int, d: int)
    requires d >= 1
    ensures (a + d) / d == a / d + 1
  {
    assert a == d * (a / d) + a % d;
    assert d * (a / d + 1) == d * (a / d) + d;
    DivUnique(a + d, d, a / d + 1);
  }

  lemma DivBelow(a: int, d: int)
    requires 0 <= a < d
    ensures a / d == 0
  {
    DivUnique(a, d, 0);
  }

  lemma DivMonotone(a: int, b: int, d: int)
    requires d >= 1 && a <= b
    ensures a / d <= b / d
  {
    assert a == d * (a / d) + a % d && b == d * (b / d) + b % d;
    if a / d > b / d {
      MulMonotone(d, b / d + 1, a / d);
      MulNext(d, b / d);
    }
  }
}

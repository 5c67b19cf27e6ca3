/**
 * Multiplication of reals under a name, with the few laws the proofs use. Proofs hide the definition
 * and apply the laws one by one.
 */
module RealProduct {

  function Times(a: real, b: real): real { a * b }

  lemma TimesDistributes(a: real, b: real, c: real)
    ensures Times(a + b, c) == Times(a, c) + Times(b, c)
  {
  }

  lemma TimesNegates(a: real, c: real)
    ensures Times(-a, c) == -Times(a, c)
  {
  }

  lemma TimesAssociates(a: real, b: real, c: real)
    ensures Times(Times(a, b), c) == Times(a, Times(b, c))
  {
  }

  lemma TimesCommutes(a: real, b: real)
    ensures Times(a, b) == Times(b, a)
  {
  }

  lemma TimesUnit(c: real)
    ensures Times(1.0, c) == c && Times(c, 1.0) == c && Times(0.0, c) == 0.0
  {
  }

  lemma TimesHalf(c: real)
    ensures Times(0.5, c + c) == c
  {
  }

  lemma TimesIntegers(a: int, b: int)
    ensures Times(a as real, b as real) == (a * b) as real
  {
  }

  /** Multiplying by a positive number keeps the order, and the sign. */
  lemma TimesOrder(a: real, b: real, c: real)
    requires c > 0.0
    ensures a < b <==> Times(a, c) < Times(b, c)
  {
    var d := b - a;
    assert Times(b, c) - Times(a, c) == d * c;
    ProductSign(d, c);
  }

  lemma ProductSign(d: real, c: real)
    requires c > 0.0
    ensures d > 0.0 <==> d * c > 0.0
  {
  }

  lemma TimesSameSign(a: real, b: real)
    requires (a >= 0.0 && b >= 0.0) || (a <= 0.0 && b <= 0.0)
    ensures Times(a, b) >= 0.0
  {
  }
}

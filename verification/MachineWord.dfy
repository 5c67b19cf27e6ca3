/** Two's-complement machine words, modelled on mathematical integers. */
module MachineWord {

  /** 2 to the power n. */
  function Pow2(n: nat): (p: nat)
    ensures p >= 1
  {
    if n == 0 then 1 else 2 * Pow2(n - 1)
  }

  const TWO_32: nat := 0x1_0000_0000
  const TWO_64: nat := 0x1_0000_0000_0000_0000

  /** The value a signed word with `modulus` bit patterns holds after storing x. */
  function Wrap(modulus: nat, x: int): (r: int)
    requires modulus > 0 && modulus % 2 == 0
    ensures -(modulus / 2) <= r < modulus / 2
    ensures (x - r) % modulus == 0
  {
    var u := x % modulus;
    SubtractResidue(x, modulus);
    if u < modulus / 2 then u else u - modulus
  }

  lemma SubtractResidue(x: int, m: nat)
    requires m > 0
    ensures (x - x % m) % m == 0 && (x - (x % m - m)) % m == 0
  {
    assert x - x % m == m * (x / m);
    MultipleHasNoResidue(m, x / m);
    assert x - (x % m - m) == m * (x / m + 1) by {
      assert m * (x / m + 1) == m * (x / m) + m;
    }
    MultipleHasNoResidue(m, x / m + 1);
  }

  lemma Distribute(a: int, b: int, c: int)
    ensures a * (b + c) == a * b + a * c
    ensures (b + c) * a == b * a + c * a
  {
  }

  lemma Associate(a: int, b: int, c: int)
    ensures (a * b) * c == a * (b * c)
  {
  }

  lemma MultiplyMonotone(a: int, b: int, c: nat)
    requires a <= b
    ensures a * c <= b * c && c * a <= c * b
  {
    assert (b - a) * c >= 0;
  }

  /** A non-zero multiple of m is at least m away from zero. */
  lemma MultiplesAreSparse(m: nat, d: int)
    ensures d >= 1 ==> m * d >= m
    ensures d <= -1 ==> m * d + m <= 0
  {
    if d >= 1 {
      assert m * (d - 1) >= 0;
    } else if d <= -1 {
      assert m * (-d - 1) >= 0;
    }
  }

  lemma MultipleHasNoResidue(m: nat, k: int)
    requires m > 0
    ensures (m * k) % m == 0
  {
    var p := m * k;
    assert p == m * (p / m) + p % m;
    assert m * (k - p / m) == p % m by {
      assert m * (k - p / m) == m * k - m * (p / m);
    }
    var d := k - p / m;
    MultiplesAreSparse(m, d);
  }

  /** The division of x by m > 0 is determined by its quotient and its remainder. */
  lemma DivisionIsUnique(x: int, m: nat, q: int, r: int)
    requires 0 <= r < m
    requires x == m * q + r
    ensures x / m == q && x % m == r
  {
    var d := q - x / m;
    Distribute(m, d, x / m);
    MultiplesAreSparse(m, d);
  }

  /** Bounds on a quotient from bounds on the dividend. */
  lemma QuotientBounds(x: int, m: nat, lo: int, hi: int)
    requires m > 0
    requires m * lo <= x < m * hi
    ensures lo <= x / m < hi
  {
    var q := x / m;
    assert m * lo <= m * q + x % m < m * hi;
    assert m * (q - lo) == m * q - m * lo && m * (hi - q) == m * hi - m * q;
    MultiplesAreSparse(m, q - lo);
    MultiplesAreSparse(m, hi - q);
  }

  /** Words that differ by a multiple of the modulus hold the same value. */
  lemma WrapCongruent(modulus: nat, x: int, y: int, k: int)
    requires modulus > 0 && modulus % 2 == 0
    requires x == y + modulus * k
    ensures Wrap(modulus, x) == Wrap(modulus, y)
  {
    Distribute(modulus, y / modulus, k);
    DivisionIsUnique(x, modulus, y / modulus + k, y % modulus);
  }

  /** A value that fits the word is stored unchanged. */
  lemma WrapFits(modulus: nat, x: int)
    requires modulus > 0 && modulus % 2 == 0
    requires -(modulus / 2) <= x < modulus / 2
    ensures Wrap(modulus, x) == x
  {
    if x >= 0 {
      DivisionIsUnique(x, modulus, 0, x);
    } else {
      DivisionIsUnique(x, modulus, -1, x + modulus);
    }
  }

  /** The multiple of the modulus that wrapping takes away. */
  lemma WrapOffset(modulus: nat, x: int) returns (k: int)
    requires modulus > 0 && modulus % 2 == 0
    ensures x == Wrap(modulus, x) + modulus * k
  {
    k := (x - Wrap(modulus, x)) / modulus;
  }

  /** Wrapping both operands first does not change a wrapped difference. */
  lemma WrapDifference(modulus: nat, a: int, b: int)
    requires modulus > 0 && modulus % 2 == 0
    ensures Wrap(modulus, Wrap(modulus, a) - Wrap(modulus, b)) == Wrap(modulus, a - b)
  {
    var j := WrapOffset(modulus, a);
    var k := WrapOffset(modulus, b);
    assert a - b == (Wrap(modulus, a) - Wrap(modulus, b)) + modulus * (j - k) by {
      hide Wrap;
      Distribute(modulus, j - k, k);
    }
    WrapCongruent(modulus, a - b, Wrap(modulus, a) - Wrap(modulus, b), j - k);
  }

  /** Scaling and adding to a wrapped value wraps to the same word. */
  lemma WrapScaleAdd(modulus: nat, n: int, p: int, q: int)
    requires modulus > 0 && modulus % 2 == 0
    ensures Wrap(modulus, Wrap(modulus, Wrap(modulus, n) * p) + q) == Wrap(modulus, n * p + q)
  {
    var j := WrapOffset(modulus, n);
    var w := Wrap(modulus, n);
    var k := WrapOffset(modulus, w * p);
    assert n * p + q == (Wrap(modulus, w * p) + q) + modulus * (k + j * p) by {
      hide Wrap;
      Distribute(p, w, modulus * j);
      Associate(modulus, j, p);
      Distribute(modulus, k, j * p);
    }
    WrapCongruent(modulus, n * p + q, Wrap(modulus, w * p) + q, k + j * p);
  }

  lemma {:induction false} Pow2Adds(a: nat, b: nat)
    ensures Pow2(a + b) == Pow2(a) * Pow2(b)
  {
    if a == 0 {
    } else {
      Pow2Adds(a - 1, b);
      assert Pow2(a) * Pow2(b) == 2 * (Pow2(a - 1) * Pow2(b));
    }
  }

  lemma Pow2Of32()
    ensures Pow2(32) == 0x1_0000_0000 && Pow2(31) == 0x8000_0000
  {
    assert Pow2(8) == 256;
    Pow2Adds(8, 8);
    Pow2Adds(16, 16);
    assert Pow2(32) == 2 * Pow2(31);
  }

  lemma {:induction false} Pow2Grows(a: nat, b: nat)
    requires a <= b
    ensures Pow2(a) <= Pow2(b)
    decreases b
  {
    if a < b {
      Pow2Grows(a, b - 1);
    }
  }
}

/**
 * The remainder kernel of the double and single precision libraries, and the fmod and remquo
 * functions built on it. The kernel is the same algorithm in both formats, up to shift distances
 * and the width of the mantissa word, so it is modelled once for a format. Every product, shift and
 * sum wraps in the machine word that holds it.
 */
module Remainder {
  import opened MachineWord
  import opened FloatFormat

  const UINT32_MAX: nat := 0xffff_ffff

  /** my >> 36 for doubles, my >> 7 for singles. */
  function DivisorStep(fmt: Format): nat { if fmt.Double? then 0x10_0000_0000 else 0x80 }
  /** mx >> 38 for doubles, mx >> 9 for singles. */
  function OperandStep(fmt: Format): nat { if fmt.Double? then 0x40_0000_0000 else 0x200 }

  /** The Q16 estimate of the reciprocal of my. */
  function Reciprocal(fmt: Format, my: int): (r: int)
    requires fmt.IsMantissa(my)
    ensures 0x8000 <= r <= 0xffff
  {
    ReciprocalRange(fmt, my);
    UINT32_MAX / (my / DivisorStep(fmt))
  }

  lemma ReciprocalRange(fmt: Format, my: int)
    requires fmt.IsMantissa(my)
    ensures 0x1_0000 <= my / DivisorStep(fmt) < 0x2_0000
    ensures 0x8000 <= UINT32_MAX / (my / DivisorStep(fmt)) < 0x1_0000
  {
    QuotientBounds(my, DivisorStep(fmt), 0x1_0000, 0x2_0000);
    var d := my / DivisorStep(fmt);
    QuotientBounds(UINT32_MAX, d, 0x8000, 0x1_0000);
  }

  /** The distance of a pass that has e bits left to go. */
  function PassBits(e: nat): (s: nat)
    requires e > 0
    ensures 1 <= s <= 12 && s <= e
  {
    if e > 12 then 12 else e
  }

  /** The quotient digit estimated in one pass: Q30 product first, then rounded to s bits. */
  function Digit(fmt: Format, mx: int, r: int, s: nat): int
    requires 1 <= s <= 12
  {
    var q30 := Wrap(TWO_32, mx / OperandStep(fmt) * r);
    (q30 / Pow2(29 - s) + 1) / 2
  }

  /** (mx << s) - my * q in the mantissa word. */
  function Reduced(fmt: Format, mx: int, my: int, q: int, s: nat): int {
    var w := fmt.Word();
    Wrap(w, Wrap(w, mx * Pow2(s)) - Wrap(w, my * q))
  }

  /** How far the reciprocal estimate is from exact: 2^(FractionBits + 16) - my*r is at most my. */
  lemma ReciprocalError(fmt: Format, my: int)
    requires fmt.IsMantissa(my)
    ensures -my <= fmt.Hidden() * 0x1_0000 - my * Reciprocal(fmt, my) <= my
  {
    var step, r := DivisorStep(fmt), Reciprocal(fmt, my);
    var d := my / step;
    ReciprocalRange(fmt, my);
    assert my == step * d + my % step;
    assert UINT32_MAX == d * r + UINT32_MAX % d;
    ReciprocalArithmetic(my, step, d, my % step, r);
  }

  lemma ReciprocalArithmetic(my: int, step: nat, d: nat, f: nat, r: nat)
    requires step > 0 && 0x1_0000 <= d && f < step && r <= 0xffff
    requires my == step * d + f
    requires d * r <= UINT32_MAX < d * r + d
    ensures -my <= step * TWO_32 - my * r <= my
  {
    var g, fr := TWO_32 - d * r, f * r;
    var sg := step * g;
    Distribute(r, step * d, f);
    Associate(step, d, r);
    Distribute(step, g, d * r);
    assert step * TWO_32 - my * r == sg - fr;
    assert 0 <= fr <= step * 0xffff by {
      MultiplyMonotone(f, step, r);
      MultiplyMonotone(r, 0xffff, step);
    }
    assert 0 <= sg <= step * d by {
      MultiplyMonotone(0, g, step);
      MultiplyMonotone(g, d, step);
    }
    assert step * d >= step * 0x1_0000 by {
      MultiplyMonotone(0x1_0000, d, step);
    }
  }

  /** Rounding a quotient to the nearest digit is off by at most half a unit. */
  lemma DigitRounding(q30: int, t: nat)
    requires t > 0
    ensures var q := (q30 / t + 1) / 2; 0 <= q30 - 2 * t * q + t <= 2 * t
  {
    var h := q30 / t;
    var q := (h + 1) / 2;
    assert h == 2 * q || h == 2 * q - 1;
    assert q30 == t * h + q30 % t;
    assert t * (2 * q) == 2 * t * q;
    assert t * (2 * q - 1) == 2 * t * q - t;
  }

  /** The Q30 product of a pass fits a 32 bit word. */
  lemma ProductFits(fmt: Format, mx: int, r: int)
    requires -2 * fmt.Hidden() < mx < 2 * fmt.Hidden()
    requires 0x8000 <= r <= 0xffff
    ensures -0x8000 <= mx / OperandStep(fmt) <= 0x7fff
    ensures -0x8000_0000 <= mx / OperandStep(fmt) * r < 0x8000_0000
    ensures Wrap(TWO_32, mx / OperandStep(fmt) * r) == mx / OperandStep(fmt) * r
  {
    var a := mx / OperandStep(fmt);
    QuotientBounds(mx, OperandStep(fmt), -0x8000, 0x8000);
    BoundedProduct(a, r, 0x8000, 0xffff);
    WrapFits(TWO_32, a * r);
  }

  /** The estimated product differs from the exact one by less than 2^17 * my. */
  lemma EstimateError(fmt: Format, mx: int, my: int)
    requires fmt.IsMantissa(my)
    requires -2 * fmt.Hidden() < mx < 2 * fmt.Hidden()
    ensures var a, r := mx / OperandStep(fmt), Reciprocal(fmt, my);
            -0x2_0000 * my < 0x4000_0000 * mx - my * (a * r) < 0x2_0000 * my
  {
    var step, r := OperandStep(fmt), Reciprocal(fmt, my);
    var a, f := mx / step, mx % step;
    var g := fmt.Hidden() * 0x1_0000 - my * r;
    ReciprocalError(fmt, my);
    ProductFits(fmt, mx, r);
    assert mx == step * a + f;
    assert 0x4000_0000 * step == fmt.Hidden() * 0x1_0000;
    EstimateArithmetic(mx, my, step, a, f, g, r);
  }

  lemma EstimateArithmetic(mx: int, my: int, step: nat, a: int, f: nat, g: int, r: int)
    requires mx == step * a + f && f < step
    requires 0x4000_0000 * step == g + my * r && -my <= g <= my
    requires 0x4000_0000 * step <= 0x1_0000 * my
    requires -0x8000 <= a <= 0x7fff && my > 0
    ensures -0x2_0000 * my < 0x4000_0000 * mx - my * (a * r) < 0x2_0000 * my
  {
    assert 0x4000_0000 * (step * a) == a * (g + my * r) by {
      Associate(0x4000_0000, step, a);
    }
    Distribute(a, g, my * r);
    assert a * (my * r) == my * (a * r) by {
      Associate(a, my, r);
      Associate(my, a, r);
    }
    BoundedProduct(a, g, 0x8000, my);
    var ag, mar := a * g, my * (a * r);
    assert 0x4000_0000 * mx - mar == ag + 0x4000_0000 * f;
  }

  lemma BoundedProduct(a: int, b: int, x: int, y: int)
    requires -x <= a <= x && -y <= b <= y
    ensures -(x * y) <= a * b <= x * y
  {
    var c, d := if a < 0 then -a else a, if b < 0 then -b else b;
    MultiplyMonotone(c, x, d);
    MultiplyMonotone(d, y, x);
    assert a * b == c * d || a * b == -(c * d);
    assert c * d >= 0;
  }

  /**
   * One pass: the Q30 product fits its word, and although the shifted operand and the product
   * my * q may both wrap, the reduced operand is exact and smaller than my.
   */
  lemma PassIsExact(fmt: Format, mx: int, my: int, s: nat)
    requires fmt.IsMantissa(my)
    requires -2 * fmt.Hidden() < mx < 2 * fmt.Hidden()
    requires 1 <= s <= 12
    ensures -0x8000_0000 <= mx / OperandStep(fmt) * Reciprocal(fmt, my) < 0x8000_0000
    ensures var q := Digit(fmt, mx, Reciprocal(fmt, my), s);
            var m := Reduced(fmt, mx, my, q, s);
            m == mx * Pow2(s) - my * q && -my < m < my
  {
    var r := Reciprocal(fmt, my);
    var q := Digit(fmt, mx, r, s);
    ProductFits(fmt, mx, r);
    EstimateError(fmt, mx, my);
    PassScales(s);
    hide Reciprocal, Digit, Wrap, Pow2;
    DigitIsClose(fmt, mx, r, s);
    PassArithmetic(mx, my, mx / OperandStep(fmt) * r, q, Pow2(s), Pow2(29 - s));
    ReducedIsExact(fmt, mx, my, q, s);
  }

  /** A digit is off by at most half a unit from the quotient that it rounds. */
  lemma DigitIsClose(fmt: Format, mx: int, r: int, s: nat)
    requires 1 <= s <= 12
    requires Wrap(TWO_32, mx / OperandStep(fmt) * r) == mx / OperandStep(fmt) * r
    ensures var t := Pow2(29 - s);
            0 <= mx / OperandStep(fmt) * r - 2 * t * Digit(fmt, mx, r, s) + t <= 2 * t
  {
    var q30 := Wrap(TWO_32, mx / OperandStep(fmt) * r);
    hide Wrap, Pow2;
    DigitRounding(q30, Pow2(29 - s));
  }

  /** A reduced operand that is small is exact, even if its two terms wrap. */
  lemma ReducedIsExact(fmt: Format, mx: int, my: int, q: int, s: nat)
    requires fmt.IsMantissa(my) && -my < mx * Pow2(s) - my * q < my
    ensures Reduced(fmt, mx, my, q, s) == mx * Pow2(s) - my * q
  {
    hide Wrap, Pow2;
    WrapDifference(fmt.Word(), mx * Pow2(s), my * q);
    WrapFits(fmt.Word(), mx * Pow2(s) - my * q);
  }

  lemma PassScales(s: nat)
    requires 1 <= s <= 12
    ensures Pow2(s) * Pow2(29 - s) == 0x2000_0000
    ensures Pow2(29 - s) >= 0x2_0000
  {
    assert Pow2(5) == 32 && Pow2(6) == 64;
    Pow2Adds(6, 6);
    Pow2Adds(12, 5);
    var t := 12;
    while t > s
      invariant s <= t <= 12
      invariant Pow2(t) * Pow2(29 - t) == 0x2000_0000
      invariant Pow2(29 - t) >= 0x2_0000
    {
      t := t - 1;
      assert Pow2(t + 1) * Pow2(29 - (t + 1)) == Pow2(t) * (2 * Pow2(28 - t));
    }
  }

  lemma PassArithmetic(mx: int, my: int, q30: int, q: int, p: int, t: int)
    requires my > 0 && p > 0
    requires p * t == 0x2000_0000 && t >= 0x2_0000
    requires -(0x2_0000 * my) < 0x4000_0000 * mx - my * q30 < 0x2_0000 * my
    requires 0 <= q30 - 2 * t * q + t <= 2 * t
    ensures -my < mx * p - my * q < my
  {
    var exact, delta := mx * p - my * q, q30 - 2 * t * q;
    ScaledDifference(mx, my, q30, q, p, t);
    ErrorBound(my, delta, t, 0x4000_0000 * mx - my * q30);
    ScaledBound(exact, my, 2 * t);
  }

  lemma ErrorBound(my: nat, delta: int, t: int, error: int)
    requires -t <= delta <= t && t >= 0x2_0000
    requires -(0x2_0000 * my) < error < 0x2_0000 * my
    ensures -(2 * t * my) < error + my * delta < 2 * t * my
  {
    var tm := t * my;
    assert -tm <= my * delta <= tm by {
      MultiplyMonotone(delta, t, my);
      MultiplyMonotone(-t, delta, my);
    }
    assert 0x2_0000 * my <= tm by {
      MultiplyMonotone(0x2_0000, t, my);
    }
    assert 2 * t * my == 2 * tm;
  }

  lemma ScaledDifference(mx: int, my: int, q30: int, q: int, p: int, t: int)
    requires p * t == 0x2000_0000
    ensures 2 * t * (mx * p - my * q) == 0x4000_0000 * mx - my * q30 + my * (q30 - 2 * t * q)
  {
    assert 2 * t * (mx * p) == 0x4000_0000 * mx by {
      Associate(2 * t, p, mx);
      assert 2 * t * p == 0x4000_0000;
    }
    assert 2 * t * (my * q) == my * (2 * t * q) by {
      Associate(my, 2 * t, q);
      Associate(2 * t, my, q);
    }
    Distribute(2 * t, mx * p, -(my * q));
    Distribute(my, q30, -(2 * t * q));
  }

  lemma ScaledBound(x: int, y: int, c: nat)
    requires c > 0
    requires -(c * y) < c * x < c * y
    ensures -y < x < y
  {
    if x >= y {
      MultiplyMonotone(y, x, c);
    }
    if x <= -y {
      MultiplyMonotone(x, -y, c);
    }
  }

  /** A dividend so far, its wrapped quotient n and its remainder mx, before the last bits are brought down. */
  ghost predicate Divides(total: int, my: int, n: int, mx: int, quo: int) {
    total == my * n + mx && quo == Wrap(TWO_32, n)
  }

  /** One round of the loop, of s bits. */
  method Pass(fmt: Format, mx0: int, my: int, r: int, ghost done: nat, s: nat, mx: int, quo: int, ghost n: int)
    returns (mx': int, quo': int, ghost n': int)
    requires fmt.IsMantissa(my) && -2 * fmt.Hidden() < mx < 2 * fmt.Hidden() && 1 <= s <= 12
    requires r == Reciprocal(fmt, my) && Divides(mx0 * Pow2(done), my, n, mx, quo)
    ensures -my < mx' < my && Divides(mx0 * Pow2(done + s), my, n', mx', quo')
  {
    hide Wrap, Digit, Reduced, Reciprocal, Pow2;
    var q := Digit(fmt, mx, r, s);
    PassIsExact(fmt, mx, my, s);
    ExtendDividend(mx0, done, s, my, n, mx, q);
    WrapScaleAdd(TWO_32, n, Pow2(s), q);
    mx' := Reduced(fmt, mx, my, q, s);
    quo' := Wrap(TWO_32, Wrap(TWO_32, quo * Pow2(s)) + q);
    n' := n * Pow2(s) + q;
  }

  /** The loop over all bits of the exponent difference. */
  method Passes(fmt: Format, mx0: int, my: int, e0: nat) returns (mx: int, quo: int, ghost n: int)
    requires fmt.IsMantissa(my)
    requires fmt.IsMantissa(mx0) || fmt.IsMantissa(-mx0)
    ensures -2 * fmt.Hidden() < mx < 2 * fmt.Hidden() && Divides(mx0 * Pow2(e0), my, n, mx, quo)
  {
    mx, quo, n := mx0, 0, 0;
    var e, r := e0, 0;
    FirstDivides(mx0, my);
    hide Wrap, Reciprocal, Pow2, Divides;
    if e > 0 {
      r := Reciprocal(fmt, my);
    }
    while e > 0
      invariant 0 <= e <= e0 && -2 * fmt.Hidden() < mx < 2 * fmt.Hidden()
      invariant e0 > 0 ==> r == Reciprocal(fmt, my)
      invariant Divides(mx0 * Pow2(e0 - e), my, n, mx, quo)
    {
      var s := PassBits(e);
      mx, quo, n := Pass(fmt, mx0, my, r, e0 - e, s, mx, quo, n);
      assert e0 - e + s == e0 - (e - s);
      e := e - s;
    }
  }

  lemma FirstDivides(mx0: int, my: int)
    ensures Divides(mx0 * Pow2(0), my, 0, mx0, 0)
  {
    WrapFits(TWO_32, 0);
  }

  /**
   * drem_0 / frem_0: the remainder of mx * 2^e divided by my, and the low 32 bits of the quotient
   * as a signed word.
   */
  method RemainderKernel(fmt: Format, mx0: int, my: int, e0: nat) returns (mx: int, quo: int)
    requires fmt.IsMantissa(my)
    requires fmt.IsMantissa(mx0) || fmt.IsMantissa(-mx0)
    ensures 0 <= mx < my
    ensures mx == mx0 * Pow2(e0) % my
    ensures quo == Wrap(TWO_32, mx0 * Pow2(e0) / my)
  {
    hide Wrap, Pow2;
    ghost var n;
    mx, quo, n := Passes(fmt, mx0, my, e0);
    ghost var total := mx0 * Pow2(e0);
    assert Divides(total, my, n, mx, quo);
    hide Divides;
    if mx >= my {
      mx, quo, n := Subtract(mx, my, quo, n, total);
    }
    if mx >= my {
      mx, quo, n := Subtract(mx, my, quo, n, total);
    }
    if mx < 0 {
      mx, quo, n := AddBack(mx, my, quo, n, total);
    }
    if mx < 0 {
      mx, quo, n := AddBack(mx, my, quo, n, total);
    }
    DividesUniquely(total, my, n, mx, quo);
  }

  lemma DividesUniquely(total: int, my: int, n: int, mx: int, quo: int)
    requires Divides(total, my, n, mx, quo) && 0 <= mx < my
    ensures mx == total % my && quo == Wrap(TWO_32, total / my)
  {
    DivisionIsUnique(total, my, n, mx);
  }

  lemma ExtendDividend(mx0: int, done: nat, s: nat, my: int, n: int, mx: int, q: int)
    requires mx0 * Pow2(done) == my * n + mx
    ensures mx0 * Pow2(done + s) == my * (n * Pow2(s) + q) + (mx * Pow2(s) - my * q)
  {
    hide Pow2;
    Pow2Adds(done, s);
    var p := Pow2(s);
    Associate(mx0, Pow2(done), p);
    Distribute(p, my * n, mx);
    Associate(my, n, p);
    Distribute(my, n * p, q);
  }

  /** mx -= my, quo++ */
  method Subtract(mx: int, my: int, quo: int, ghost n: int, ghost total: int)
    returns (mx': int, quo': int, ghost n': int)
    requires Divides(total, my, n, mx, quo)
    ensures mx' == mx - my && Divides(total, my, n', mx', quo')
  {
    WrapScaleAdd(TWO_32, n, 1, 1);
    WrapFits(TWO_32, quo);
    mx', quo', n' := mx - my, Wrap(TWO_32, quo + 1), n + 1;
    assert my * n' == my * n + my by {
      Distribute(my, n, 1);
    }
  }

  /** mx += my, quo-- */
  method AddBack(mx: int, my: int, quo: int, ghost n: int, ghost total: int)
    returns (mx': int, quo': int, ghost n': int)
    requires Divides(total, my, n, mx, quo)
    ensures mx' == mx + my && Divides(total, my, n', mx', quo')
  {
    WrapScaleAdd(TWO_32, n, 1, -1);
    WrapFits(TWO_32, quo);
    mx', quo', n' := mx + my, Wrap(TWO_32, quo - 1), n - 1;
    assert my * n' == my * n - my by {
      Distribute(my, n, -1);
    }
  }
}

/**
 * fmod and remquo, in both formats, on top of the remainder kernel. The final conversion of a fixed
 * point number to the format (fix642double, fix2float) is external; its argument is the answer.
 */
module RemainderFunctions {
  import opened MachineWord
  import opened RealProduct
  import opened FloatFormat
  import opened Remainder

  /** What the functions return: an infinity, a zero, the operand x itself, or m * 2^k converted. */
  datatype Answer = Infinity | Zero(negative: bool) | Operand | Fixed(m: int, k: int) {
    function Real(fmt: Format, x: Number): real
      requires !Infinity?
    {
      match this
      case Zero(_) => 0.0
      case Operand => fmt.Value(x)
      case Fixed(m, k) => Times(m as real, Exp2(k))
    }
  }

  /** A number to be converted fits the format's mantissa, so that the conversion does not round it. */
  predicate FitsMantissa(fmt: Format, a: Answer) {
    a.Fixed? ==> -2 * fmt.Hidden() < a.m < 2 * fmt.Hidden()
  }

  function Abs(r: real): real { if r < 0.0 then -r else r }

  /** n is x/y rounded toward zero, and r the remainder it leaves. */
  ghost predicate TruncatedDivision(x: real, y: real, n: int, r: real) {
    && r == x - Times(n as real, y)
    && Abs(r) < Abs(y)
    && Times(r, x) >= 0.0
  }

  /** n is the integer nearest x/y, even in a tie, and r the remainder it leaves. */
  ghost predicate NearestEvenDivision(x: real, y: real, n: int, r: real) {
    && r == x - Times(n as real, y)
    && 2.0 * Abs(r) <= Abs(y)
    && (2.0 * Abs(r) == Abs(y) ==> n % 2 == 0)
  }

  /** The magnitude of x counted in the unit of the smaller exponent e. */
  function InUnits(x: Number, e: int): nat
    requires e <= x.exponent
  {
    x.mantissa * Pow2(x.exponent - e)
  }

  lemma InOwnUnits(x: Number)
    ensures InUnits(x, x.exponent) == x.mantissa
  {
  }

  lemma InSmallerUnits(x: Number, e: int)
    requires e < x.exponent
    ensures InUnits(x, e) >= 2 * x.mantissa
    ensures x.exponent == e + 1 ==> InUnits(x, e) == 2 * x.mantissa
    ensures x.exponent > e + 1 ==> InUnits(x, e) >= 4 * x.mantissa
  {
    var p := Pow2(x.exponent - e);
    MultiplyMonotone(2, p, x.mantissa);
    if x.exponent > e + 1 {
      assert p == 2 * Pow2(x.exponent - e - 1) == 2 * (2 * Pow2(x.exponent - e - 2));
      MultiplyMonotone(4, p, x.mantissa);
    } else {
      assert p == 2 * Pow2(0);
    }
  }

  lemma ValueInUnits(fmt: Format, x: Number, e: int)
    requires 0 < x.exponent && e <= x.exponent
    ensures fmt.Value(x) == Times(Signed(x.negative, InUnits(x, e)) as real, fmt.Unit(e))
  {
    hide Times, Exp2, Pow2;
    ScaledShift(Signed(x.negative, x.mantissa), e - fmt.Bias() - fmt.FractionBits(), x.exponent - e);
    SignedProduct(x.negative, x.mantissa, Pow2(x.exponent - e));
  }

  /** An exact division of mantissas carries over to values. */
  lemma DivisionInUnits(x: int, y: int, n: int, r: int, u: real)
    requires x == n * y + r
    ensures Times(r as real, u) == Times(x as real, u) - Times(n as real, Times(y as real, u))
  {
    hide Times;
    TimesIntegers(n, y);
    TimesDistributes((n * y) as real, r as real, u);
    TimesAssociates(n as real, y as real, u);
  }

  function IntAbs(x: int): int { if x < 0 then -x else x }

  lemma AbsInUnits(x: int, u: real)
    requires u > 0.0
    ensures Abs(Times(x as real, u)) == Times(IntAbs(x) as real, u)
  {
    hide Times;
    TimesUnit(u);
    TimesOrder(x as real, 0.0, u);
    TimesNegates(x as real, u);
  }

  lemma SignInUnits(x: int, u: real)
    requires u > 0.0
    ensures x < 0 <==> Times(x as real, u) < 0.0
    ensures x > 0 <==> Times(x as real, u) > 0.0
  {
    hide Times;
    TimesUnit(u);
    TimesOrder(x as real, 0.0, u);
    TimesOrder(0.0, x as real, u);
  }

  lemma TruncatedInUnits(x: int, y: int, n: int, r: int, u: real, xv: real, yv: real)
    requires u > 0.0 && x == n * y + r
    requires xv == Times(x as real, u) && yv == Times(y as real, u)
    requires IntAbs(r) < IntAbs(y)
    requires (r >= 0 && x >= 0) || (r <= 0 && x <= 0)
    ensures TruncatedDivision(xv, yv, n, Times(r as real, u))
  {
    hide Times;
    DivisionInUnits(x, y, n, r, u);
    AbsInUnits(r, u);
    AbsInUnits(y, u);
    TimesOrder(IntAbs(r) as real, IntAbs(y) as real, u);
    SignInUnits(r, u);
    SignInUnits(x, u);
    TimesSameSign(Times(r as real, u), xv);
  }

  lemma NearestInUnits(x: int, y: int, n: int, r: int, u: real, xv: real, yv: real)
    requires u > 0.0 && x == n * y + r
    requires xv == Times(x as real, u) && yv == Times(y as real, u)
    requires 2 * IntAbs(r) <= IntAbs(y) && (2 * IntAbs(r) == IntAbs(y) ==> n % 2 == 0)
    ensures NearestEvenDivision(xv, yv, n, Times(r as real, u))
  {
    hide Times;
    DivisionInUnits(x, y, n, r, u);
    AbsInUnits(r, u);
    AbsInUnits(y, u);
    var a, b := IntAbs(r) as real, IntAbs(y) as real;
    TimesDistributes(a, a, u);
    TimesOrder(a + a, b, u);
    TimesOrder(b, a + a, u);
  }

  /** fmod, fmodf on unpacked operands */
  method Fmod(fmt: Format, x: Number, y: Number) returns (a: Answer)
    requires fmt.IsMantissa(x.mantissa) && x.exponent <= fmt.MaxExponent()
    requires fmt.IsMantissa(y.mantissa) && y.exponent <= fmt.MaxExponent()
    ensures a.Infinity? <==> x.exponent == fmt.MaxExponent() || y.exponent == 0
    ensures !a.Infinity? && x.exponent == 0 ==> a == Zero(x.negative)
    ensures fmt.Normal(x) && y.exponent == fmt.MaxExponent() ==> a == Operand
    ensures fmt.Normal(x) && fmt.Normal(y) ==> IsFmod(fmt, x, y, a)
    ensures FitsMantissa(fmt, a)
  {
    hide Times, Exp2, TruncatedDivision;
    if x.exponent == fmt.MaxExponent() {
      return Infinity;
    }
    if y.exponent == 0 {
      return Infinity;
    }
    if x.exponent == 0 {
      return Zero(x.negative);
    }
    if x.exponent < y.exponent {
      FmodSmall(fmt, x, y);
      return Operand;
    }
    var mx, quo := RemainderKernel(fmt, x.mantissa, y.mantissa, x.exponent - y.exponent);
    if x.negative {
      mx := -mx;
    }
    FmodFixed(fmt, x, y, mx);
    a := Fixed(mx, y.exponent - fmt.Bias() - fmt.FractionBits());
  }

  /** The answer is x - n*y for the integer n that is x/y rounded toward zero. */
  ghost predicate IsFmod(fmt: Format, x: Number, y: Number, a: Answer) {
    !a.Infinity? &&
    exists n :: TruncatedDivision(fmt.Value(x), fmt.Value(y), n, a.Real(fmt, x))
  }

  lemma FmodWitness(fmt: Format, x: Number, y: Number, a: Answer, n: int)
    requires !a.Infinity?
    requires TruncatedDivision(fmt.Value(x), fmt.Value(y), n, a.Real(fmt, x))
    ensures IsFmod(fmt, x, y, a)
  {
  }

  lemma FmodFixed(fmt: Format, x: Number, y: Number, m: int)
    requires 0 < y.exponent <= x.exponent && y.mantissa > 0
    requires m == Signed(x.negative, InUnits(x, y.exponent) % y.mantissa)
    ensures IsFmod(fmt, x, y, Fixed(m, y.exponent - fmt.Bias() - fmt.FractionBits()))
  {
    hide Times, Exp2, InUnits;
    ValueInUnits(fmt, x, y.exponent);
    ValueInUnits(fmt, y, y.exponent);
    InOwnUnits(y);
    var n := FmodSigns(x.negative, y.negative, InUnits(x, y.exponent), y.mantissa, m,
                       fmt.Unit(y.exponent), fmt.Value(x), fmt.Value(y));
    FmodWitness(fmt, x, y, Fixed(m, y.exponent - fmt.Bias() - fmt.FractionBits()), n);
  }

  lemma FmodSigns(nx: bool, ny: bool, w: nat, my: nat, m: int, u: real, xv: real, yv: real)
    returns (n: int)
    requires my > 0 && m == Signed(nx, w % my) && u > 0.0
    requires xv == Times(Signed(nx, w) as real, u) && yv == Times(Signed(ny, my) as real, u)
    ensures TruncatedDivision(xv, yv, n, Times(m as real, u))
  {
    var q := w / my;
    n := Signed(nx != ny, q);
    assert Signed(nx, w) == n * Signed(ny, my) + m by {
      assert w == q * my + w % my;
      assert (0 - q) * (0 - my) == q * my && (0 - q) * my == 0 - q * my && q * (0 - my) == 0 - q * my;
    }
    TruncatedInUnits(Signed(nx, w), Signed(ny, my), n, m, u, xv, yv);
  }

  lemma FmodSmall(fmt: Format, x: Number, y: Number)
    requires 0 < x.exponent < y.exponent
    requires fmt.IsMantissa(x.mantissa) && fmt.IsMantissa(y.mantissa)
    ensures IsFmod(fmt, x, y, Operand)
  {
    hide Times, Exp2, InUnits;
    var e := x.exponent;
    ValueInUnits(fmt, x, e);
    ValueInUnits(fmt, y, e);
    InOwnUnits(x);
    InSmallerUnits(y, e);
    var sx := Signed(x.negative, x.mantissa);
    TruncatedInUnits(sx, Signed(y.negative, InUnits(y, e)), 0, sx, fmt.Unit(e), fmt.Value(x), fmt.Value(y));
    FmodWitness(fmt, x, y, Operand, 0);
  }

  /** remquo, remquof on unpacked operands; drem and remainder are the same without the quotient. */
  method Remquo(fmt: Format, x: Number, y: Number) returns (a: Answer, quo: int)
    requires fmt.IsMantissa(x.mantissa) && x.exponent <= fmt.MaxExponent()
    requires fmt.IsMantissa(y.mantissa) && y.exponent <= fmt.MaxExponent()
    ensures a.Infinity? <==> x.exponent == fmt.MaxExponent() || y.exponent == 0
    ensures !a.Infinity? && x.exponent == 0 ==> a == Zero(false) && quo == 0
    ensures fmt.Normal(x) && y.exponent == fmt.MaxExponent() ==> a == Operand && quo == 0
    ensures fmt.Normal(x) && fmt.Normal(y) ==> IsRemquo(fmt, x, y, a, quo)
    ensures FitsMantissa(fmt, a)
  {
    hide Times, Exp2, NearestEvenDivision, IsQuotient, IsRemquo;
    quo := 0;
    if x.exponent == fmt.MaxExponent() {
      return Infinity, quo;
    }
    if y.exponent == 0 {
      return Infinity, quo;
    }
    if x.exponent == 0 {
      return Zero(false), quo;
    }
    if y.exponent == fmt.MaxExponent() {
      return Operand, quo;
    }
    if x.exponent < y.exponent - 1 {
      RemquoSmall(fmt, x, y);
      return Operand, quo;
    }
    var mx, my, ey, q := x.mantissa, y.mantissa, y.exponent, 0;
    ghost var n;
    if x.exponent == y.exponent - 1 {
      if mx <= my {
        RemquoSmall(fmt, x, y);
        return Operand, quo;
      }
      if !x.negative {
        mx, ey, q := mx - (my + my), ey - 1, 1;
      } else {
        mx, ey, q := my + my - mx, ey - 1, -1;
      }
      n := q;
      WrapFits(TWO_32, q);
      JustBelowQuotient(x, y, mx);
    } else {
      mx, q, n := RoundedKernel(fmt, x, y);
    }
    QuotientFits(fmt, x, y, mx, ey, n);
    RemquoIsNearest(fmt, x, y, mx, ey, n);
    if y.negative {
      WrapNegate(n);
      q := Wrap(TWO_32, -q);
    }
    quo := q;
    a := Fixed(mx, ey - fmt.Bias() - fmt.FractionBits());
  }

  /** The kernel applied to x and |y|, with its quotient n in full. */
  method SignedKernel(fmt: Format, x: Number, y: Number) returns (mx: int, q: int, ghost n: int)
    requires fmt.IsMantissa(x.mantissa) && fmt.IsMantissa(y.mantissa)
    requires 0 < y.exponent <= x.exponent
    ensures 0 <= mx < y.mantissa && Signed(x.negative, InUnits(x, y.exponent)) == n * y.mantissa + mx
    ensures q == Wrap(TWO_32, n)
  {
    hide InUnits, Wrap, Pow2;
    mx := x.mantissa;
    if x.negative {
      mx := -mx;
    }
    SignedInUnits(x, y.exponent);
    mx, q := RemainderKernel(fmt, mx, y.mantissa, x.exponent - y.exponent);
    n := Signed(x.negative, InUnits(x, y.exponent)) / y.mantissa;
  }

  /** The branch of remquo for |x| at least the power of two below |y|: the kernel, then one rounding. */
  method RoundedKernel(fmt: Format, x: Number, y: Number) returns (mx: int, q: int, ghost n: int)
    requires fmt.IsMantissa(x.mantissa) && fmt.IsMantissa(y.mantissa)
    requires 0 < y.exponent <= x.exponent
    ensures IsQuotient(x, y, mx, y.exponent, n) && q == Wrap(TWO_32, n)
  {
    hide InUnits, Wrap, Pow2, IsQuotient;
    mx, q, n := SignedKernel(fmt, x, y);
    RoundQuotient(x, y, mx, q, n);
    if mx + mx > y.mantissa || (mx + mx == y.mantissa && q % 2 == 1) {
      mx, q, n := mx - y.mantissa, Wrap(TWO_32, q + 1), n + 1;
    }
  }

  /** The next quotient is nearer when the remainder exceeds |y|/2, or equals it at an odd quotient. */
  lemma RoundQuotient(x: Number, y: Number, m: int, q: int, n: int)
    requires 0 < y.exponent <= x.exponent
    requires 0 <= m < y.mantissa && Signed(x.negative, InUnits(x, y.exponent)) == n * y.mantissa + m
    requires q == Wrap(TWO_32, n)
    ensures if m + m > y.mantissa || (m + m == y.mantissa && q % 2 == 1)
            then IsQuotient(x, y, m - y.mantissa, y.exponent, n + 1)
                 && Wrap(TWO_32, q + 1) == Wrap(TWO_32, n + 1)
            else IsQuotient(x, y, m, y.exponent, n)
  {
    WrapParity(n);
    WrapIncrement(n);
    NearestParity(m, y.mantissa, q, n);
    hide InUnits, Wrap, IsQuotient, Signed, IntAbs;
    if m + m > y.mantissa || (m + m == y.mantissa && q % 2 == 1) {
      NextQuotient(n, y.mantissa, m);
      KernelQuotient(x, y, m - y.mantissa, n + 1);
    } else {
      KernelQuotient(x, y, m, n);
    }
  }

  lemma NearestParity(m: nat, d: nat, q: int, n: int)
    requires m < d && q % 2 == n % 2
    ensures if m + m > d || (m + m == d && q % 2 == 1)
            then 2 * IntAbs(m - d) <= d && (2 * IntAbs(m - d) == d ==> (n + 1) % 2 == 0)
            else 2 * IntAbs(m) <= d && (2 * IntAbs(m) == d ==> n % 2 == 0)
  {
  }

  lemma NextQuotient(n: int, d: int, m: int)
    ensures n * d + m == (n + 1) * d + (m - d)
  {
    Distribute(d, n, 1);
  }

  lemma KernelQuotient(x: Number, y: Number, m: int, n: int)
    requires 0 < y.exponent <= x.exponent && Signed(x.negative, InUnits(x, y.exponent)) == n * y.mantissa + m
    requires 2 * IntAbs(m) <= y.mantissa && (2 * IntAbs(m) == y.mantissa ==> n % 2 == 0)
    ensures IsQuotient(x, y, m, y.exponent, n)
  {
    hide InUnits;
  }

  lemma WrapIncrement(n: int)
    ensures Wrap(TWO_32, Wrap(TWO_32, n) + 1) == Wrap(TWO_32, n + 1)
  {
    WrapScaleAdd(TWO_32, n, 1, 1);
    WrapFits(TWO_32, Wrap(TWO_32, n));
  }

  /**
   * The answer is x - n*y for the integer n nearest x/y, ties to even, and quo is n cut to a word.
   */
  ghost predicate IsRemquo(fmt: Format, x: Number, y: Number, a: Answer, quo: int) {
    !a.Infinity? &&
    exists n :: NearestEvenDivision(fmt.Value(x), fmt.Value(y), n, a.Real(fmt, x))
                && quo == Wrap(TWO_32, n)
  }

  lemma RemquoWitness(fmt: Format, x: Number, y: Number, a: Answer, n: int)
    requires !a.Infinity?
    requires NearestEvenDivision(fmt.Value(x), fmt.Value(y), n, a.Real(fmt, x))
    ensures IsRemquo(fmt, x, y, a, Wrap(TWO_32, n))
  {
  }

  lemma JustBelowQuotient(x: Number, y: Number, m: int)
    requires x.exponent == y.exponent - 1 && x.mantissa > y.mantissa
    requires m == Signed(x.negative, x.mantissa - 2 * y.mantissa)
    ensures IsQuotient(x, y, m, x.exponent, Signed(x.negative, 1))
  {
  }

  /** In units of the exponent e, x is n*|y| + m, with m at most half of |y| and n even in a tie. */
  ghost predicate IsQuotient(x: Number, y: Number, m: int, e: int, n: int) {
    if x.exponent == y.exponent - 1
    then && e == x.exponent && x.mantissa > y.mantissa
         && n == Signed(x.negative, 1)
         && m == Signed(x.negative, x.mantissa - 2 * y.mantissa)
    else && e == y.exponent <= x.exponent
         && Signed(x.negative, InUnits(x, y.exponent)) == n * y.mantissa + m
         && 2 * IntAbs(m) <= y.mantissa
         && (2 * IntAbs(m) == y.mantissa ==> n % 2 == 0)
  }

  lemma QuotientFits(fmt: Format, x: Number, y: Number, m: int, e: int, n: int)
    requires fmt.IsMantissa(x.mantissa) && fmt.IsMantissa(y.mantissa) && IsQuotient(x, y, m, e, n)
    ensures -2 * fmt.Hidden() < m < 2 * fmt.Hidden()
  {
    hide InUnits;
  }

  lemma RemquoIsNearest(fmt: Format, x: Number, y: Number, m: int, e: int, n: int)
    requires fmt.Normal(x) && fmt.Normal(y)
    requires IsQuotient(x, y, m, e, n)
    ensures IsRemquo(fmt, x, y, Fixed(m, e - fmt.Bias() - fmt.FractionBits()),
                     Wrap(TWO_32, Signed(y.negative, n)))
  {
    hide Times, Exp2, InUnits, IsRemquo;
    if x.exponent == y.exponent - 1 {
      RemquoJustBelow(fmt, x, y, m, n);
    } else {
      RemquoFixed(fmt, x, y, m, n);
    }
    FixedWitness(fmt, x, y, m, e, Signed(y.negative, n));
  }

  lemma FixedWitness(fmt: Format, x: Number, y: Number, m: int, e: int, n: int)
    requires NearestEvenDivision(fmt.Value(x), fmt.Value(y), n, Times(m as real, fmt.Unit(e)))
    ensures IsRemquo(fmt, x, y, Fixed(m, e - fmt.Bias() - fmt.FractionBits()), Wrap(TWO_32, n))
  {
    hide Times, Exp2;
    RemquoWitness(fmt, x, y, Fixed(m, e - fmt.Bias() - fmt.FractionBits()), n);
  }

  lemma SignedInUnits(x: Number, e: int)
    requires e <= x.exponent
    ensures Signed(x.negative, x.mantissa) * Pow2(x.exponent - e) == Signed(x.negative, InUnits(x, e))
  {
    var m: int, p := x.mantissa, Pow2(x.exponent - e);
    assert (-m) * p == -(m * p);
  }

  lemma WrapParity(n: int)
    ensures Wrap(TWO_32, n) % 2 == n % 2
  {
    var k := WrapOffset(TWO_32, n);
    assert n == Wrap(TWO_32, n) + 2 * (0x8000_0000 * k);
  }

  lemma WrapNegate(n: int)
    ensures Wrap(TWO_32, -Wrap(TWO_32, n)) == Wrap(TWO_32, -n)
  {
    WrapDifference(TWO_32, 0, n);
    WrapFits(TWO_32, 0);
  }

  /** |x| <= |y|/2: x is its own remainder, with the even quotient 0. */
  lemma RemquoSmall(fmt: Format, x: Number, y: Number)
    requires 0 < x.exponent
    requires fmt.IsMantissa(x.mantissa) && fmt.IsMantissa(y.mantissa)
    requires x.exponent < y.exponent - 1
             || (x.exponent == y.exponent - 1 && x.mantissa <= y.mantissa)
    ensures NearestEvenDivision(fmt.Value(x), fmt.Value(y), 0, fmt.Value(x))
    ensures IsRemquo(fmt, x, y, Operand, 0)
  {
    hide Times, Exp2, InUnits;
    var e := x.exponent;
    ValueInUnits(fmt, x, e);
    ValueInUnits(fmt, y, e);
    InOwnUnits(x);
    InSmallerUnits(y, e);
    var sx := Signed(x.negative, x.mantissa);
    NearestInUnits(sx, Signed(y.negative, InUnits(y, e)), 0, sx, fmt.Unit(e), fmt.Value(x), fmt.Value(y));
    WrapFits(TWO_32, 0);
    RemquoWitness(fmt, x, y, Operand, 0);
  }

  /** |y|/2 < |x| < |y|: the quotient nearest x/|y| is 1 or -1, by the sign of x. */
  lemma RemquoJustBelow(fmt: Format, x: Number, y: Number, m: int, q: int)
    requires 0 < x.exponent == y.exponent - 1
    requires fmt.IsMantissa(x.mantissa) && fmt.IsMantissa(y.mantissa) && x.mantissa > y.mantissa
    requires q == Signed(x.negative, 1) && m == Signed(x.negative, x.mantissa - 2 * y.mantissa)
    ensures NearestEvenDivision(fmt.Value(x), fmt.Value(y), Signed(y.negative, q),
                                Times(m as real, fmt.Unit(x.exponent)))
  {
    hide Times, Exp2, InUnits;
    var e := x.exponent;
    ValueInUnits(fmt, x, e);
    ValueInUnits(fmt, y, e);
    InOwnUnits(x);
    InSmallerUnits(y, e);
    JustBelowSigns(x.negative, y.negative, x.mantissa, InUnits(y, e), m, fmt.Unit(e), fmt.Value(x),
                   fmt.Value(y));
  }

  lemma JustBelowSigns(nx: bool, ny: bool, mx: nat, my: nat, m: int, u: real, xv: real, yv: real)
    requires mx < my < 2 * mx && u > 0.0
    requires xv == Times(Signed(nx, mx) as real, u) && yv == Times(Signed(ny, my) as real, u)
    requires m == Signed(nx, mx - my)
    ensures NearestEvenDivision(xv, yv, Signed(ny, Signed(nx, 1)), Times(m as real, u))
  {
    NearestInUnits(Signed(nx, mx), Signed(ny, my), Signed(ny, Signed(nx, 1)), m, u, xv, yv);
  }

  lemma RemquoFixed(fmt: Format, x: Number, y: Number, m: int, n: int)
    requires 0 < y.exponent <= x.exponent
    requires Signed(x.negative, InUnits(x, y.exponent)) == n * y.mantissa + m
    requires 2 * IntAbs(m) <= y.mantissa && (2 * IntAbs(m) == y.mantissa ==> n % 2 == 0)
    ensures NearestEvenDivision(fmt.Value(x), fmt.Value(y), Signed(y.negative, n),
                                Times(m as real, fmt.Unit(y.exponent)))
  {
    hide Times, Exp2, InUnits;
    ValueInUnits(fmt, x, y.exponent);
    ValueInUnits(fmt, y, y.exponent);
    InOwnUnits(y);
    RemquoSigns(y.negative, Signed(x.negative, InUnits(x, y.exponent)), y.mantissa, n, m,
                fmt.Unit(y.exponent), fmt.Value(x), fmt.Value(y));
  }

  lemma RemquoSigns(ny: bool, w: int, my: nat, n: int, m: int, u: real, xv: real, yv: real)
    requires w == n * my + m && u > 0.0
    requires xv == Times(w as real, u) && yv == Times(Signed(ny, my) as real, u)
    requires 2 * IntAbs(m) <= my && (2 * IntAbs(m) == my ==> n % 2 == 0)
    ensures NearestEvenDivision(xv, yv, Signed(ny, n), Times(m as real, u))
  {
    assert (0 - n) * (0 - my) == n * my;
    NearestInUnits(w, Signed(ny, my), Signed(ny, n), m, u, xv, yv);
  }
}

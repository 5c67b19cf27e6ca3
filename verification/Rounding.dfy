/**
 * trunc, round, floor and ceil on encodings, in both formats. Masking off the low u bits of a word
 * rounds it down to a multiple of 2^u, and adding to a word wraps.
 */
module Rounding {
  import opened MachineWord
  import opened RealProduct
  import opened FloatFormat

  /** ix + addend, then the low u bits cleared. */
  function AddAndClear(fmt: Format, ix: nat, addend: nat, u: nat): nat {
    ClearLow((ix + addend) % fmt.Word(), u)
  }

  function ClearLow(w: nat, u: nat): nat {
    NaturalQuotient(w, Pow2(u));
    w / Pow2(u) * Pow2(u)
  }

  lemma NaturalQuotient(w: nat, g: nat)
    requires g > 0
    ensures w / g >= 0 && w / g * g >= 0
  {
    MultiplyMonotone(0, w / g, g);
  }

  /** Only the sign bit of ix is kept: a zero of the same sign. */
  function SignedZero(fmt: Format, ix: nat): nat {
    if fmt.Unpack(ix).negative then fmt.SignBit() else 0
  }

  /** A one of the sign of ix. */
  function SignedOne(fmt: Format, ix: nat): nat {
    SignedZero(fmt, ix) + fmt.Bias() * fmt.Hidden()
  }

  /** The number of mantissa bits of significance below one. */
  function BitsBelowOne(fmt: Format, ix: nat): int {
    fmt.FractionBits() - (fmt.Unpack(ix).exponent - fmt.Bias())
  }

  function Trunc(fmt: Format, ix: nat): nat {
    var e, u := fmt.Unpack(ix).exponent - fmt.Bias(), BitsBelowOne(fmt, ix);
    if e < 0 then SignedZero(fmt, ix)
    else if u <= 0 then ix
    else AddAndClear(fmt, ix, 0, u)
  }

  function Round(fmt: Format, ix: nat): nat {
    var e, u := fmt.Unpack(ix).exponent - fmt.Bias(), BitsBelowOne(fmt, ix);
    if e < -1 then SignedZero(fmt, ix)
    else if e == -1 then SignedOne(fmt, ix)
    else if u <= 0 then ix
    else AddAndClear(fmt, ix, Pow2(u - 1), u)
  }

  function Floor(fmt: Format, ix: nat): nat {
    var e, u := fmt.Unpack(ix).exponent - fmt.Bias(), BitsBelowOne(fmt, ix);
    if fmt.Unpack(ix).exponent == 0 then SignedZero(fmt, ix)
    else if e < 0 then if fmt.Unpack(ix).negative then SignedOne(fmt, ix) else 0
    else if u <= 0 then ix
    else AddAndClear(fmt, ix, if fmt.Unpack(ix).negative then Pow2(u) - 1 else 0, u)
  }

  function Ceil(fmt: Format, ix: nat): nat {
    var e, u := fmt.Unpack(ix).exponent - fmt.Bias(), BitsBelowOne(fmt, ix);
    if fmt.Unpack(ix).exponent == 0 then SignedZero(fmt, ix)
    else if e < 0 then if fmt.Unpack(ix).negative then SignedZero(fmt, ix) else SignedOne(fmt, ix)
    else if u <= 0 then ix
    else AddAndClear(fmt, ix, if !fmt.Unpack(ix).negative then Pow2(u) - 1 else 0, u)
  }

  // What the four functions mean on real numbers.

  function TowardZero(v: real): int { if v >= 0.0 then v.Floor else -(-v).Floor }
  function HalfAwayFromZero(v: real): int {
    if v >= 0.0 then (v + 0.5).Floor else -(-v + 0.5).Floor
  }
  function Ceiling(v: real): int { -(-v).Floor }

  /**
   * The encoding r is finite, has the sign of ix and the integer value k. Since a denormal is read as zero,
   * a zero has to have no fraction either.
   */
  ghost predicate Encodes(fmt: Format, ix: nat, r: nat, k: int) {
    && fmt.IsEncoding(r)
    && fmt.Unpack(r).exponent < fmt.MaxExponent()
    && (fmt.Unpack(r).exponent == 0 ==> fmt.Unpack(r).mantissa == fmt.Hidden())
    && fmt.Unpack(r).negative == fmt.Unpack(ix).negative
    && fmt.Value(fmt.Unpack(r)) == k as real
  }

  /** Clearing low bits of a mantissa that starts at a multiple of the cleared weight. */
  lemma ClearedSum(base: nat, m: nat, g: nat, k: nat)
    requires g > 0 && base == g * k
    ensures (base + m) / g * g == base + m / g * g
  {
    Distribute(g, k, m / g);
    DivisionIsUnique(base + m, g, k + m / g, m % g);
  }

  lemma HiddenFactors(fmt: Format, u: nat)
    requires u <= fmt.FractionBits()
    ensures fmt.Hidden() == Pow2(u) * Pow2(fmt.FractionBits() - u)
  {
    Pow2Adds(u, fmt.FractionBits() - u);
    HiddenIsPow2(fmt);
  }

  lemma HiddenIsPow2(fmt: Format)
    ensures fmt.Hidden() == Pow2(fmt.FractionBits())
    ensures 2 * fmt.Hidden() == Pow2(fmt.FractionBits() + 1)
  {
    Pow2Of23();
    Pow2Of52();
    assert Pow2(24) == 2 * Pow2(23) && Pow2(53) == 2 * Pow2(52);
    hide Pow2;
  }

  lemma Pow2Of23()
    ensures Pow2(23) == 0x80_0000
  {
    assert Pow2(8) == 256;
    Pow2Adds(8, 8);
    assert Pow2(7) == 128;
    Pow2Adds(16, 7);
  }

  lemma Pow2Of52()
    ensures Pow2(52) == 0x10_0000_0000_0000
  {
    Pow2Of23();
    assert Pow2(26) == 2 * Pow2(25) && Pow2(25) == 2 * Pow2(24) && Pow2(24) == 2 * Pow2(23);
    Pow2Adds(26, 26);
  }

  /**
   * Adding below the point and clearing the bits below it leaves the mantissa rounded down after the
   * addition; when that carries out of the mantissa, the exponent field takes the carry and the
   * value is still right.
   */
  lemma AddAndClearValue(fmt: Format, ix: nat, addend: nat, u: nat)
    requires fmt.IsEncoding(ix) && fmt.Normal(fmt.Unpack(ix))
    requires 0 < u <= fmt.FractionBits() && u == BitsBelowOne(fmt, ix)
    requires addend <= Pow2(u)
    ensures var x := fmt.Unpack(ix);
            Encodes(fmt, ix, AddAndClear(fmt, ix, addend, u),
                    Signed(x.negative, (x.mantissa + addend) / Pow2(u)))
  {
    hide Times, Exp2, Pow2, AddAndClear, Format.Unpack, Format.Unit;
    var x := fmt.Unpack(ix);
    var k := (x.mantissa + addend) / Pow2(u);
    PackUnpack(fmt, ix);
    SumWithoutWrap(fmt, x, ix, addend, u);
    RoundedMantissa(fmt, x.mantissa, addend, u);
    CarryIntoExponent(fmt, x.negative, x.exponent, k * Pow2(u));
    IntegerValue(fmt, x.negative, x.exponent, k, u);
  }

  /** A mantissa of 2^(FractionBits + 1), added to the fields, is the next exponent with fraction zero. */
  lemma CarryIntoExponent(fmt: Format, negative: bool, exponent: nat, m: nat)
    requires 0 < exponent && exponent + 1 < fmt.MaxExponent()
    requires fmt.Hidden() <= m <= 2 * fmt.Hidden()
    ensures var r := Pack(fmt, negative, exponent - 1, 0) + m;
            && fmt.IsEncoding(r) && fmt.Unpack(r).negative == negative
            && 0 < fmt.Unpack(r).exponent < fmt.MaxExponent()
            && fmt.Value(fmt.Unpack(r)) == Times(Signed(negative, m) as real, fmt.Unit(exponent))
  {
    hide Times, Exp2, Format.Unpack, Format.Unit, Format.Value;
    var h := fmt.Hidden();
    if m < 2 * h {
      UnpackPack(fmt, negative, exponent, m - h);
      ValueOf(fmt, Number(negative, exponent, m));
    } else {
      UnpackPack(fmt, negative, exponent + 1, 0);
      ValueOf(fmt, Number(negative, exponent + 1, h));
      CarriedValue(fmt, negative, exponent);
    }
  }

  lemma ValueOf(fmt: Format, x: Number)
    requires x.exponent > 0
    ensures fmt.Value(x) == Times(Signed(x.negative, x.mantissa) as real, fmt.Unit(x.exponent))
  {
    hide Times;
  }

  /** The sign and exponent of a pattern, above its fraction. */
  function PackedTop(fmt: Format, negative: bool, exponent: nat): nat {
    (if negative then fmt.MaxExponent() + 1 else 0) + exponent
  }

  /**
   * A pattern without a fraction is a multiple of the hidden bit, and the mantissa with it adds to the
   * exponent below.
   */
  lemma PackIsMultiple(fmt: Format, negative: bool, exponent: nat, mantissa: nat)
    requires exponent > 0 && mantissa >= fmt.Hidden()
    ensures Pack(fmt, negative, exponent - 1, 0) == fmt.Hidden() * PackedTop(fmt, negative, exponent - 1)
    ensures Pack(fmt, negative, exponent, mantissa - fmt.Hidden()) == Pack(fmt, negative, exponent - 1, 0) + mantissa
  {
    match fmt
    case Double =>
    case Single =>
  }

  lemma SumFitsWord(fmt: Format, x: Number, ix: nat, addend: nat)
    requires fmt.Normal(x) && addend <= fmt.Hidden()
    requires ix == Pack(fmt, x.negative, x.exponent, x.mantissa - fmt.Hidden())
    ensures ix + addend < fmt.Word()
  {
    match fmt
    case Double =>
    case Single =>
  }

  lemma SumWithoutWrap(fmt: Format, x: Number, ix: nat, addend: nat, u: nat)
    requires fmt.Normal(x) && u <= fmt.FractionBits() && addend <= Pow2(u)
    requires ix == Pack(fmt, x.negative, x.exponent, x.mantissa - fmt.Hidden())
    ensures AddAndClear(fmt, ix, addend, u)
            == Pack(fmt, x.negative, x.exponent - 1, 0) + (x.mantissa + addend) / Pow2(u) * Pow2(u)
  {
    var base, sum := Pack(fmt, x.negative, x.exponent - 1, 0), x.mantissa + addend;
    hide Pow2, Pack, ClearLow;
    var k := PackedMultiple(fmt, x.negative, x.exponent - 1, u);
    PackIsMultiple(fmt, x.negative, x.exponent, x.mantissa);
    FactorFits(fmt, u);
    SumFitsWord(fmt, x, ix, addend);
    SmallIsItself(ix + addend, fmt.Word());
    WordCleared(base, sum, u, k);
  }

  lemma SmallIsItself(w: nat, modulus: nat)
    requires w < modulus
    ensures w % modulus == w
  {
    DivisionIsUnique(w, modulus, 0, w);
  }

  lemma WordCleared(base: nat, sum: nat, u: nat, k: nat)
    requires base == Pow2(u) * k
    ensures ClearLow(base + sum, u) == base + sum / Pow2(u) * Pow2(u)
  {
    hide Pow2;
    ClearedSum(base, sum, Pow2(u), k);
  }

  lemma FactorFits(fmt: Format, u: nat)
    requires u <= fmt.FractionBits()
    ensures Pow2(u) <= fmt.Hidden()
  {
    HiddenFactors(fmt, u);
    MultiplyMonotone(1, Pow2(fmt.FractionBits() - u), Pow2(u));
  }

  lemma PackedMultiple(fmt: Format, negative: bool, exponent: nat, u: nat) returns (k: nat)
    requires u <= fmt.FractionBits()
    ensures Pack(fmt, negative, exponent, 0) == Pow2(u) * k
  {
    var p, top := Pow2(fmt.FractionBits() - u), PackedTop(fmt, negative, exponent);
    k := p * top;
    HiddenFactors(fmt, u);
    PackIsMultiple(fmt, negative, exponent + 1, fmt.Hidden());
    hide Pow2, Pack, PackedTop;
    Associate(Pow2(u), p, top);
  }

  lemma RoundedMantissa(fmt: Format, m: nat, addend: nat, u: nat)
    requires fmt.IsMantissa(m) && u <= fmt.FractionBits() && addend <= Pow2(u)
    ensures fmt.Hidden() <= (m + addend) / Pow2(u) * Pow2(u) <= 2 * fmt.Hidden()
  {
    hide Pow2;
    var g, p := Pow2(u), Pow2(fmt.FractionBits() - u);
    HiddenFactors(fmt, u);
    Distribute(g, 2 * p, 1);
    Associate(2, p, g);
    QuotientBounds(m + addend, g, p, 2 * p + 1);
    var k := (m + addend) / g;
    MultiplyMonotone(p, k, g);
    MultiplyMonotone(k, 2 * p, g);
  }

  lemma IntegerValue(fmt: Format, negative: bool, exponent: nat, k: nat, u: nat)
    requires u == fmt.FractionBits() - (exponent - fmt.Bias())
    ensures Times(Signed(negative, k * Pow2(u)) as real, fmt.Unit(exponent)) == Signed(negative, k) as real
  {
    hide Times, Pow2;
    ScaledShift(Signed(negative, k), exponent - fmt.Bias() - fmt.FractionBits(), u);
    assert Exp2(0) == 1.0;
    TimesUnit(Signed(negative, k) as real);
    SignedProduct(negative, k, Pow2(u));
  }

  lemma CarriedValue(fmt: Format, negative: bool, exponent: nat)
    ensures Times(Signed(negative, fmt.Hidden()) as real, fmt.Unit(exponent + 1))
            == Times(Signed(negative, 2 * fmt.Hidden()) as real, fmt.Unit(exponent))
  {
    hide Times, Exp2;
    assert Pow2(1) == 2;
    ScaledShift(Signed(negative, fmt.Hidden()), exponent - fmt.Bias() - fmt.FractionBits(), 1);
  }

  /** The value of x is its mantissa divided by 2^u, u being its number of bits below one. */
  lemma ValueAsQuotient(fmt: Format, x: Number, u: nat)
    requires x.exponent > 0 && u == fmt.FractionBits() - (x.exponent - fmt.Bias())
    ensures Times(fmt.Value(x), Pow2(u) as real) == Signed(x.negative, x.mantissa) as real
  {
    hide Times, Pow2;
    var m, p := Signed(x.negative, x.mantissa) as real, Pow2(u) as real;
    Exp2Adds(x.exponent - fmt.Bias() - fmt.FractionBits(), u);
    assert Exp2(0) == 1.0;
    TimesAssociates(m, fmt.Unit(x.exponent), p);
    TimesCommutes(fmt.Unit(x.exponent), p);
    TimesUnit(m);
  }

  /** The integer quotient of a scaled value is its floor. */
  lemma FloorOfQuotient(v: real, m: int, g: nat)
    requires g > 0 && Times(v, g as real) == m as real
    ensures v.Floor == m / g
  {
    hide Times;
    FloorFromParts(v, m / g, m % g, g);
  }

  lemma FloorFromParts(v: real, k: int, rest: nat, g: nat)
    requires g > rest && Times(v, g as real) == (g * k + rest) as real
    ensures v.Floor == k
  {
    hide Times;
    TimesIntegers(k, g);
    TimesIntegers(k + 1, g);
    Distribute(g, k, 1);
    TimesOrder(v, k as real, g as real);
    TimesOrder(v, (k + 1) as real, g as real);
  }

  lemma CeilingOfQuotient(m: int, g: nat)
    requires g > 0
    ensures (0 - m) / g == 0 - (m + g - 1) / g
  {
    var k := (m + g - 1) / g;
    Distribute(g, 0 - k, k);
    DivisionIsUnique(0 - m, g, 0 - k, g * k - m);
  }

  lemma Exp2Monotone(k: int, j: int)
    requires k <= j
    ensures Exp2(k) <= Exp2(j)
  {
    hide Times, Exp2, Pow2;
    Exp2Adds(k, j - k);
    assert k + (j - k) == j;
    TimesOrder(Pow2(j - k) as real, 1.0, Exp2(k));
    TimesUnit(Exp2(k));
  }

  /** A normal number of exponent e is at least 2^e and less than 2^(e+1) in magnitude. */
  lemma MagnitudeBounds(fmt: Format, x: Number)
    requires fmt.Normal(x)
    ensures var e, v := x.exponent - fmt.Bias(), fmt.Value(x);
            Exp2(e) <= (if x.negative then -v else v) < Exp2(e + 1)
  {
    hide Times, Exp2, Pow2;
    var u := fmt.Unit(x.exponent);
    UnitScale(fmt, x.exponent);
    TimesNegates(x.mantissa as real, u);
    TimesOrder(x.mantissa as real, fmt.Hidden() as real, u);
    TimesOrder(x.mantissa as real, (2 * fmt.Hidden()) as real, u);
  }

  lemma UnitScale(fmt: Format, exponent: int)
    ensures Exp2(exponent - fmt.Bias()) == Times(fmt.Hidden() as real, fmt.Unit(exponent))
    ensures Exp2(exponent - fmt.Bias() + 1) == Times((2 * fmt.Hidden()) as real, fmt.Unit(exponent))
  {
    hide Times, Exp2, Pow2;
    var k, f := exponent - fmt.Bias() - fmt.FractionBits(), fmt.FractionBits();
    HiddenIsPow2(fmt);
    Exp2Adds(k, f);
    Exp2Adds(k, f + 1);
    assert k + f == exponent - fmt.Bias() && k + (f + 1) == exponent - fmt.Bias() + 1;
  }

  /** With no bits below one, a number is an integer. */
  lemma LargeIsInteger(fmt: Format, x: Number)
    requires x.exponent > 0 && x.exponent - fmt.Bias() >= fmt.FractionBits()
    ensures var d := x.exponent - fmt.Bias() - fmt.FractionBits();
            fmt.Value(x) == (Signed(x.negative, x.mantissa) * Pow2(d)) as real
  {
    hide Times, Pow2;
    var d := x.exponent - fmt.Bias() - fmt.FractionBits();
    ScaledShift(Signed(x.negative, x.mantissa), 0, d);
    assert Exp2(0) == 1.0;
    TimesUnit((Signed(x.negative, x.mantissa) * Pow2(d)) as real);
  }

  /** A sign and an integer value have only one encoding, and zero has the one of all zeros but for the sign. */
  lemma EncodesOnlyOne(fmt: Format, ix: nat, r1: nat, r2: nat, k: int)
    requires Encodes(fmt, ix, r1, k) && Encodes(fmt, ix, r2, k)
    ensures r1 == r2
    ensures k == 0 <==> r1 == if fmt.Unpack(ix).negative then fmt.SignBit() else 0
  {
    var x1, x2 := fmt.Unpack(r1), fmt.Unpack(r2);
    PackUnpack(fmt, r1);
    PackUnpack(fmt, r2);
    assert x1.negative == x2.negative == fmt.Unpack(ix).negative;
    hide Times, Exp2, Pack, Format.Unpack, Format.Unit, Format.Value, Format.SignBit, Format.Hidden, Format.MaxExponent;
    SameValue(fmt, x1, x2);
    ZeroOrNormal(fmt, x1);
    ZeroPattern(fmt, x1);
    assert x1 == x2;
  }

  lemma ZeroPattern(fmt: Format, x: Number)
    requires fmt.IsMantissa(x.mantissa)
    ensures Pack(fmt, x.negative, x.exponent, x.mantissa - fmt.Hidden()) == (if x.negative then fmt.SignBit() else 0)
            <==> x.exponent == 0 && x.mantissa == fmt.Hidden()
  {
    MultiplyMonotone(0, x.exponent, fmt.Hidden());
    if x.exponent > 0 {
      MultiplyMonotone(1, x.exponent, fmt.Hidden());
    }
  }

  lemma ZeroOrNormal(fmt: Format, x: Number)
    requires fmt.Normal(x) || x.exponent == 0
    ensures fmt.Value(x) == 0.0 <==> x.exponent == 0
  {
    if x.exponent > 0 {
      hide Format.Value;
      MagnitudeBounds(fmt, x);
    }
  }

  lemma UnitPositive(fmt: Format, exponent: int)
    ensures fmt.Unit(exponent) > 0.0
  {
  }

  /** Of two numbers in one format with the same sign and value, both are zero or both are the same. */
  lemma SameValue(fmt: Format, x: Number, y: Number)
    requires (fmt.Normal(x) || x.exponent == 0) && (fmt.Normal(y) || y.exponent == 0)
    requires x.negative == y.negative && fmt.Value(x) == fmt.Value(y)
    ensures x.exponent == y.exponent && (x.exponent > 0 ==> x == y)
  {
    hide Times, Exp2, Format.Unit, Format.Value;
    ZeroOrNormal(fmt, x);
    ZeroOrNormal(fmt, y);
    if x.exponent > 0 {
      MagnitudeBounds(fmt, x);
      MagnitudeBounds(fmt, y);
      if x.exponent < y.exponent {
        Exp2Monotone(x.exponent - fmt.Bias() + 1, y.exponent - fmt.Bias());
      } else if x.exponent > y.exponent {
        Exp2Monotone(y.exponent - fmt.Bias() + 1, x.exponent - fmt.Bias());
      } else {
        ValueOf(fmt, x);
        ValueOf(fmt, y);
        var u := fmt.Unit(x.exponent);
        UnitPositive(fmt, x.exponent);
        TimesOrder(Signed(x.negative, x.mantissa) as real, Signed(y.negative, y.mantissa) as real, u);
        TimesOrder(Signed(y.negative, y.mantissa) as real, Signed(x.negative, x.mantissa) as real, u);
      }
    }
  }

  lemma EncodesZero(fmt: Format, ix: nat)
    requires fmt.IsEncoding(ix)
    ensures Encodes(fmt, ix, SignedZero(fmt, ix), 0)
  {
    UnpackPack(fmt, fmt.Unpack(ix).negative, 0, 0);
  }

  lemma EncodesOne(fmt: Format, ix: nat)
    requires fmt.IsEncoding(ix)
    ensures Encodes(fmt, ix, SignedOne(fmt, ix), Signed(fmt.Unpack(ix).negative, 1))
  {
    hide Times, Exp2, Pow2, Format.Unpack, Format.Unit;
    var negative := fmt.Unpack(ix).negative;
    UnpackPack(fmt, negative, fmt.Bias(), 0);
    HiddenIsPow2(fmt);
    IntegerValue(fmt, negative, fmt.Bias(), 1, fmt.FractionBits());
  }

  /** trunc gives the integer part, with the sign of its operand. */
  lemma TruncIsInteger(fmt: Format, ix: nat)
    requires fmt.IsEncoding(ix) && fmt.Unpack(ix).exponent < fmt.MaxExponent()
    ensures Encodes(fmt, ix, Trunc(fmt, ix), TowardZero(fmt.Value(fmt.Unpack(ix))))
  {
    hide Times, Exp2, Pow2, AddAndClear, Format.Unpack, Format.Unit, Format.Value;
    hide TowardZero, HalfAwayFromZero, Ceiling;
    var x, u := fmt.Unpack(ix), BitsBelowOne(fmt, ix);
    PackUnpack(fmt, ix);
    if x.exponent < fmt.Bias() {
      BelowOne(fmt, x);
      EncodesZero(fmt, ix);
    } else if u <= 0 {
      LargeEncodesItself(fmt, ix);
    } else {
      AddAndClearValue(fmt, ix, 0, u);
      MagnitudeFloor(fmt, x, u);
    }
  }

  lemma LargeEncodesItself(fmt: Format, ix: nat)
    requires fmt.IsEncoding(ix) && fmt.Unpack(ix).exponent < fmt.MaxExponent()
    requires BitsBelowOne(fmt, ix) <= 0
    ensures var v := fmt.Value(fmt.Unpack(ix));
            && Encodes(fmt, ix, ix, v.Floor)
            && TowardZero(v) == HalfAwayFromZero(v) == Ceiling(v) == v.Floor
  {
    hide Times, Exp2, Pow2, Format.Unit, Format.Unpack, Format.Value;
    var x := fmt.Unpack(ix);
    LargeIsInteger(fmt, x);
    IntegerRounds(fmt.Value(x), Signed(x.negative, x.mantissa) * Pow2(x.exponent - fmt.Bias() - fmt.FractionBits()));
  }

  lemma IntegerRounds(v: real, i: int)
    requires v == i as real
    ensures TowardZero(v) == HalfAwayFromZero(v) == Ceiling(v) == v.Floor == i
  {
  }

  /** How a number of exponent below that of 1 rounds. */
  lemma BelowOne(fmt: Format, x: Number)
    requires x.exponent < fmt.Bias() && fmt.IsMantissa(x.mantissa)
    ensures var v := fmt.Value(x);
            && TowardZero(v) == 0
            && HalfAwayFromZero(v) == (if x.exponent == fmt.Bias() - 1 then Signed(x.negative, 1) else 0)
            && v.Floor == (if x.exponent > 0 && x.negative then -1 else 0)
            && Ceiling(v) == (if x.exponent > 0 && !x.negative then 1 else 0)
  {
    hide Format.Value;
    var v, e := fmt.Value(x), x.exponent - fmt.Bias();
    if x.exponent > 0 {
      MagnitudeBounds(fmt, x);
      Exp2Monotone(e + 1, 0);
      assert Exp2(0) == 1.0 && Exp2(-1) == 0.5;
      if e < -1 {
        Exp2Monotone(e + 1, -1);
      }
    } else {
      assert v == 0.0 by { ZeroValue(fmt, x); }
    }
  }

  lemma ZeroValue(fmt: Format, x: Number)
    requires x.exponent == 0
    ensures fmt.Value(x) == 0.0
  {
  }

  /** How a number with u bits below one rounds: its mantissa plus an addend, over 2^u, rounded down. */
  lemma MagnitudeFloor(fmt: Format, x: Number, u: nat)
    requires 0 < x.exponent && 0 < u == fmt.FractionBits() - (x.exponent - fmt.Bias())
    ensures var v, g := fmt.Value(x), Pow2(u);
            && TowardZero(v) == Signed(x.negative, x.mantissa / g)
            && HalfAwayFromZero(v) == Signed(x.negative, (x.mantissa + Pow2(u - 1)) / g)
            && v.Floor == Signed(x.negative, (x.mantissa + if x.negative then g - 1 else 0) / g)
            && Ceiling(v) == Signed(x.negative, (x.mantissa + if x.negative then 0 else g - 1) / g)
  {
    hide Times, Exp2, Pow2, Format.Unit, Format.Value;
    var v, g := fmt.Value(x), Pow2(u);
    ValueAsQuotient(fmt, x, u);
    TimesNegates(v, g as real);
    HalfOfPow2(u);
    QuotientRounds(if x.negative then -v else v, x.mantissa, g, Pow2(u - 1));
  }

  lemma HalfOfPow2(u: nat)
    requires u > 0
    ensures Pow2(u) == 2 * Pow2(u - 1)
  {
  }

  lemma QuotientRounds(a: real, m: nat, g: nat, half: nat)
    requires g > 0 && g == 2 * half && Times(a, g as real) == m as real
    ensures a >= 0.0
    ensures a.Floor == m / g && (a + 0.5).Floor == (m + half) / g && -(-a).Floor == (m + g - 1) / g
    ensures a == 0.0 ==> m / g == (m + half) / g == (m + g - 1) / g == 0
  {
    hide Times;
    var gr, hr := g as real, half as real;
    TimesUnit(gr);
    TimesOrder(a, 0.0, gr);
    FloorOfQuotient(a, m, g);
    assert gr == hr + hr;
    TimesHalf(hr);
    TimesDistributes(a, 0.5, gr);
    FloorOfQuotient(a + 0.5, m + half, g);
    TimesNegates(a, gr);
    FloorOfQuotient(-a, 0 - m, g);
    CeilingOfQuotient(m, g);
  }

  /** round gives the nearest integer, halfway cases away from zero. */
  lemma RoundIsNearest(fmt: Format, ix: nat)
    requires fmt.IsEncoding(ix) && fmt.Unpack(ix).exponent < fmt.MaxExponent()
    ensures Encodes(fmt, ix, Round(fmt, ix), HalfAwayFromZero(fmt.Value(fmt.Unpack(ix))))
  {
    hide Times, Exp2, Pow2, AddAndClear, Format.Unpack, Format.Unit, Format.Value;
    hide TowardZero, HalfAwayFromZero, Ceiling;
    var x, u := fmt.Unpack(ix), BitsBelowOne(fmt, ix);
    PackUnpack(fmt, ix);
    if x.exponent < fmt.Bias() {
      BelowOne(fmt, x);
      EncodesZero(fmt, ix);
      EncodesOne(fmt, ix);
    } else if u <= 0 {
      LargeEncodesItself(fmt, ix);
    } else {
      HalfOfPow2(u);
      AddAndClearValue(fmt, ix, Pow2(u - 1), u);
      MagnitudeFloor(fmt, x, u);
    }
  }

  /** floor gives the greatest integer not above its operand. */
  lemma FloorIsFloor(fmt: Format, ix: nat)
    requires fmt.IsEncoding(ix) && fmt.Unpack(ix).exponent < fmt.MaxExponent()
    ensures Encodes(fmt, ix, Floor(fmt, ix), fmt.Value(fmt.Unpack(ix)).Floor)
  {
    hide Times, Exp2, Pow2, AddAndClear, Format.Unpack, Format.Unit, Format.Value;
    hide TowardZero, HalfAwayFromZero, Ceiling;
    var x, u := fmt.Unpack(ix), BitsBelowOne(fmt, ix);
    PackUnpack(fmt, ix);
    if x.exponent < fmt.Bias() {
      BelowOne(fmt, x);
      EncodesZero(fmt, ix);
      EncodesOne(fmt, ix);
    } else if u <= 0 {
      LargeEncodesItself(fmt, ix);
    } else {
      var addend := if x.negative then Pow2(u) - 1 else 0;
      AddAndClearValue(fmt, ix, addend, u);
      MagnitudeFloor(fmt, x, u);
    }
  }

  /** ceil gives the least integer not below its operand. */
  lemma CeilIsCeiling(fmt: Format, ix: nat)
    requires fmt.IsEncoding(ix) && fmt.Unpack(ix).exponent < fmt.MaxExponent()
    ensures Encodes(fmt, ix, Ceil(fmt, ix), Ceiling(fmt.Value(fmt.Unpack(ix))))
  {
    hide Times, Exp2, Pow2, AddAndClear, Format.Unpack, Format.Unit, Format.Value;
    hide TowardZero, HalfAwayFromZero, Ceiling;
    var x, u := fmt.Unpack(ix), BitsBelowOne(fmt, ix);
    PackUnpack(fmt, ix);
    if x.exponent < fmt.Bias() {
      BelowOne(fmt, x);
      EncodesZero(fmt, ix);
      EncodesOne(fmt, ix);
    } else if u <= 0 {
      LargeEncodesItself(fmt, ix);
    } else {
      var addend := if !x.negative then Pow2(u) - 1 else 0;
      AddAndClearValue(fmt, ix, addend, u);
      MagnitudeFloor(fmt, x, u);
    }
  }

  /** An infinity or a NaN comes back as it is. */
  lemma NonFiniteUnchanged(fmt: Format, ix: nat)
    requires fmt.IsEncoding(ix) && fmt.Unpack(ix).exponent == fmt.MaxExponent()
    ensures Trunc(fmt, ix) == Round(fmt, ix) == Floor(fmt, ix) == Ceil(fmt, ix) == ix
  {
  }

  /** What some patterns of either format stand for. */
  lemma KnownPatterns()
    ensures Double.Value(Double.Unpack(0x3ff8_0000_0000_0000)) == 1.5
    ensures Double.Value(Double.Unpack(0xc004_0000_0000_0000)) == -2.5
    ensures Single.Value(Single.Unpack(0x3fc0_0000)) == 1.5
    ensures Single.Value(Single.Unpack(0xc020_0000)) == -2.5
  {
    KnownValue(Double, false, 3);
    KnownValue(Double, true, 5);
    KnownValue(Single, false, 3);
    KnownValue(Single, true, 5);
    hide Times, Exp2;
    assert Double.Unpack(0x3ff8_0000_0000_0000) == Number(false, 0x3ff, 0x18_0000_0000_0000);
    assert Double.Unpack(0xc004_0000_0000_0000) == Number(true, 0x400, 0x14_0000_0000_0000);
    assert Single.Unpack(0x3fc0_0000) == Number(false, 0x7f, 0xc0_0000);
    assert Single.Unpack(0xc020_0000) == Number(true, 0x80, 0xa0_0000);
  }

  /** Three halves with the exponent of one, and five halves with the exponent of two. */
  lemma KnownValue(fmt: Format, negative: bool, halves: nat)
    requires halves == 3 || halves == 5
    ensures fmt.Value(if halves == 3 then Number(negative, fmt.Bias(), 3 * (fmt.Hidden() / 2))
                      else Number(negative, fmt.Bias() + 1, 5 * (fmt.Hidden() / 4)))
            == Signed(negative, halves) as real / 2.0
  {
    hide Times, Exp2, Pow2, Format.Value;
    var e := if halves == 3 then fmt.Bias() else fmt.Bias() + 1;
    var m := if halves == 3 then 3 * (fmt.Hidden() / 2) else 5 * (fmt.Hidden() / 4);
    var d := if halves == 3 then fmt.FractionBits() - 1 else fmt.FractionBits() - 2;
    ValueOf(fmt, Number(negative, e, m));
    QuarterOfHidden(fmt);
    assert e - fmt.Bias() - fmt.FractionBits() + d == -1;
    ScaledShift(Signed(negative, halves), e - fmt.Bias() - fmt.FractionBits(), d);
    SignedProduct(negative, halves, Pow2(d));
    HalfUnit(Signed(negative, halves));
  }

  lemma HalfUnit(k: int)
    ensures Times(k as real, Exp2(-1)) == k as real / 2.0
  {
    assert Exp2(-1) == 0.5;
  }

  lemma QuarterOfHidden(fmt: Format)
    ensures fmt.Hidden() / 2 == Pow2(fmt.FractionBits() - 1) && fmt.Hidden() / 4 == Pow2(fmt.FractionBits() - 2)
  {
    HiddenIsPow2(fmt);
    HalfOfPow2(fmt.FractionBits());
    HalfOfPow2(fmt.FractionBits() - 1);
    hide Pow2;
  }
}

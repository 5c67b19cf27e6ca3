/**
 * The two IEEE 754 binary formats of the libraries: an encoding is a natural number made of a sign
 * bit, an exponent field and a fraction field, from the top down.
 */
module FloatFormat {
  import opened MachineWord
  import opened RealProduct

  datatype Format = Double | Single {
    /** Number of fraction bits. */
    function FractionBits(): nat { if Double? then 52 else 23 }
    /** Weight of the hidden bit, which is also the number of fractions. */
    function Hidden(): nat { if Double? then 0x10_0000_0000_0000 else 0x80_0000 }
    /** The exponent field of infinities and NaNs. */
    function MaxExponent(): nat { if Double? then 0x7ff else 0xff }
    function Bias(): nat { if Double? then 0x3ff else 0x7f }
    /** Weight of the sign bit. */
    function SignBit(): nat { Hidden() * (MaxExponent() + 1) }
    /** Number of bit patterns of the word holding an encoding or a mantissa. */
    function Word(): nat { if Double? then TWO_64 else TWO_32 }

    predicate IsEncoding(bits: nat) { bits < Word() }

    /** DUNPACKS / FUNPACKS: the three fields, the fraction with the hidden bit in place. */
    function Unpack(bits: nat): Number {
      Number(bits / SignBit() != 0,
             bits / Hidden() % (MaxExponent() + 1),
             bits % Hidden() + Hidden())
    }

    predicate IsMantissa(m: int) { Hidden() <= m < 2 * Hidden() }

    /** Neither zero, denormal, infinite nor NaN. */
    predicate Normal(x: Number) { 0 < x.exponent < MaxExponent() && IsMantissa(x.mantissa) }

    /** The weight of the last mantissa bit at a given exponent field. */
    function Unit(exponent: int): real { Exp2(exponent - Bias() - FractionBits()) }

    /** The value of a finite number; a denormal is read as zero. */
    function Value(x: Number): real {
      if x.exponent == 0 then 0.0 else Times(Signed(x.negative, x.mantissa) as real, Unit(x.exponent))
    }
  }

  /** The encoding with the given fields; the inverse of Unpack. */
  function Pack(fmt: Format, negative: bool, exponent: nat, fraction: nat): nat {
    (if negative then fmt.SignBit() else 0) + exponent * fmt.Hidden() + fraction
  }

  lemma UnpackPack(fmt: Format, negative: bool, exponent: nat, fraction: nat)
    requires exponent <= fmt.MaxExponent() && fraction < fmt.Hidden()
    ensures fmt.IsEncoding(Pack(fmt, negative, exponent, fraction))
    ensures fmt.Unpack(Pack(fmt, negative, exponent, fraction))
            == Number(negative, exponent, fmt.Hidden() + fraction)
  {
    var h, n := fmt.Hidden(), fmt.MaxExponent() + 1;
    var s := if negative then 1 else 0;
    var bits := Pack(fmt, negative, exponent, fraction);
    var top := s * n + exponent;
    assert bits == h * top + fraction;
    DivisionIsUnique(bits, h, top, fraction);
    DivisionIsUnique(top, n, s, exponent);
    assert fmt.SignBit() == h * n;
    assert bits == h * n * s + (h * exponent + fraction);
    DivisionIsUnique(bits, h * n, s, h * exponent + fraction);
  }

  lemma PackUnpack(fmt: Format, bits: nat)
    requires fmt.IsEncoding(bits)
    ensures var x := fmt.Unpack(bits);
            && x.exponent <= fmt.MaxExponent() && fmt.IsMantissa(x.mantissa)
            && bits == Pack(fmt, x.negative, x.exponent, x.mantissa - fmt.Hidden())
  {
    match fmt
    case Double =>
    case Single =>
  }

  datatype Number = Number(negative: bool, exponent: nat, mantissa: nat)

  function Signed(negative: bool, m: int): int { if negative then -m else m }

  /** 2 to the power k, for k of either sign. */
  function Exp2(k: int): (r: real)
    ensures r > 0.0
    decreases if k < 0 then -k else k
  {
    if k == 0 then 1.0 else if k > 0 then 2.0 * Exp2(k - 1) else Exp2(k + 1) / 2.0
  }

  lemma {:induction false} Exp2Adds(k: int, d: nat)
    ensures Exp2(k + d) == Times(Pow2(d) as real, Exp2(k))
    decreases d
  {
    hide Times;
    if d == 0 {
      TimesUnit(Exp2(k));
    } else {
      Exp2Adds(k, d - 1);
      assert Exp2(k + d) == 2.0 * Exp2(k + d - 1);
      var p := Pow2(d - 1) as real;
      assert Pow2(d) as real == p + p;
      TimesDistributes(p, p, Exp2(k));
    }
  }

  /** A power of two can move between the mantissa and the exponent. */
  lemma ScaledShift(m: int, k: int, d: nat)
    ensures Times(m as real, Exp2(k + d)) == Times((m * Pow2(d)) as real, Exp2(k))
  {
    hide Times, Exp2, Pow2;
    Exp2Adds(k, d);
    TimesIntegers(m, Pow2(d));
    TimesAssociates(m as real, Pow2(d) as real, Exp2(k));
  }

  lemma SignedProduct(negative: bool, m: int, p: int)
    ensures Signed(negative, m) * p == Signed(negative, m * p)
  {
    assert (-m) * p == -(m * p);
  }
}

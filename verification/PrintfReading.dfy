/**
 * What the text of a number says: which digits, prefix and sign it shows, as conditions on the arguments
 * of the conversion, and the number that is read back from it.
 */
module PrintfReading {
  import opened MachineWord
  import opened PrintfNumbers

  // What the digits mean.

  function Power(base: nat, n: nat): (p: nat)
    ensures base >= 1 ==> p >= 1
  {
    if n == 0 then 1
    else
      var p := Power(base, n - 1);
      if base >= 1 then (MultiplyMonotone(1, base, p); base * p) else 0
  }

  /** What the n lowest digits of a value stand for. */
  function LowDigits(value: nat, base: nat, n: nat): nat
    requires base >= 1
  {
    value % Power(base, n)
  }

  function DigitValue(c: char): nat {
    if '0' <= c <= '9' then (c - '0') as nat
    else if 'a' <= c <= 'f' then (c - 'a') as nat + 10
    else if 'A' <= c <= 'F' then (c - 'A') as nat + 10
    else 0
  }

  /** The number that digits stand for, the lowest first. */
  function LowFirst(digits: seq<char>, base: nat): nat {
    if digits == [] then 0 else DigitValue(digits[0]) + base * LowFirst(digits[1..], base)
  }

  /** The number that text stands for when it is read from left to right. */
  function ReadText(text: seq<char>, base: nat): nat {
    if text == [] then 0
    else ReadText(text[..|text| - 1], base) * base + DigitValue(text[|text| - 1])
  }

  lemma DigitCharValue(d: nat, upper: bool)
    requires d < 16
    ensures DigitValue(DigitChar(d, upper)) == d
  {
  }

  lemma {:induction false} ReadReversed(digits: seq<char>, base: nat)
    ensures ReadText(Reversed(digits), base) == LowFirst(digits, base)
  {
    if digits != [] {
      var r := Reversed(digits);
      assert r[..|r| - 1] == Reversed(digits[1..]);
      ReadReversed(digits[1..], base);
    }
  }

  /** The lowest digit and the rest of a value below a power of the base. */
  lemma LowestDigit(value: nat, base: nat, n: nat)
    requires base >= 2 && n > 0
    ensures LowDigits(value, base, n) == value % base + base * LowDigits(value / base, base, n - 1)
  {
    var p := Power(base, n - 1);
    assert Power(base, n) == base * p;
    hide Power;
    var rest := value / base;
    var q, r := rest / p, rest % p;
    assert value == base * rest + value % base && rest == p * q + r;
    Distribute(base, p * q, r);
    Associate(base, p, q);
    Distribute(base, r, 1);
    MultiplyMonotone(r + 1, p, base);
    DivisionIsUnique(value, base * p, q, value % base + base * r);
  }

  lemma NoMoreDigits(value: nat, base: nat, n: nat)
    requires base >= 2 && n > 0 && (value / base == 0 || n == 1)
    ensures base * LowDigits(value / base, base, n - 1) == 0
  {
    if n > 1 {
      DivisionIsUnique(0, Power(base, n - 1), 0, 0);
    }
  }

  lemma LowFirstSplits(digits: seq<char>, base: nat, d: nat, upper: bool, rest: seq<char>)
    requires d < 16 && digits == [DigitChar(d, upper)] + rest
    ensures LowFirst(digits, base) == d + base * LowFirst(rest, base)
  {
    assert digits[1..] == rest;
    DigitCharValue(d, upper);
  }

  /** The digit loop gives the digits of the value, cut to as many as the buffer has room for. */
  lemma {:induction false} DigitsMean(value: nat, base: nat, upper: bool, room: nat)
    requires 2 <= base <= 16 && room > 0
    ensures 1 <= |DigitsOf(value, base, upper, room)| <= room
    ensures LowFirst(DigitsOf(value, base, upper, room), base) == LowDigits(value, base, room)
    decreases room
  {
    hide LowDigits, DigitChar, LowFirst;
    var digits := DigitsOf(value, base, upper, room);
    LowestDigit(value, base, room);
    if value / base != 0 && room > 1 {
      DigitsMean(value / base, base, upper, room - 1);
      LowFirstSplits(digits, base, value % base, upper, DigitsOf(value / base, base, upper, room - 1));
    } else {
      LowFirstSplits(digits, base, value % base, upper, []);
      NoneIsZero(base);
      NoMoreDigits(value, base, room);
    }
  }

  lemma NoneIsZero(base: nat)
    ensures base * LowFirst([], base) == 0
  {
  }

  lemma {:induction false} LeadingZerosMeanNothing(digits: seq<char>, n: int, base: nat)
    ensures LowFirst(digits + Repeat('0', n), base) == LowFirst(digits, base)
  {
    if digits == [] {
      if n > 0 {
        assert Repeat('0', n)[1..] == Repeat('0', n - 1);
        assert [] + Repeat('0', n) == Repeat('0', n) && [] + Repeat('0', n - 1) == Repeat('0', n - 1);
        LeadingZerosMeanNothing([], n - 1, base);
      }
    } else {
      assert (digits + Repeat('0', n))[1..] == digits[1..] + Repeat('0', n);
      LeadingZerosMeanNothing(digits[1..], n, base);
    }
  }

  // How many digits there are.

  /** The number of digits of a value. */
  function DigitCount(value: nat, base: nat): (n: nat)
    requires base >= 2
    ensures n >= 1
  {
    if value < base then 1 else
      SmallerQuotient(value, base);
      1 + DigitCount(value / base, base)
  }

  lemma SmallerQuotient(value: nat, base: nat)
    requires base >= 2
    ensures 0 <= value / base && (value > 0 ==> value / base < value)
    ensures value < base <==> value / base == 0
  {
    var q := value / base;
    assert value == base * q + value % base;
    if q >= 1 {
      MultiplyMonotone(2, base, q);
      MultiplyMonotone(1, q, base);
    }
  }

  lemma {:induction false} DigitsShown(value: nat, base: nat, upper: bool, room: nat)
    requires 2 <= base <= 16 && room > 0
    ensures |DigitsOf(value, base, upper, room)| == Min(DigitCount(value, base), room)
    decreases room
  {
    SmallerQuotient(value, base);
    if value / base != 0 && room > 1 {
      DigitsShown(value / base, base, upper, room - 1);
    }
  }

  /** The first digits of a longer digit loop are those of a shorter one. */
  lemma {:induction false} DigitsTaken(value: nat, base: nat, upper: bool, room: nat, m: nat)
    requires 2 <= base <= 16 && 0 < m <= room && m <= |DigitsOf(value, base, upper, room)|
    ensures DigitsOf(value, base, upper, room)[..m] == DigitsOf(value, base, upper, m)
    decreases room
  {
    hide DigitChar;
    SmallerQuotient(value, base);
    if m > 1 {
      DigitsTaken(value / base, base, upper, room - 1, m - 1);
    }
  }

  lemma {:induction false} CountBelowPower(value: nat, base: nat, n: nat)
    requires base >= 2 && n > 0
    ensures value < Power(base, n) <==> DigitCount(value, base) <= n
    decreases n
  {
    SmallerQuotient(value, base);
    if n == 1 {
      assert Power(base, 1) == base * Power(base, 0) == base;
    } else {
      QuotientBelow(value, base, Power(base, n - 1));
      CountBelowPower(value / base, base, n - 1);
    }
  }

  lemma QuotientBelow(value: nat, base: nat, p: nat)
    requires base >= 2 && p > 0
    ensures value < base * p <==> value / base < p
    ensures value < base ==> value < base * p
  {
    var q := value / base;
    assert value == base * q + value % base;
    if q < p {
      MultiplyMonotone(q + 1, p, base);
      Distribute(base, q, 1);
    } else {
      MultiplyMonotone(p, q, base);
    }
    MultiplyMonotone(1, p, base);
  }

  /** The low m digits are the whole value exactly if it has no more. */
  lemma LowDigitsWhole(value: nat, base: nat, m: nat)
    requires base >= 2 && value > 0
    ensures LowDigits(value, base, m) == value <==> DigitCount(value, base) <= m
  {
    if m > 0 {
      CountBelowPower(value, base, m);
      if value < Power(base, m) {
        DivisionIsUnique(value, Power(base, m), 0, value);
      }
    }
  }

  lemma {:induction false} PowersOfFour(base: nat, n: nat)
    requires base >= 4
    ensures Power(base, n) >= Pow2(2 * n)
  {
    if n > 0 {
      PowersOfFour(base, n - 1);
      MultiplyMonotone(4, base, Power(base, n - 1));
      assert Pow2(2 * n) == 4 * Pow2(2 * (n - 1));
    }
  }

  /**
   * No digit is lost exactly if the value has at most 32 digits: always for 64 bit values in the bases
   * 8, 10 and 16, but in base 2 only for 32 bit values.
   */
  lemma DigitsComplete(value: nat, base: nat)
    requires base >= 2
    ensures LowDigits(value, base, 32) == value <==> value < Power(base, 32)
    ensures base >= 4 && value < Pow2(64) ==> LowDigits(value, base, 32) == value
  {
    var p := Power(base, 32);
    if value < p {
      DivisionIsUnique(value, p, 0, value);
    }
    if base >= 4 {
      PowersOfFour(base, 32);
    }
  }

  // What is shown, as conditions on the arguments.

  function Max(a: int, b: int): int { if a < b then b else a }

  /** The length of the buffer once leading zeros have been added to n digits. */
  function PaddedLength(n: nat, negative: bool, prec: nat, width: nat, flags: Flags): nat {
    if flags.left then n
    else
      var precise := Max(n, Min(prec, 32));
      if flags.zeropad then Max(precise, Min(ZeroWidth(negative, width, flags), 32)) else precise
  }

  /** How many digits the digit loop writes. */
  function DigitsWritten(value: nat, base: nat, flags: Flags): nat
    requires base >= 2
  {
    if flags.precision && value == 0 then 0 else Min(DigitCount(value, base), 32)
  }

  /** How many digits and leading zeros are shown. */
  function BodyLength(value: nat, negative: bool, base: nat, prec: nat, width: nat, flags: Flags): nat
    requires base >= 2
  {
    var length := PaddedLength(DigitsWritten(value, base, flags), negative, prec, width, flags);
    length - if flags.hash then PlacesTaken(length, base, prec, ZeroWidth(negative, width, flags), flags) else 0
  }

  /** What is shown of the prefix of a base before so many digits. */
  function PrefixText(length: nat, base: nat, flags: Flags): seq<char> {
    if !flags.hash then ""
    else if base == 16 then Fitting(if flags.uppercase then "0X" else "0x", length)
    else if base == 2 then Fitting("0b", length)
    else Fitting("0", length)
  }

  /** The end of a text that fits in front of so many characters of the buffer. */
  function Fitting(text: seq<char>, length: nat): seq<char> {
    if length >= 32 then "" else if |text| <= 32 - length then text else text[|text| - (32 - length)..]
  }

  function SignText(negative: bool, flags: Flags): seq<char> {
    if negative then "-" else if flags.plus then "+" else if flags.space then " " else ""
  }

  /** Whether the buffer has room for a sign. */
  predicate SignFits(value: nat, negative: bool, base: nat, prec: nat, width: nat, flags: Flags)
    requires base >= 2
  {
    var length := BodyLength(value, negative, base, prec, width, flags);
    length + |PrefixText(length, base, flags)| < 32
  }

  // The text and its parts.

  /** The buffer without what the prefix takes away. */
  function Kept(digits: seq<char>, negative: bool, base: nat, prec: nat, width: nat, flags: Flags): seq<char> {
    var padded := LeadingZeros(digits, negative, prec, width, flags);
    if flags.hash then padded[..|padded| - PlacesTaken(|padded|, base, prec, ZeroWidth(negative, width, flags), flags)]
    else padded
  }

  /** The digits of a number with its leading zeros, as they are read. */
  function Body(value: nat, negative: bool, base: nat, prec: nat, width: nat, flags: Flags): seq<char>
    requires 2 <= base <= 16
  {
    Reversed(Kept(DigitsFor(value, base, flags), negative, base, prec, width, flags))
  }

  /** A number between the spaces that fill a field of some width. */
  function Laid(number: seq<char>, width: nat, flags: Flags): seq<char> {
    var spaces := Repeat(' ', width - |number|);
    (if !flags.left && !flags.zeropad then spaces else []) + number + (if flags.left then spaces else [])
  }

  lemma PaddedLengthIs(digits: seq<char>, negative: bool, prec: nat, width: nat, flags: Flags)
    ensures |LeadingZeros(digits, negative, prec, width, flags)| == PaddedLength(|digits|, negative, prec, width, flags)
  {
  }

  /** Leading zeros are added behind the digits, which come lowest first. */
  lemma PaddedIs(digits: seq<char>, negative: bool, prec: nat, width: nat, flags: Flags)
    ensures var padded := LeadingZeros(digits, negative, prec, width, flags);
            |padded| >= |digits| && padded == digits + Repeat('0', |padded| - |digits|)
  {
    var padded := LeadingZeros(digits, negative, prec, width, flags);
    assert forall i :: |digits| <= i < |padded| ==> padded[i] == '0';
  }

  lemma DigitsForLength(value: nat, base: nat, flags: Flags)
    requires 2 <= base <= 16
    ensures |DigitsFor(value, base, flags)| == DigitsWritten(value, base, flags) <= 32
  {
    DigitsShown(value, base, flags.uppercase, 32);
  }

  lemma BodyLengthIs(value: nat, negative: bool, base: nat, prec: nat, width: nat, flags: Flags)
    requires 2 <= base <= 16
    ensures |Body(value, negative, base, prec, width, flags)|
            == BodyLength(value, negative, base, prec, width, flags) <= 32
  {
    DigitsForLength(value, base, flags);
    PaddedLengthIs(DigitsFor(value, base, flags), negative, prec, width, flags);
    hide DigitsFor, LeadingZeros, DigitsWritten;
  }

  /** Any number of the lowest digits, with or without leading zeros, stands for those digits of the value. */
  lemma KeptMeans(value: nat, base: nat, flags: Flags, m: nat)
    requires 2 <= base <= 16 && m <= 32
    ensures var digits := DigitsFor(value, base, flags);
            && |digits| <= 32
            && (m <= |digits| ==> LowFirst(digits[..m], base) == LowDigits(value, base, m))
            && (m >= |digits| ==> LowFirst(digits, base) == LowDigits(value, base, m))
  {
    DigitsForLength(value, base, flags);
    var digits := DigitsFor(value, base, flags);
    if digits == [] {
      DivisionIsUnique(0, Power(base, m), 0, 0);
    } else {
      hide LowFirst;
      if 0 < m <= |digits| {
        DigitsTaken(value, base, flags.uppercase, 32, m);
        DigitsMean(value, base, flags.uppercase, m);
      } else if m == 0 {
        assert digits[..0] == [];
        NothingMeansNothing(value, base);
      }
      if m >= |digits| {
        assert digits[..|digits|] == digits;
        DigitsTaken(value, base, flags.uppercase, 32, |digits|);
        DigitsMean(value, base, flags.uppercase, |digits|);
        SameLowDigits(value, base, |digits|, m);
      }
    }
  }

  lemma NothingMeansNothing(value: nat, base: nat)
    requires base >= 1
    ensures LowFirst([], base) == LowDigits(value, base, 0)
  {
  }

  lemma SameLowDigits(value: nat, base: nat, n: nat, m: nat)
    requires base >= 2 && 0 < n <= m && (n == m || DigitCount(value, base) <= n)
    ensures LowDigits(value, base, n) == LowDigits(value, base, m)
  {
    if value == 0 {
      DivisionIsUnique(0, Power(base, n), 0, 0);
      DivisionIsUnique(0, Power(base, m), 0, 0);
    } else {
      LowDigitsWhole(value, base, n);
      LowDigitsWhole(value, base, m);
    }
  }

  lemma BodyReads(value: nat, negative: bool, base: nat, prec: nat, width: nat, flags: Flags)
    requires 2 <= base <= 16
    ensures ReadText(Body(value, negative, base, prec, width, flags), base)
            == LowDigits(value, base, BodyLength(value, negative, base, prec, width, flags))
  {
    var digits := DigitsFor(value, base, flags);
    var kept := Kept(digits, negative, base, prec, width, flags);
    BodyLengthIs(value, negative, base, prec, width, flags);
    KeptMeans(value, base, flags, |kept|);
    KeptIs(digits, negative, base, prec, width, flags);
    ReadReversed(kept, base);
    hide DigitsFor, LowFirst, LowDigits, ReadText, BodyLength, Kept;
    if |kept| > |digits| {
      LeadingZerosMeanNothing(digits, |kept| - |digits|, base);
    } else if |kept| == |digits| {
      assert kept == digits;
    }
  }

  lemma KeptIs(digits: seq<char>, negative: bool, base: nat, prec: nat, width: nat, flags: Flags)
    ensures var kept := Kept(digits, negative, base, prec, width, flags);
            if |kept| <= |digits| then kept == digits[..|kept|] else kept == digits + Repeat('0', |kept| - |digits|)
  {
    PaddedIs(digits, negative, prec, width, flags);
    var padded := LeadingZeros(digits, negative, prec, width, flags);
    var kept := Kept(digits, negative, base, prec, width, flags);
    assert kept == padded[..|kept|];
    hide LeadingZeros, Kept;
  }

  // Reversing the buffer.

  lemma AppendReversed(buf: seq<char>, c: char)
    ensures Reversed(Append(buf, c)) == (if |buf| < 32 then [c] else []) + Reversed(buf)
  {
  }

  lemma PrefixReversed(kept: seq<char>, padded: seq<char>, base: nat, prec: nat, width: nat, flags: Flags)
    requires flags.hash && |kept| <= 32
    requires kept == padded[..|padded| - PlacesTaken(|padded|, base, prec, width, flags)]
    ensures var prefixed := BasePrefix(padded, base, prec, width, flags);
            Reversed(prefixed) == PrefixText(|kept|, base, flags) + Reversed(kept) && |prefixed| <= 32
  {
    var letter := if base == 16 then (if flags.uppercase then 'X' else 'x') else 'b';
    AppendReversed(kept, letter);
    AppendReversed(kept, '0');
    AppendReversed(Append(kept, letter), '0');
    hide Reversed;
    if base == 16 || base == 2 {
      assert PrefixText(|kept|, base, flags)
             == (if |kept| < 31 then ['0'] else []) + (if |kept| < 32 then [letter] else []);
    }
  }

  lemma SignReversed(buf: seq<char>, negative: bool, flags: Flags)
    ensures Reversed(Sign(buf, negative, flags))
            == (if |buf| < 32 then SignText(negative, flags) else "") + Reversed(buf)
  {
  }

  /** Sign, prefix and digits of a number, as far as they are shown. */
  function Number(value: nat, negative: bool, base: nat, prec: nat, width: nat, flags: Flags): seq<char>
    requires 2 <= base <= 16
  {
    (if SignFits(value, negative, base, prec, width, flags) then SignText(negative, flags) else "")
    + PrefixText(BodyLength(value, negative, base, prec, width, flags), base, flags)
    + Body(value, negative, base, prec, width, flags)
  }

  lemma BufferReversed(value: nat, negative: bool, base: nat, prec: nat, width: nat, flags: Flags)
    requires 2 <= base <= 16
    ensures Reversed(NumberBuffer(DigitsFor(value, base, flags), negative, base, prec, width, flags))
            == Number(value, negative, base, prec, width, flags)
  {
    var digits := DigitsFor(value, base, flags);
    BodyLengthIs(value, negative, base, prec, width, flags);
    var prefixed := Prefixed(digits, negative, base, prec, width, flags);
    PrefixedReversed(digits, negative, base, prec, width, flags);
    SignReversed(prefixed, negative, flags);
    hide Prefixed, Kept, LeadingZeros, DigitsFor, PrefixText, SignText, Sign, BodyLength, Reversed;
  }

  /** The buffer before its sign. */
  function Prefixed(digits: seq<char>, negative: bool, base: nat, prec: nat, width: nat, flags: Flags): seq<char> {
    var padded := LeadingZeros(digits, negative, prec, width, flags);
    if flags.hash then BasePrefix(padded, base, prec, ZeroWidth(negative, width, flags), flags) else padded
  }

  lemma PrefixedReversed(digits: seq<char>, negative: bool, base: nat, prec: nat, width: nat, flags: Flags)
    requires |Kept(digits, negative, base, prec, width, flags)| <= 32
    ensures var kept := Kept(digits, negative, base, prec, width, flags);
            Reversed(Prefixed(digits, negative, base, prec, width, flags))
            == PrefixText(|kept|, base, flags) + Reversed(kept)
  {
    var kept := Kept(digits, negative, base, prec, width, flags);
    var padded := LeadingZeros(digits, negative, prec, width, flags);
    if flags.hash {
      PrefixReversed(kept, padded, base, prec, ZeroWidth(negative, width, flags), flags);
    } else {
      assert PrefixText(|kept|, base, flags) + Reversed(kept) == Reversed(kept);
    }
  }

  /**
   * A number comes out as spaces, its sign, its prefix, its digits and spaces. The arguments tell how many
   * digits there are, how much of the prefix is shown and whether the sign is, and the digits read back
   * as so many of the lowest digits of the value.
   */
  lemma NumberReadsBack(value: nat, negative: bool, base: nat, prec: nat, width: nat, flags: Flags)
    requires 2 <= base <= 16
    ensures var f := FlagsFor(value, flags);
            var body := Body(value, negative, base, prec, width, f);
            var length := BodyLength(value, negative, base, prec, width, f);
            && |body| == length && ReadText(body, base) == LowDigits(value, base, length)
            && NumberText(value, negative, base, prec, width, flags)
               == Laid(Number(value, negative, base, prec, width, f), ZeroWidth(negative, width, f), f)
  {
    var f := FlagsFor(value, flags);
    BodyLengthIs(value, negative, base, prec, width, f);
    BodyReads(value, negative, base, prec, width, f);
    BufferReversed(value, negative, base, prec, width, f);
    var buf := NumberBuffer(DigitsFor(value, base, f), negative, base, prec, width, f);
    FieldIsLaid(buf, ZeroWidth(negative, width, f), f);
    hide NumberBuffer, DigitsFor, Number, ReadText, LowDigits, BodyLength, Field, Laid, Body;
  }

  lemma FieldIsLaid(buf: seq<char>, width: nat, flags: Flags)
    ensures Field(buf, width, flags) == Laid(Reversed(buf), width, flags)
  {
    hide Repeat, Reversed;
  }

  // When digits, prefix and sign are missing.

  /**
   * Without a prefix, the text reads back as the value exactly if it has no more than 32 digits.
   */
  lemma PlainDigitsIff(value: nat, negative: bool, base: nat, prec: nat, width: nat, flags: Flags)
    requires 2 <= base <= 16 && !flags.hash
    ensures ReadText(Body(value, negative, base, prec, width, flags), base) == value <==> DigitCount(value, base) <= 32
  {
    BodyReads(value, negative, base, prec, width, flags);
    if value == 0 {
      DivisionIsUnique(0, Power(base, BodyLength(value, negative, base, prec, width, flags)), 0, 0);
    } else {
      LowDigitsWhole(value, base, BodyLength(value, negative, base, prec, width, flags));
    }
  }

  /**
   * With a prefix, the text reads back as another value exactly if the value has more than 32 digits, or
   * no precision is given and the digits alone fill the width, or in base 16 the leading zeros fill it with
   * a single zero: the prefix takes two places away, and the second one is a digit.
   */
  lemma PrefixTakesDigitsIff(value: nat, negative: bool, base: nat, prec: nat, width: nat, flags: Flags)
    requires 2 <= base <= 16 && flags.hash && value > 0 && (prec == 0 || flags.precision)
    ensures var n, w := DigitCount(value, base), ZeroWidth(negative, width, flags);
            ReadText(Body(value, negative, base, prec, width, flags), base) != value
            <==> n > 32 || (!flags.precision
                            && (n == w || (flags.zeropad && !flags.left && base == 16 && n + 1 == w <= 32)))
  {
    BodyReads(value, negative, base, prec, width, flags);
    LowDigitsWhole(value, base, BodyLength(value, negative, base, prec, width, flags));
    hide ReadText, LowDigits, DigitCount, Body;
  }

  /** How many characters the prefix of a base has. */
  function PrefixSize(base: nat): nat { if base == 16 || base == 2 then 2 else 1 }

  /** A prefix that fits is the one of its base. */
  lemma WholePrefix(length: nat, base: nat, flags: Flags)
    requires flags.hash && length + PrefixSize(base) <= 32
    ensures PrefixText(length, base, flags)
            == if base == 16 then (if flags.uppercase then "0X" else "0x") else if base == 2 then "0b" else "0"
  {
  }

  /** The prefix is whole exactly if it fits the buffer in front of the digits and leading zeros. */
  lemma PrefixWholeIff(length: nat, base: nat, flags: Flags)
    requires flags.hash
    ensures |PrefixText(length, base, flags)| == PrefixSize(base) <==> length + PrefixSize(base) <= 32
  {
  }

  /**
   * When the prefix is whole. Nothing is taken away for it if there is a precision: then digits, zeros and
   * prefix have to fit the buffer. Without one, a number that fills its width gives it room, unless the width
   * is more than the buffer, which in base 2 is full one place earlier as only one place is taken away.
   */
  lemma PrefixShownIff(value: nat, negative: bool, base: nat, prec: nat, width: nat, flags: Flags)
    requires 2 <= base <= 16 && flags.hash && value > 0 && (prec == 0 || flags.precision)
    ensures var n, w, p := Min(DigitCount(value, base), 32), ZeroWidth(negative, width, flags), PrefixSize(base);
            |PrefixText(BodyLength(value, negative, base, prec, width, flags), base, flags)| == p
            <==> if flags.precision then
                   n + p <= 32 && (flags.left || (prec + p <= 32 && (!flags.zeropad || w + p <= 32)))
                 else if n == w || (flags.zeropad && !flags.left && n <= w) then
                   w <= if base == 2 then 31 else 32
                 else
                   n + p <= 32
  {
    PrefixWholeIff(BodyLength(value, negative, base, prec, width, flags), base, flags);
    hide PrefixText, DigitCount;
  }

  /** A number of 32 digits or more without a width is printed as if no prefix had been asked for. */
  lemma NoRoomForPrefix(value: nat, negative: bool, base: nat, flags: Flags)
    requires 2 <= base <= 16 && DigitCount(value, base) >= 32
    ensures NumberText(value, negative, base, 0, 0, flags)
            == NumberText(value, negative, base, 0, 0, flags.(hash := false))
  {
    var f := FlagsFor(value, flags);
    DigitsForLength(value, base, f);
    var digits := DigitsFor(value, base, f);
    assert value > 0 by {
      assert DigitCount(0, base) == 1;
    }
    assert LeadingZeros(digits, negative, 0, 0, f) == digits by {
      assert digits + [] == digits;
    }
    hide DigitsFor, DigitCount, Field, LeadingZeros;
    assert NumberBuffer(digits, negative, base, 0, 0, f) == digits;
  }

  /** Neither digits, zeros nor prefix look like a sign. */
  lemma OnlySignIsMinus(value: nat, negative: bool, base: nat, prec: nat, width: nat, flags: Flags)
    requires 2 <= base <= 16
    ensures '-' in Number(value, negative, base, prec, width, flags)
            <==> negative && SignFits(value, negative, base, prec, width, flags)
  {
    NoMinusInBody(value, negative, base, prec, width, flags);
    NoMinusInPrefix(BodyLength(value, negative, base, prec, width, flags), base, flags);
    hide Body, BodyLength, SignFits, PrefixText;
  }

  lemma NoMinusInPrefix(length: nat, base: nat, flags: Flags)
    ensures '-' !in PrefixText(length, base, flags)
  {
  }

  lemma NoMinusInBody(value: nat, negative: bool, base: nat, prec: nat, width: nat, flags: Flags)
    requires 2 <= base <= 16
    ensures '-' !in Body(value, negative, base, prec, width, flags)
  {
    NoMinusInDigits(value, base, flags.uppercase, 32);
    var digits := DigitsFor(value, base, flags);
    KeptIs(digits, negative, base, prec, width, flags);
    hide Kept, DigitsOf;
    var kept := Kept(digits, negative, base, prec, width, flags);
    assert forall i :: 0 <= i < |kept| ==> kept[i] != '-';
  }

  lemma {:induction false} NoMinusInDigits(value: nat, base: nat, upper: bool, room: nat)
    requires 2 <= base <= 16 && room > 0
    ensures '-' !in DigitsOf(value, base, upper, room)
    decreases room
  {
    if value / base != 0 && room > 1 {
      NoMinusInDigits(value / base, base, upper, room - 1);
    }
  }

  lemma MinusInText(number: seq<char>, width: nat, flags: Flags)
    ensures '-' in Laid(number, width, flags) <==> '-' in number
  {
    var spaces := Repeat(' ', width - |number|);
    assert '-' !in spaces;
    assert forall c :: c in Laid(number, width, flags) ==> c in number || c in spaces;
  }

  /** A negative number is shown with its sign exactly if the buffer has room for it. */
  lemma NegativeShowsSign(value: nat, base: nat, prec: nat, width: nat, flags: Flags)
    requires 2 <= base <= 16
    ensures '-' in NumberText(value, true, base, prec, width, flags)
            <==> SignFits(value, true, base, prec, width, FlagsFor(value, flags))
  {
    var f := FlagsFor(value, flags);
    NumberReadsBack(value, true, base, prec, width, flags);
    OnlySignIsMinus(value, true, base, prec, width, f);
    MinusInText(Number(value, true, base, prec, width, f), ZeroWidth(true, width, f), f);
  }

  /**
   * A negative number of fewer than 32 digits, without a prefix, is shown with its sign exactly if neither
   * the precision nor the zeros before it are more than the buffer holds.
   */
  lemma NegativeShowsSignIff(value: nat, base: nat, prec: nat, width: nat, flags: Flags)
    requires 2 <= base <= 16 && !flags.hash && DigitCount(value, base) < 32
    ensures '-' in NumberText(value, true, base, prec, width, flags)
            <==> flags.left || (prec < 32 && (!flags.zeropad || width < 33))
  {
    NegativeShowsSign(value, base, prec, width, flags);
    hide NumberText, DigitCount;
  }

  /** A 64 bit value has fewer than 32 digits in the bases 8, 10 and 16. */
  lemma WordsAreShort(value: nat, base: nat)
    requires base >= 8 && value < 0x1_0000_0000_0000_0000
    ensures DigitCount(value, base) < 32
  {
    EightDigits(base, 22);
    CountBelowPower(value, base, 22);
    Pow2Of32();
    Pow2Grows(64, 66);
    WordPower();
  }

  lemma WordPower()
    ensures Pow2(64) == 0x1_0000_0000_0000_0000
  {
    Pow2Of32();
    Pow2Adds(32, 32);
  }

  lemma {:induction false} EightDigits(base: nat, n: nat)
    requires base >= 8
    ensures Power(base, n) >= Pow2(3 * n)
  {
    if n > 0 {
      EightDigits(base, n - 1);
      MultiplyMonotone(8, base, Power(base, n - 1));
      var m := 3 * (n - 1);
      assert Pow2(m + 3) == 2 * Pow2(m + 2) && Pow2(m + 2) == 2 * Pow2(m + 1);
      assert 3 * n == m + 3;
    }
  }

  /** A field is at least as wide as asked for exactly if zeros do not have to fill more than the buffer. */
  lemma FieldIsWideIff(value: nat, negative: bool, base: nat, prec: nat, width: nat, flags: Flags)
    requires 2 <= base <= 16
    ensures |NumberText(value, negative, base, prec, width, flags)| >= width
            <==> flags.left || !flags.zeropad || width <= 32
  {
    var f := FlagsFor(value, flags);
    assert f.left == flags.left && f.zeropad == flags.zeropad;
    NumberReadsBack(value, negative, base, prec, width, flags);
    NumberIsShort(value, negative, base, prec, width, f);
    if !f.left && f.zeropad && width <= 32 {
      NumberIsWide(value, negative, base, prec, width, f);
    }
    assert ZeroWidth(negative, width, f) == width || (!f.left && f.zeropad);
    hide NumberText, Number, Laid, Body, BodyLength, ReadText, LowDigits, FlagsFor, ZeroWidth;
    LaidLength(Number(value, negative, base, prec, width, f), ZeroWidth(negative, width, f), f);
  }

  lemma LaidLength(number: seq<char>, width: nat, flags: Flags)
    ensures |Laid(number, width, flags)| == if !flags.left && flags.zeropad then |number| else Max(|number|, width)
  {
  }

  /** A number comes out of the buffer. */
  lemma NumberIsShort(value: nat, negative: bool, base: nat, prec: nat, width: nat, flags: Flags)
    requires 2 <= base <= 16
    ensures |Number(value, negative, base, prec, width, flags)| <= 32
  {
    BodyLengthIs(value, negative, base, prec, width, flags);
    hide Body, BodyLength;
  }

  lemma NumberIsWide(value: nat, negative: bool, base: nat, prec: nat, width: nat, flags: Flags)
    requires 2 <= base <= 16 && !flags.left && flags.zeropad && width <= 32
    ensures |Number(value, negative, base, prec, width, flags)| >= width
  {
    BodyLengthIs(value, negative, base, prec, width, flags);
    hide Body, DigitsWritten;
  }

  /** Padding a negative number with zeros to 40 places fills the buffer and loses the sign. */
  lemma SignCanBeLost()
    ensures '-' !in NumberText(5, true, 10, 0, 40, NO_FLAGS.(zeropad := true))
  {
    NegativeShowsSignIff(5, 10, 0, 40, NO_FLAGS.(zeropad := true));
  }
}

/**
 * What the conversions of printf show, in terms of the letters of the format and the values of the
 * arguments: how a specification is read, and what can be read back from the text of a conversion.
 */
module PrintfConversions {
  import opened MachineWord
  import opened Options
  import opened PrintfNumbers
  import opened PrintfReading
  import opened Printf

  // The digits in a text.

  predicate IsHexDigit(c: char) { '0' <= c <= '9' || 'a' <= c <= 'f' || 'A' <= c <= 'F' }

  /** The digits of a text, without the spaces and the sign around them. */
  function DigitsIn(text: seq<char>): seq<char> {
    if text == [] then []
    else (if IsHexDigit(text[0]) then [text[0]] else []) + DigitsIn(text[1..])
  }

  lemma {:induction false} DigitsInSum(a: seq<char>, b: seq<char>)
    ensures DigitsIn(a + b) == DigitsIn(a) + DigitsIn(b)
  {
    if a == [] {
      assert a + b == b;
      assert [] + DigitsIn(b) == DigitsIn(b);
    } else {
      var h := if IsHexDigit(a[0]) then [a[0]] else [];
      assert (a + b)[0] == a[0] && (a + b)[1..] == a[1..] + b;
      assert DigitsIn(a) == h + DigitsIn(a[1..]) && DigitsIn(a + b) == h + DigitsIn(a[1..] + b);
      DigitsInSum(a[1..], b);
      hide DigitsIn, IsHexDigit;
      SumsAssociate(h, DigitsIn(a[1..]), DigitsIn(b));
    }
  }

  lemma SumsAssociate(a: seq<char>, b: seq<char>, c: seq<char>)
    ensures (a + b) + c == a + (b + c)
  {
  }

  lemma {:induction false} AllDigits(text: seq<char>)
    requires forall i :: 0 <= i < |text| ==> IsHexDigit(text[i])
    ensures DigitsIn(text) == text
  {
    if text != [] {
      AllDigits(text[1..]);
    }
  }

  lemma {:induction false} NoDigits(text: seq<char>)
    requires forall i :: 0 <= i < |text| ==> !IsHexDigit(text[i])
    ensures DigitsIn(text) == []
  {
    if text != [] {
      NoDigits(text[1..]);
    }
  }

  /** A digit of the case asked for. */
  predicate IsDigitOfCase(c: char, upper: bool) {
    '0' <= c <= '9' || (if upper then 'A' <= c <= 'F' else 'a' <= c <= 'f')
  }

  lemma {:induction false} DigitsOfCase(value: nat, base: nat, upper: bool, room: nat)
    requires 2 <= base <= 16 && room > 0
    ensures forall i :: 0 <= i < |DigitsOf(value, base, upper, room)| ==>
              IsDigitOfCase(DigitsOf(value, base, upper, room)[i], upper)
    decreases room
  {
    if value / base != 0 && room > 1 {
      DigitsOfCase(value / base, base, upper, room - 1);
    }
  }

  lemma BodyOfCase(value: nat, negative: bool, base: nat, prec: nat, width: nat, flags: Flags)
    requires 2 <= base <= 16
    ensures forall i :: 0 <= i < |Body(value, negative, base, prec, width, flags)| ==>
              IsDigitOfCase(Body(value, negative, base, prec, width, flags)[i], flags.uppercase)
  {
    DigitsOfCase(value, base, flags.uppercase, 32);
    var digits := DigitsFor(value, base, flags);
    KeptIs(digits, negative, base, prec, width, flags);
    hide Kept, DigitsOf;
    var kept := Kept(digits, negative, base, prec, width, flags);
    assert forall i :: 0 <= i < |kept| ==> IsDigitOfCase(kept[i], flags.uppercase);
  }

  // Numbers.

  /** The sign that is shown. */
  function ShownSign(value: nat, negative: bool, base: nat, prec: nat, width: nat, flags: Flags): seq<char>
    requires base >= 2
  {
    if SignFits(value, negative, base, prec, width, flags) then SignText(negative, flags) else ""
  }

  /** Without a prefix, a number is its sign and its body. */
  function Core(value: nat, negative: bool, base: nat, prec: nat, width: nat, flags: Flags): seq<char>
    requires 2 <= base <= 16
  {
    ShownSign(value, negative, base, prec, width, flags) + Body(value, negative, base, prec, width, flags)
  }

  /** How many spaces fill the width of a field that zeros do not fill. */
  function SpacesFor(length: nat, width: nat, flags: Flags): nat {
    if (flags.zeropad && !flags.left) || length >= width then 0 else width - length
  }

  /** A text with spaces behind it if it is set to the left, and in front of it otherwise. */
  function WithSpaces(core: seq<char>, n: nat, left: bool): seq<char> {
    if left then core + Repeat(' ', n) else Repeat(' ', n) + core
  }

  lemma NumberIsCore(value: nat, negative: bool, base: nat, prec: nat, width: nat, flags: Flags)
    requires 2 <= base <= 16 && !flags.hash
    ensures Number(value, negative, base, prec, width, flags) == Core(value, negative, base, prec, width, flags)
  {
    assert PrefixText(BodyLength(value, negative, base, prec, width, flags), base, flags) == "";
    hide PrefixText, BodyLength, Body, SignFits, SignText;
    var sign := ShownSign(value, negative, base, prec, width, flags);
    assert sign + "" == sign;
  }

  lemma LaidIs(core: seq<char>, width: nat, flags: Flags)
    ensures Laid(core, width, flags) == WithSpaces(core, SpacesFor(|core|, width, flags), flags.left)
  {
    var spaces := Repeat(' ', width - |core|);
    assert spaces == Repeat(' ', if |core| >= width then 0 else width - |core|);
    assert Repeat(' ', 0) == [] && [] + core == core && core + [] == core;
    hide Repeat;
    assert ([] + core) + spaces == core + spaces && (spaces + core) + [] == spaces + core;
  }

  /** Without a prefix, the text of a number is its sign and its body, and the spaces that fill the width. */
  lemma PlainNumberText(value: nat, negative: bool, base: nat, prec: nat, width: nat, flags: Flags)
    requires 2 <= base <= 16 && !flags.hash
    ensures var core := Core(value, negative, base, prec, width, flags);
            NumberText(value, negative, base, prec, width, flags)
            == WithSpaces(core, SpacesFor(|core|, width, flags), flags.left)
  {
    assert FlagsFor(value, flags) == flags;
    NumberReadsBack(value, negative, base, prec, width, flags);
    NumberIsCore(value, negative, base, prec, width, flags);
    var core := Core(value, negative, base, prec, width, flags);
    LaidIs(core, ZeroWidth(negative, width, flags), flags);
    assert SpacesFor(|core|, ZeroWidth(negative, width, flags), flags) == SpacesFor(|core|, width, flags);
    hide *;
  }

  lemma SpacesAreSpaces(n: nat)
    ensures forall i :: 0 <= i < |Repeat(' ', n)| ==> !IsHexDigit(Repeat(' ', n)[i]) && Repeat(' ', n)[i] == ' '
    ensures |Repeat(' ', n)| == n
  {
  }

  lemma DigitsInParts(sign: seq<char>, body: seq<char>, n: nat, left: bool)
    requires forall i :: 0 <= i < |sign| ==> !IsHexDigit(sign[i])
    requires forall i :: 0 <= i < |body| ==> IsHexDigit(body[i])
    ensures DigitsIn(WithSpaces(sign + body, n, left)) == body
  {
    var spaces := Repeat(' ', n);
    SpacesAreSpaces(n);
    hide Repeat;
    AllDigits(body);
    NoDigits(sign);
    NoDigits(spaces);
    DigitsInSum(sign, body);
    DigitsInSum(sign + body, spaces);
    DigitsInSum(spaces, sign + body);
    hide DigitsIn, IsHexDigit;
    assert [] + body == body && body + [] == body;
  }

  lemma SignIsNoDigit(value: nat, negative: bool, base: nat, prec: nat, width: nat, flags: Flags)
    requires base >= 2
    ensures var sign := ShownSign(value, negative, base, prec, width, flags);
            |sign| <= 1 && forall i :: 0 <= i < |sign| ==> !IsHexDigit(sign[i])
  {
    hide SignFits;
  }

  lemma DigitsInText(value: nat, negative: bool, base: nat, prec: nat, width: nat, flags: Flags)
    requires 2 <= base <= 16 && !flags.hash
    ensures DigitsIn(NumberText(value, negative, base, prec, width, flags))
            == Body(value, negative, base, prec, width, flags)
  {
    BodyOfCase(value, negative, base, prec, width, flags);
    SignIsNoDigit(value, negative, base, prec, width, flags);
    PlainNumberText(value, negative, base, prec, width, flags);
    hide NumberText, Body, ShownSign, WithSpaces, DigitsIn, SpacesFor;
    DigitsInParts(ShownSign(value, negative, base, prec, width, flags), Body(value, negative, base, prec, width, flags),
                  SpacesFor(|Core(value, negative, base, prec, width, flags)|, width, flags), flags.left);
  }

  /** The digits of a number without a prefix read back as its value exactly if it has at most 32. */
  lemma TextReadsBackIff(value: nat, negative: bool, base: nat, prec: nat, width: nat, flags: Flags)
    requires 2 <= base <= 16 && !flags.hash
    ensures ReadText(DigitsIn(NumberText(value, negative, base, prec, width, flags)), base) == value
            <==> DigitCount(value, base) <= 32
  {
    PlainDigitsIff(value, negative, base, prec, width, flags);
    DigitsInText(value, negative, base, prec, width, flags);
    hide NumberText, Body, ReadText, DigitCount, DigitsIn;
  }

  /**
   * How many digits a number without a prefix shows: its own, none for a zero with a precision, or if it is not
   * set to the left so many that precision and zeros are satisfied, but never more than 32.
   */
  lemma DigitsShownIs(value: nat, negative: bool, base: nat, prec: nat, width: nat, flags: Flags)
    requires 2 <= base <= 16 && !flags.hash
    ensures var own := if flags.precision && value == 0 then 0 else if DigitCount(value, base) > 32 then 32
                       else DigitCount(value, base);
            var wanted := if prec > 32 then 32 else prec;
            var room := if width > 0 && (negative || flags.plus || flags.space) then width - 1 else width;
            var filled := if !flags.zeropad then 0 else if room > 32 then 32 else room;
            |DigitsIn(NumberText(value, negative, base, prec, width, flags))|
            == if flags.left then own
               else if wanted > own && wanted >= filled then wanted else if filled > own then filled else own
  {
    DigitsInText(value, negative, base, prec, width, flags);
    BodyLengthIs(value, negative, base, prec, width, flags);
    hide NumberText, Body, DigitsIn, DigitCount;
  }

  /** The buffer has room for a sign that is asked for, unless the precision or zeros fill it. */
  lemma SignFitsIff(value: nat, negative: bool, base: nat, prec: nat, width: nat, flags: Flags)
    requires 2 <= base <= 16 && !flags.hash && DigitCount(value, base) < 32 && ShowsSign(negative, flags)
    ensures SignFits(value, negative, base, prec, width, flags)
            <==> flags.left || (prec < 32 && (!flags.zeropad || width < 33))
  {
    hide DigitCount;
  }

  lemma SignsInParts(sign: seq<char>, body: seq<char>, n: nat, left: bool, c: char)
    requires c == '-' || c == '+'
    requires forall i :: 0 <= i < |body| ==> IsHexDigit(body[i])
    ensures c in WithSpaces(sign + body, n, left) <==> c in sign
  {
    SpacesAreSpaces(n);
    var spaces := Repeat(' ', n);
    assert c !in spaces && c !in body;
  }

  /** Only a sign looks like a sign. */
  lemma SignsInText(value: nat, negative: bool, base: nat, prec: nat, width: nat, flags: Flags)
    requires 2 <= base <= 16 && !flags.hash
    ensures var text, fits := NumberText(value, negative, base, prec, width, flags),
                              SignFits(value, negative, base, prec, width, flags);
            && ('-' in text <==> negative && fits)
            && ('+' in text <==> !negative && flags.plus && fits)
  {
    BodyOfCase(value, negative, base, prec, width, flags);
    PlainNumberText(value, negative, base, prec, width, flags);
    var body := Body(value, negative, base, prec, width, flags);
    var sign := ShownSign(value, negative, base, prec, width, flags);
    var n := SpacesFor(|sign + body|, width, flags);
    hide NumberText, Body, SignFits, WithSpaces, SpacesFor;
    SignsInParts(sign, body, n, flags.left, '-');
    SignsInParts(sign, body, n, flags.left, '+');
  }

  // Integers.

  predicate IsSignedLetter(c: char) { c == 'd' || c == 'i' }

  predicate IsUnsignedLetter(c: char) { c == 'u' || c == 'x' || c == 'X' || c == 'o' || c == 'b' }

  lemma LettersOfIntegers(c: char)
    ensures IsIntegerLetter(c) <==> IsSignedLetter(c) || IsUnsignedLetter(c)
  {
    var letters := "diuxXob";
    assert letters == ['d', 'i', 'u', 'x', 'X', 'o', 'b'];
  }

  /** How many bits of its argument a conversion takes, by its length. */
  predicate TakesBits(flags: Flags, size: nat) {
    if flags.longLong then size == 64
    else if flags.long then size == 32
    else if flags.chr then size == 8
    else size == if flags.short then 16 else 32
  }

  function TwoTo(size: nat): nat {
    if size == 8 then 0x100 else if size == 16 then 0x1_0000 else if size == 32 then 0x1_0000_0000
    else 0x1_0000_0000_0000_0000
  }

  /** The argument of an integer conversion: a long long, or a word for everything shorter. */
  predicate IsArgument(s: Spec, v: int) {
    s.args != [] && s.args[0] == if s.flags.longLong then LongLong(v) else Word(v)
  }

  lemma FewDigits(value: nat, base: nat)
    requires value < 0x1_0000_0000_0000_0000 && (base >= 8 || (base == 2 && value < 0x1_0000_0000))
    ensures DigitCount(value, base) <= 32
    ensures base >= 8 ==> DigitCount(value, base) < 32
  {
    if base >= 8 {
      WordsAreShort(value, base);
    } else {
      PowerOfTwo(32);
      Pow2Of32();
      CountBelowPower(value, 2, 32);
    }
  }

  lemma {:induction false} PowerOfTwo(n: nat)
    ensures Power(2, n) == Pow2(n)
  {
    if n > 0 {
      PowerOfTwo(n - 1);
    }
  }

  /**
   * u, x, X, o and b show no minus, and digits that read back in base 10, 16, 16, 8 and 2 as the bits taken
   * from the argument; only b does not if there are more than 32 of them.
   */
  lemma UnsignedReadsBackIff(c: char, s: Spec, v: int, size: nat, base: nat)
    requires IsUnsignedLetter(c) && IsArgument(s, v) && TakesBits(s.flags, size) && !s.flags.hash
    requires base == if c == 'u' then 10 else if c == 'x' || c == 'X' then 16 else if c == 'o' then 8 else 2
    ensures Conversion(c, s).Some? && Conversion(c, s).value.1 == 1
    ensures var text := Conversion(c, s).value.0;
            && '-' !in text && '+' !in text
            && (ReadText(DigitsIn(text), base) == v % TwoTo(size) <==> c != 'b' || v % TwoTo(size) < 0x1_0000_0000)
  {
    UnsignedValue(c, s, v, size);
    var value: nat, f := v % TwoTo(size), IntegerFlags(c, s.flags);
    UnsignedText(c, s, value, base);
    hide TwoTo, TakesBits, IntegerValue, IntegerFlags, BaseOf, Conversion, NumberText, ReadText, DigitsIn, DigitCount,
         SignFits, Power;
    TextReadsBackIff(value, false, base, s.precision, s.width, f);
    SignsInText(value, false, base, s.precision, s.width, f);
    if base >= 8 || value < 0x1_0000_0000 {
      FewDigits(value, base);
    } else {
      PowerOfTwo(32);
      Pow2Of32();
      CountBelowPower(value, 2, 32);
    }
  }

  lemma UnsignedText(c: char, s: Spec, value: nat, base: nat)
    requires IsUnsignedLetter(c) && s.args != [] && IntegerValue(c, s.flags, s.args[0]) == Some(value)
    requires BaseOf(c) == base
    ensures Conversion(c, s)
            == Some((NumberText(value, false, base, s.precision, s.width, IntegerFlags(c, s.flags)), 1))
  {
    LettersOfIntegers(c);
    hide NumberText, IntegerFlags, IntegerValue, BaseOf, IsIntegerLetter;
  }

  lemma UnsignedValue(c: char, s: Spec, v: int, size: nat)
    requires IsUnsignedLetter(c) && IsArgument(s, v) && TakesBits(s.flags, size)
    ensures IntegerValue(c, s.flags, s.args[0]) == Some(v % TwoTo(size))
    ensures 0 <= v % TwoTo(size) < 0x1_0000_0000_0000_0000
    ensures var f := IntegerFlags(c, s.flags); !f.plus && !f.space && (!s.flags.hash ==> !f.hash)
    ensures BaseOf(c) == if c == 'u' then 10 else if c == 'x' || c == 'X' then 16 else if c == 'o' then 8 else 2
  {
  }

  /** w is the signed value of so many bits of an argument; a char is not signed on the target. */
  predicate IsSignedValue(v: int, size: nat, w: int) {
    if size == 8 then w == v % 0x100
    else -(TwoTo(size) / 2) <= w < TwoTo(size) / 2 && (v - w) % TwoTo(size) == 0
  }

  lemma WrapIsSigned(modulus: nat, v: int, w: int)
    requires modulus > 0 && modulus % 2 == 0 && -(modulus / 2) <= w < modulus / 2 && (v - w) % modulus == 0
    ensures Wrap(modulus, v) == w
  {
    var k := (v - w) / modulus;
    assert v == w + modulus * k;
    WrapCongruent(modulus, v, w, k);
    WrapFits(modulus, w);
  }

  /**
   * d and i show digits that read back as the magnitude of the signed value, a minus exactly if it is negative
   * and a plus exactly if it is not and asked for, unless the precision or zeros leave no room for a sign.
   */
  lemma SignedReadsBack(c: char, s: Spec, v: int, size: nat, w: int)
    requires IsSignedLetter(c) && IsArgument(s, v) && TakesBits(s.flags, size) && IsSignedValue(v, size, w)
    ensures Conversion(c, s).Some? && Conversion(c, s).value.1 == 1
    ensures var text := Conversion(c, s).value.0;
            var room := s.flags.left
                        || (s.precision < 32 && (!s.flags.zeropad || s.flags.precision || s.width < 33));
            && ReadText(DigitsIn(text), 10) == (if w < 0 then 0 - w else w)
            && ('-' in text <==> w < 0 && room)
            && ('+' in text <==> w >= 0 && s.flags.plus && room)
  {
    SignedValue(c, s, v, size, w);
    SignedText(c, s, w);
    var magnitude: nat, f := if w > 0 then w else 0 - w, IntegerFlags(c, s.flags);
    hide TwoTo, TakesBits, IntegerValue, IntegerFlags, Conversion, NumberText, ReadText, DigitsIn, DigitCount, SignFits,
         IsSignedValue;
    FewDigits(magnitude, 10);
    TextReadsBackIff(magnitude, w < 0, 10, s.precision, s.width, f);
    SignsInText(magnitude, w < 0, 10, s.precision, s.width, f);
    if w < 0 || f.plus || f.space {
      SignFitsIff(magnitude, w < 0, 10, s.precision, s.width, f);
    }
  }

  /** Where there is room for it, the sign comes right before the digits: a minus, a plus, or a space. */
  lemma SignComesFirst(c: char, s: Spec, v: int, size: nat, w: int) returns (core: seq<char>, n: nat)
    requires IsSignedLetter(c) && IsArgument(s, v) && TakesBits(s.flags, size) && IsSignedValue(v, size, w)
    requires s.flags.left || (s.precision < 32 && (!s.flags.zeropad || s.flags.precision || s.width < 33))
    ensures Conversion(c, s).Some? && Conversion(c, s).value.0 == WithSpaces(core, n, s.flags.left)
    ensures var shown := w < 0 || s.flags.plus || s.flags.space;
            && (shown ==> core != [] && core[0] == if w < 0 then '-' else if s.flags.plus then '+' else ' ')
            && forall i :: (if shown then 1 else 0) <= i < |core| ==> '0' <= core[i] <= '9'
  {
    SignedValue(c, s, v, size, w);
    SignedText(c, s, w);
    var magnitude: nat, f := if w > 0 then w else 0 - w, IntegerFlags(c, s.flags);
    FlagsOfLetter(c, s.flags);
    assert IsSigned(c);
    hide TwoTo, TakesBits, IntegerValue, IntegerFlags, Conversion, NumberText, DigitCount, SignFits, IsSignedValue,
         WithSpaces, BaseOf, Core, IsArgument, SpacesFor;
    FewDigits(magnitude, 10);
    PlainNumberText(magnitude, w < 0, 10, s.precision, s.width, f);
    core := Core(magnitude, w < 0, 10, s.precision, s.width, f);
    n := SpacesFor(|core|, s.width, f);
    if w < 0 || f.plus || f.space {
      SignFitsIff(magnitude, w < 0, 10, s.precision, s.width, f);
    }
    CoreShape(magnitude, w < 0, s.precision, s.width, f);
  }

  lemma CoreShape(value: nat, negative: bool, prec: nat, width: nat, flags: Flags)
    requires ShowsSign(negative, flags) ==> SignFits(value, negative, 10, prec, width, flags)
    ensures var core, shown := Core(value, negative, 10, prec, width, flags), ShowsSign(negative, flags);
            && (shown ==> core != [] && core[0] == if negative then '-' else if flags.plus then '+' else ' ')
            && forall i :: (if shown then 1 else 0) <= i < |core| ==> '0' <= core[i] <= '9'
  {
    DecimalBody(value, negative, prec, width, flags);
    hide Body, SignFits;
  }

  lemma DecimalBody(value: nat, negative: bool, prec: nat, width: nat, flags: Flags)
    ensures forall i :: 0 <= i < |Body(value, negative, 10, prec, width, flags)| ==>
              '0' <= Body(value, negative, 10, prec, width, flags)[i] <= '9'
  {
    DecimalDigits(value, flags.uppercase, 32);
    var digits := DigitsFor(value, 10, flags);
    KeptIs(digits, negative, 10, prec, width, flags);
    hide Kept, DigitsOf;
    var kept := Kept(digits, negative, 10, prec, width, flags);
    assert forall i :: 0 <= i < |kept| ==> '0' <= kept[i] <= '9';
  }

  lemma {:induction false} DecimalDigits(value: nat, upper: bool, room: nat)
    requires room > 0
    ensures forall i :: 0 <= i < |DigitsOf(value, 10, upper, room)| ==>
              '0' <= DigitsOf(value, 10, upper, room)[i] <= '9'
    decreases room
  {
    if value / 10 != 0 && room > 1 {
      DecimalDigits(value / 10, upper, room - 1);
    }
  }

  lemma SignedValue(c: char, s: Spec, v: int, size: nat, w: int)
    requires IsSignedLetter(c) && IsArgument(s, v) && TakesBits(s.flags, size) && IsSignedValue(v, size, w)
    ensures IntegerValue(c, s.flags, s.args[0]) == Some(w)
    ensures -0x1_0000_0000_0000_0000 < w < 0x1_0000_0000_0000_0000
    ensures var f := IntegerFlags(c, s.flags);
            && !f.hash && f.plus == s.flags.plus && f.left == s.flags.left
            && (f.zeropad <==> s.flags.zeropad && !s.flags.precision)
  {
    if size != 8 {
      WrapIsSigned(TwoTo(size), v, w);
    }
    hide Wrap;
  }

  lemma SignedText(c: char, s: Spec, w: int)
    requires IsSignedLetter(c) && s.args != [] && IntegerValue(c, s.flags, s.args[0]) == Some(w)
    ensures Conversion(c, s)
            == Some((NumberText(if w > 0 then w else 0 - w, w < 0, 10, s.precision, s.width,
                                IntegerFlags(c, s.flags)), 1))
  {
    LettersOfIntegers(c);
    hide NumberText, IntegerFlags, IntegerValue, IsIntegerLetter;
  }

  lemma BaseOfLetter(c: char)
    ensures 2 <= BaseOf(c) <= 16 && (c == 'X' ==> BaseOf(c) == 16)
    ensures IsSignedLetter(c) || c == 'u' ==> BaseOf(c) == 10
  {
  }

  /** Which flags count for a letter. */
  lemma FlagsOfLetter(c: char, flags: Flags)
    ensures var f := IntegerFlags(c, flags);
            f.hash == (flags.hash && BaseOf(c) != 10) && f.uppercase == (flags.uppercase || c == 'X')
            && f.left == flags.left && f.zeropad == (flags.zeropad && !flags.precision)
            && f.plus == (flags.plus && IsSigned(c)) && f.space == (flags.space && IsSigned(c))
            && f.precision == flags.precision
  {
    hide BaseOf, IsSigned;
  }

  lemma LetterFlags(c: char, flags: Flags)
    requires IsSignedLetter(c) || IsUnsignedLetter(c)
    ensures var f := IntegerFlags(c, flags);
            && 2 <= BaseOf(c) <= 16 && f.left == flags.left
            && (f.uppercase <==> flags.uppercase || c == 'X') && (c == 'X' ==> BaseOf(c) == 16)
            && (f.zeropad <==> flags.zeropad && !flags.precision)
            && (f.space ==> flags.space && IsSignedLetter(c))
            && ((IsUnsignedLetter(c) && c != 'u' ==> !flags.hash) ==> !f.hash)
  {
    FlagsOfLetter(c, flags);
    BaseOfLetter(c);
    hide IntegerFlags, BaseOf;
  }

  lemma IntegerTextOf(c: char, s: Spec, v: int, size: nat) returns (value: int)
    requires (IsSignedLetter(c) || IsUnsignedLetter(c)) && IsArgument(s, v) && TakesBits(s.flags, size)
    ensures 2 <= BaseOf(c) <= 16
    ensures Conversion(c, s) == Some((NumberText(if value > 0 then value else 0 - value, value < 0, BaseOf(c),
                                                 s.precision, s.width, IntegerFlags(c, s.flags)), 1))
  {
    HasInteger(c, s.flags, s.args[0]);
    LettersOfIntegers(c);
    BaseOfLetter(c);
    value := IntegerValue(c, s.flags, s.args[0]).value;
    hide IntegerValue, IntegerFlags, TakesBits, IsIntegerLetter, BaseOf, Conversion, IntegerText, NumberText;
    IntegerConversion(c, s, value);
    IntegerTextIs(c, s, value);
  }

  lemma IntegerTextIs(c: char, s: Spec, value: int)
    requires 2 <= BaseOf(c) <= 16
    ensures IntegerText(c, s, value)
            == NumberText(if value > 0 then value else 0 - value, value < 0, BaseOf(c), s.precision, s.width,
                          IntegerFlags(c, s.flags))
  {
    hide NumberText, IntegerFlags, BaseOf;
  }

  lemma IntegerConversion(c: char, s: Spec, value: int)
    requires IsIntegerLetter(c) && c != NUL && s.args != [] && IntegerValue(c, s.flags, s.args[0]) == Some(value)
    ensures Conversion(c, s) == Some((IntegerText(c, s, value), 1))
  {
    hide IntegerText, IntegerValue, IsIntegerLetter;
  }

  lemma HasInteger(c: char, flags: Flags, arg: Arg)
    requires arg.LongLong? || arg.Word?
    ensures flags.longLong == arg.LongLong? ==> IntegerValue(c, flags, arg).Some?
  {
    hide Wrap;
  }

  lemma CoreSpaces(value: nat, negative: bool, base: nat, prec: nat, width: nat, flags: Flags)
    requires 2 <= base <= 16
    ensures var core := Core(value, negative, base, prec, width, flags);
            && (forall i :: 0 < i < |core| ==> core[i] != ' ')
            && (core != [] && core[0] == ' ' ==> flags.space)
  {
    BodyOfCase(value, negative, base, prec, width, flags);
    SignIsNoDigit(value, negative, base, prec, width, flags);
    hide Body, SignFits;
  }

  /**
   * The text of d, i and u, and without a prefix of x, X, o and b, is its core and spaces: in front of it, or
   * behind it if it is set to the left, as many as the width asks for, and none if zeros fill the width.
   * In the core no space comes behind the first place.
   */
  lemma IntegerField(c: char, s: Spec, v: int, size: nat) returns (core: seq<char>, spaces: seq<char>)
    requires (IsSignedLetter(c) || IsUnsignedLetter(c)) && IsArgument(s, v) && TakesBits(s.flags, size)
    requires IsUnsignedLetter(c) && c != 'u' ==> !s.flags.hash
    ensures Conversion(c, s).Some?
    ensures Conversion(c, s).value.0 == if s.flags.left then core + spaces else spaces + core
    ensures forall i :: 0 <= i < |spaces| ==> spaces[i] == ' '
    ensures |spaces| == if s.flags.zeropad && !s.flags.precision && !s.flags.left then 0
                        else if |core| < s.width then s.width - |core| else 0
    ensures forall i :: 0 < i < |core| ==> core[i] != ' '
    ensures core != [] && core[0] == ' ' ==> s.flags.space && IsSignedLetter(c)
  {
    LetterFlags(c, s.flags);
    var value := IntegerTextOf(c, s, v, size);
    var magnitude: nat, f := if value > 0 then value else 0 - value, IntegerFlags(c, s.flags);
    var base := BaseOf(c);
    hide Conversion, NumberText, IntegerFlags, BaseOf, Core, TakesBits;
    PlainNumberText(magnitude, value < 0, base, s.precision, s.width, f);
    CoreSpaces(magnitude, value < 0, base, s.precision, s.width, f);
    core := Core(magnitude, value < 0, base, s.precision, s.width, f);
    var n := SpacesFor(|core|, s.width, f);
    SpacesAreSpaces(n);
    spaces := Repeat(' ', n);
  }

  /** X shows capital letters only, and the other letters, as well as the prefix of x, small ones only. */
  lemma CaseOfDigits(c: char, s: Spec, v: int, size: nat)
    requires (IsSignedLetter(c) || IsUnsignedLetter(c)) && IsArgument(s, v) && TakesBits(s.flags, size)
    requires !s.flags.uppercase
    ensures Conversion(c, s).Some?
    ensures forall i :: 0 <= i < |Conversion(c, s).value.0| ==>
              var d := Conversion(c, s).value.0[i];
              if c == 'X' then !('a' <= d <= 'z') else !('A' <= d <= 'Z')
  {
    LetterFlags(c, s.flags);
    var value := IntegerTextOf(c, s, v, size);
    var magnitude: nat, f := if value > 0 then value else 0 - value, IntegerFlags(c, s.flags);
    hide Conversion, NumberText, IntegerFlags, TakesBits;
    TextOfCase(magnitude, value < 0, BaseOf(c), s.precision, s.width, f);
  }

  /** A character of a number of one case. */
  predicate IsOfCase(d: char, upper: bool, base: nat) {
    if upper then 'a' <= d <= 'z' ==> base == 2 && d == 'b' else !('A' <= d <= 'Z')
  }

  lemma TextOfCase(value: nat, negative: bool, base: nat, prec: nat, width: nat, flags: Flags)
    requires 2 <= base <= 16
    ensures forall i :: 0 <= i < |NumberText(value, negative, base, prec, width, flags)| ==>
              IsOfCase(NumberText(value, negative, base, prec, width, flags)[i], flags.uppercase, base)
  {
    var f := FlagsFor(value, flags);
    assert f.uppercase == flags.uppercase;
    NumberReadsBack(value, negative, base, prec, width, flags);
    NumberOfCase(value, negative, base, prec, width, f);
    var number := Number(value, negative, base, prec, width, f);
    hide NumberText, Number, FlagsFor, IsOfCase;
    LaidOfCase(number, ZeroWidth(negative, width, f), f, base);
  }

  lemma LaidOfCase(number: seq<char>, width: nat, flags: Flags, base: nat)
    requires forall i :: 0 <= i < |number| ==> IsOfCase(number[i], flags.uppercase, base)
    ensures forall i :: 0 <= i < |Laid(number, width, flags)| ==>
              IsOfCase(Laid(number, width, flags)[i], flags.uppercase, base)
  {
    LaidIs(number, width, flags);
    var n := SpacesFor(|number|, width, flags);
    SpacesAreSpaces(n);
    hide Laid, SpacesFor, Repeat;
  }

  lemma NumberOfCase(value: nat, negative: bool, base: nat, prec: nat, width: nat, flags: Flags)
    requires 2 <= base <= 16
    ensures forall i :: 0 <= i < |Number(value, negative, base, prec, width, flags)| ==>
              IsOfCase(Number(value, negative, base, prec, width, flags)[i], flags.uppercase, base)
  {
    BodyOfCase(value, negative, base, prec, width, flags);
    SignOfCase(value, negative, base, prec, width, flags);
    var length := BodyLength(value, negative, base, prec, width, flags);
    PrefixOfCase(length, base, flags);
    var sign, prefix, body := ShownSign(value, negative, base, prec, width, flags), PrefixText(length, base, flags),
                              Body(value, negative, base, prec, width, flags);
    assert Number(value, negative, base, prec, width, flags) == sign + prefix + body;
    hide Number, Body, PrefixText, ShownSign, BodyLength;
  }

  lemma SignOfCase(value: nat, negative: bool, base: nat, prec: nat, width: nat, flags: Flags)
    requires base >= 2
    ensures var sign := ShownSign(value, negative, base, prec, width, flags);
            forall i :: 0 <= i < |sign| ==> IsOfCase(sign[i], flags.uppercase, base)
  {
    hide SignFits;
  }

  lemma PrefixOfCase(length: nat, base: nat, flags: Flags)
    ensures forall i :: 0 <= i < |PrefixText(length, base, flags)| ==>
              IsOfCase(PrefixText(length, base, flags)[i], flags.uppercase, base)
  {
  }

  // Characters, strings and the rest.

  /** %c: the character, and the width filled with spaces in front of it, or behind it if it is set to the left. */
  lemma CharField(s: Spec, v: int)
    requires s.args != [] && s.args[0] == Word(v)
    ensures Conversion('c', s).Some? && Conversion('c', s).value.1 == 1
    ensures var text := Conversion('c', s).value.0;
            var at := if s.flags.left then 0 else |text| - 1;
            && |text| == (if s.width > 1 then s.width else 1) && text[at] == (v % 0x100) as char
            && forall i :: 0 <= i < |text| && i != at ==> text[i] == ' '
  {
  }

  /** %s: the string as far as its precision goes, the width filled in the same way. */
  lemma StringField(s: Spec, str: seq<char>)
    requires s.args != [] && s.args[0] == Str(str) && NUL !in str && |str| < 0x1_0000_0000
    ensures Conversion('s', s).Some? && Conversion('s', s).value.1 == 1
    ensures var text := Conversion('s', s).value.0;
            var n := if s.flags.precision && s.precision < |str| then s.precision else |str|;
            var from := if s.flags.left then 0 else |text| - n;
            && |text| == (if s.width > n then s.width else n) && text[from..from + n] == str[..n]
            && forall i :: 0 <= i < |text| && !(from <= i < from + n) ==> text[i] == ' '
  {
    StringConversion(s, str);
    hide Conversion, StringPart;
    SpacedIs(StringPart(str, s), s.width, s.flags.left);
  }

  lemma StringConversion(s: Spec, str: seq<char>)
    requires s.args != [] && s.args[0] == Str(str) && NUL !in str && |str| < 0x1_0000_0000
    ensures Conversion('s', s) == Some((Spaced(StringPart(str, s), s.width, s.flags.left), 1))
    ensures StringPart(str, s) == str[..if s.flags.precision && s.precision < |str| then s.precision else |str|]
  {
    LettersOfIntegers('s');
    hide Spaced, IsIntegerLetter;
  }

  lemma SpacedIs(text: seq<char>, width: nat, left: bool)
    ensures var t, n := Spaced(text, width, left), |text|;
            var from := if left then 0 else |t| - n;
            && |t| == (if width > n then width else n) && t[from..from + n] == text
            && forall i :: 0 <= i < |t| && !(from <= i < from + n) ==> t[i] == ' '
  {
  }

  /** %p: the capital hexadecimal digits of a word, filled with zeros to eight places. */
  lemma PointerText(s: Spec, v: int)
    requires s.args != [] && s.args[0] == Word(v) && !s.flags.hash
    ensures Conversion('p', s).Some? && Conversion('p', s).value.1 == 1
    ensures var text := Conversion('p', s).value.0;
            && ReadText(DigitsIn(text), 16) == v % 0x1_0000_0000 && '-' !in text
            && |text| >= 8
            && forall i :: 0 <= i < |text| ==> !('a' <= text[i] <= 'z')
  {
    var value: nat, f := v % 0x1_0000_0000, s.flags.(zeropad := true, uppercase := true);
    PointerConversion(s, v);
    hide Conversion, NumberText, ReadText, DigitsIn, DigitCount, SignFits;
    FewDigits(value, 16);
    TextReadsBackIff(value, false, 16, s.precision, 8, f);
    SignsInText(value, false, 16, s.precision, 8, f);
    FieldIsWideIff(value, false, 16, s.precision, 8, f);
    TextOfCase(value, false, 16, s.precision, 8, f);
  }

  lemma PointerConversion(s: Spec, v: int)
    requires s.args != [] && s.args[0] == Word(v)
    ensures Conversion('p', s)
            == Some((NumberText(v % 0x1_0000_0000, false, 16, s.precision, 8,
                                s.flags.(zeropad := true, uppercase := true)), 1))
  {
    LettersOfIntegers('p');
    hide NumberText, IsIntegerLetter;
  }

  /** Any letter that is no conversion stands for itself, and takes no argument; so does a percent sign. */
  lemma OtherLetters(c: char, s: Spec)
    requires c != NUL && c !in "diuxXobfFeEgGcsp"
    ensures Conversion(c, s) == Some(([c], 0))
  {
  }

  // Specifications.

  predicate IsFlag(c: char) { c in "0-+ #" }

  /** The flags with those of a text added. */
  predicate AreFlagsOf(r: Flags, flags: Flags, text: seq<char>) {
    r == flags.(zeropad := flags.zeropad || '0' in text, left := flags.left || '-' in text,
                plus := flags.plus || '+' in text, space := flags.space || ' ' in text,
                hash := flags.hash || '#' in text)
  }

  lemma WithFlagIs(flags: Flags, c: char)
    requires WithFlag(flags, c).Some?
    ensures WithFlag(flags, c).value
            == flags.(zeropad := flags.zeropad || c == '0', left := flags.left || c == '-',
                      plus := flags.plus || c == '+', space := flags.space || c == ' ',
                      hash := flags.hash || c == '#')
  {
  }

  lemma OneMoreFlag(r: Flags, flags: Flags, c: char, text: seq<char>)
    requires WithFlag(flags, c).Some? && AreFlagsOf(r, WithFlag(flags, c).value, text)
    ensures AreFlagsOf(r, flags, [c] + text)
  {
    WithFlagIs(flags, c);
    InLonger('0', c, text);
    InLonger('-', c, text);
    InLonger('+', c, text);
    InLonger(' ', c, text);
    InLonger('#', c, text);
    hide WithFlag;
  }

  lemma InLonger(d: char, c: char, text: seq<char>)
    ensures d in [c] + text <==> d == c || d in text
  {
  }

  lemma FlagOrNot(flags: Flags, c: char)
    ensures WithFlag(flags, c).Some? <==> IsFlag(c)
  {
  }

  /** The flags of a specification are the characters up to the first that is no flag. */
  lemma {:induction false} FlagsRead(f: seq<char>, i: nat, flags: Flags)
    requires i <= |f|
    ensures var (r, j) := FlagsAt(f, i, flags);
            && i <= j <= |f| && (forall k :: i <= k < j ==> IsFlag(f[k])) && (j < |f| ==> !IsFlag(f[j]))
            && AreFlagsOf(r, flags, f[i..j])
    decreases |f| - i
  {
    FlagOrNot(flags, At(f, i));
    hide WithFlag, AreFlagsOf;
    if i < |f| && IsFlag(f[i]) {
      var more := WithFlag(flags, f[i]).value;
      FlagsRead(f, i + 1, more);
      var (r, j) := FlagsAt(f, i + 1, more);
      OneMoreFlag(r, flags, f[i], f[i + 1..j]);
      assert f[i..j] == [f[i]] + f[i + 1..j];
    } else {
      NoMoreFlags(flags);
      assert f[i..i] == [];
    }
  }

  lemma NoMoreFlags(flags: Flags)
    ensures AreFlagsOf(flags, flags, [])
  {
  }

  lemma ReadMore(text: seq<char>, c: char, base: nat)
    ensures ReadText(text + [c], base) == ReadText(text, base) * base + DigitValue(c)
  {
    assert (text + [c])[..|text|] == text;
  }

  lemma NextResidue(n: nat, d: nat, m: nat)
    requires m > 0
    ensures (n % m * 10 + d) % m == (n * 10 + d) % m
  {
    var q, r := n / m, n % m;
    assert n == m * q + r;
    var q', r' := (r * 10 + d) / m, (r * 10 + d) % m;
    assert r * 10 + d == m * q' + r';
    Distribute(m, 10 * q, q');
    assert n * 10 + d == m * (10 * q + q') + r';
    DivisionIsUnique(n * 10 + d, m, 10 * q + q', r');
  }

  /** A number in a format is the decimal digits up to the first that is none, cut to 32 bits. */
  lemma {:induction false} NumberRead(f: seq<char>, i: nat, n: nat, text: seq<char>)
    requires i <= |f| && n == ReadText(text, 10) % 0x1_0000_0000
    ensures var (m, j) := NumberAt(f, i, n);
            && i <= j <= |f| && (forall k :: i <= k < j ==> '0' <= f[k] <= '9') && (j < |f| ==> !('0' <= f[j] <= '9'))
            && m == ReadText(text + f[i..j], 10) % 0x1_0000_0000
    decreases |f| - i
  {
    hide ReadText;
    if i < |f| && '0' <= f[i] <= '9' {
      var t := text + [f[i]];
      ReadMore(text, f[i], 10);
      NextResidue(ReadText(text, 10), DigitValue(f[i]), 0x1_0000_0000);
      NumberRead(f, i + 1, NextDigit(n, f[i]), t);
      var j := NumberAt(f, i + 1, NextDigit(n, f[i])).1;
      assert t + f[i + 1..j] == text + f[i..j];
    } else {
      assert text + f[i..i] == text;
    }
  }

  /** The number that the digits of a format at some place stand for, and where it ends. */
  lemma PlainNumberRead(f: seq<char>, i: nat)
    requires i <= |f|
    ensures var (m, j) := NumberAt(f, i, 0);
            && i <= j <= |f| && (forall k :: i <= k < j ==> '0' <= f[k] <= '9') && (j < |f| ==> !('0' <= f[j] <= '9'))
            && m == ReadText(f[i..j], 10) % 0x1_0000_0000
  {
    NumberRead(f, i, 0, []);
    var j := NumberAt(f, i, 0).1;
    assert [] + f[i..j] == f[i..j];
  }

  predicate StarAt(f: seq<char>, i: nat) { i < |f| && f[i] == '*' }

  /** The signed word that a star takes from the arguments. */
  predicate TakesWord(args: seq<Arg>, w: int) {
    && args != [] && args[0].Word? && -0x8000_0000 <= w < 0x8000_0000
    && (args[0].v - w) % 0x1_0000_0000 == 0
  }

  lemma StarWord(v: int)
    ensures -0x8000_0000 <= Wrap(0x1_0000_0000, v) < 0x8000_0000 && (v - Wrap(0x1_0000_0000, v)) % 0x1_0000_0000 == 0
  {
  }

  /** A width: digits, or a star for an argument, which if it is negative sets the field to the left; or none. */
  lemma WidthRead(f: seq<char>, s: Spec) returns (w: int)
    requires s.pos <= |f| && WidthAt(f, s).Some?
    ensures var r := WidthAt(f, s).value;
            if StarAt(f, s.pos) then
              && TakesWord(s.args, w)
              && r == s.(flags := s.flags.(left := s.flags.left || w < 0), width := if w < 0 then 0 - w else w,
                         pos := s.pos + 1, args := s.args[1..])
            else
              && s.pos <= r.pos <= |f| && (forall k :: s.pos <= k < r.pos ==> '0' <= f[k] <= '9')
              && (r.pos < |f| ==> !('0' <= f[r.pos] <= '9'))
              && r == s.(pos := r.pos,
                         width := if r.pos == s.pos then s.width else ReadText(f[s.pos..r.pos], 10) % 0x1_0000_0000)
  {
    w := if s.args != [] && s.args[0].Word? then Wrap(0x1_0000_0000, s.args[0].v) else 0;
    PlainNumberRead(f, s.pos);
    if s.args != [] && s.args[0].Word? {
      StarWord(s.args[0].v);
    }
    if s.pos < |f| && '0' <= f[s.pos] <= '9' {
      NumberStarts(f, s.pos);
    }
    hide Wrap, ReadText;
  }

  lemma NumberStarts(f: seq<char>, i: nat)
    requires i < |f| && '0' <= f[i] <= '9'
    ensures NumberAt(f, i, 0).1 > i
  {
    NumberInside(f, i + 1, NextDigit(0, f[i]));
  }

  /** A precision: a period with digits, or a star for an argument, of which a negative one counts as zero. */
  lemma PrecisionRead(f: seq<char>, s: Spec) returns (w: int)
    requires s.pos <= |f| && PrecisionAt(f, s).Some?
    ensures var r := PrecisionAt(f, s).value;
            if !(s.pos < |f| && f[s.pos] == '.') then r == s
            else
              var p := s.(flags := s.flags.(precision := true));
              if StarAt(f, s.pos + 1) then
                && TakesWord(s.args, w)
                && r == p.(precision := if w < 0 then 0 else w, pos := s.pos + 2, args := s.args[1..])
              else
                && s.pos < r.pos <= |f| && (forall k :: s.pos < k < r.pos ==> '0' <= f[k] <= '9')
                && (r.pos < |f| ==> !('0' <= f[r.pos] <= '9'))
                && r == p.(pos := r.pos, precision := if r.pos == s.pos + 1 then s.precision
                                                      else ReadText(f[s.pos + 1..r.pos], 10) % 0x1_0000_0000)
  {
    w := if s.args != [] && s.args[0].Word? then Wrap(0x1_0000_0000, s.args[0].v) else 0;
    if s.pos < |f| {
      PlainNumberRead(f, s.pos + 1);
    }
    if s.args != [] && s.args[0].Word? {
      StarWord(s.args[0].v);
    }
    if s.pos + 1 < |f| && '0' <= f[s.pos + 1] <= '9' {
      NumberStarts(f, s.pos + 1);
    }
    hide Wrap, ReadText;
  }

  /** The character at a place is c. */
  predicate IsAt(f: seq<char>, i: nat, c: char) { i < |f| && f[i] == c }

  /** The length at a place: two letters, one, or none. */
  predicate LengthIs(f: seq<char>, s: Spec, r: Spec) {
    var i := s.pos;
    if IsAt(f, i, 'h') then
      if IsAt(f, i + 1, 'h') then r == s.(pos := i + 2, flags := s.flags.(short := true, chr := true))
      else r == s.(pos := i + 1, flags := s.flags.(short := true))
    else if IsAt(f, i, 'l') then
      if IsAt(f, i + 1, 'l') then r == s.(pos := i + 2, flags := s.flags.(long := true, longLong := true))
      else r == s.(pos := i + 1, flags := s.flags.(long := true))
    else if IsAt(f, i, 't') || IsAt(f, i, 'z') then r == s.(pos := i + 1, flags := s.flags.(long := true))
    else if IsAt(f, i, 'j') then r == s.(pos := i + 1, flags := s.flags.(longLong := true))
    else r == s
  }

  /** hh, h, l and ll, and t and z, which are like l, and j, which is as long as ll. */
  lemma LengthRead(f: seq<char>, s: Spec)
    requires s.pos <= |f|
    ensures LengthIs(f, s, LengthAt(f, s))
  {
    if IsAt(f, s.pos, 'h') {
      ShortRead(f, s);
    } else if IsAt(f, s.pos, 'l') {
      LongRead(f, s);
    }
  }

  lemma ShortRead(f: seq<char>, s: Spec)
    requires IsAt(f, s.pos, 'h')
    ensures LengthIs(f, s, LengthAt(f, s))
  {
    var h := s.(flags := s.flags.(short := true), pos := s.pos + 1);
    assert LengthAt(f, s)
           == if At(f, s.pos + 1) == 'h' then h.(flags := h.flags.(chr := true), pos := s.pos + 2) else h;
    hide LengthAt;
  }

  lemma LongRead(f: seq<char>, s: Spec)
    requires IsAt(f, s.pos, 'l')
    ensures LengthIs(f, s, LengthAt(f, s))
  {
    var l := s.(flags := s.flags.(long := true), pos := s.pos + 1);
    assert LengthAt(f, s)
           == if At(f, s.pos + 1) == 'l' then l.(flags := l.flags.(longLong := true), pos := s.pos + 2) else l;
    hide LengthAt;
  }

  // Whole specifications.

  /** All characters of a stretch of a format are decimal digits, and the one behind it is none. */
  predicate AreDigits(f: seq<char>, from: nat, to: nat) {
    && from <= to <= |f| && (forall k :: from <= k < to ==> '0' <= f[k] <= '9')
    && (to < |f| ==> !('0' <= f[to] <= '9'))
  }

  /** What a width in a format says: digits, or a star. */
  ghost predicate WidthSays(f: seq<char>, a: nat, b: nat, args: seq<Arg>, left: bool, s: Spec) {
    if StarAt(f, a) then
      && b == a + 1 && args != [] && s.args == args[1..]
      && exists w :: TakesWord(args, w) && s.width == (if w < 0 then 0 - w else w)
                     && s.flags.left == (left || w < 0)
    else
      && AreDigits(f, a, b) && s.args == args && s.flags.left == left
      && s.width == ReadText(f[a..b], 10) % 0x1_0000_0000
  }

  /** What a precision in a format says: a period with digits or a star. */
  ghost predicate PrecisionSays(f: seq<char>, b: nat, c: nat, args: seq<Arg>, s: Spec) {
    if !IsAt(f, b, '.') then c == b && s.args == args && !s.flags.precision && s.precision == 0
    else if StarAt(f, b + 1) then
      && s.flags.precision && c == b + 2 && args != [] && s.args == args[1..]
      && exists w :: TakesWord(args, w) && s.precision == if w < 0 then 0 else w
    else
      && s.flags.precision && AreDigits(f, b + 1, c) && s.args == args
      && s.precision == ReadText(f[b + 1..c], 10) % 0x1_0000_0000
  }

  lemma WidthSaid(f: seq<char>, s: Spec)
    requires s.pos <= |f| && WidthAt(f, s).Some? && s.width == 0
    ensures WidthSays(f, s.pos, WidthAt(f, s).value.pos, s.args, s.flags.left, WidthAt(f, s).value)
    ensures var r := WidthAt(f, s).value;
            && s.pos <= r.pos <= |f| && r.precision == s.precision
            && SameShape(r.flags, s.flags.(left := r.flags.left))
  {
    var w := WidthRead(f, s);
    hide WidthAt, ReadText, TakesWord;
    assert f[s.pos..s.pos] == [];
    EmptyReads();
  }

  lemma PrecisionSaid(f: seq<char>, s: Spec)
    requires s.pos <= |f| && PrecisionAt(f, s).Some? && s.precision == 0 && !s.flags.precision
    ensures PrecisionSays(f, s.pos, PrecisionAt(f, s).value.pos, s.args, PrecisionAt(f, s).value)
    ensures var r := PrecisionAt(f, s).value;
            && s.pos <= r.pos <= |f| && r.width == s.width
            && SameShape(r.flags, s.flags.(precision := r.flags.precision))
  {
    var w := PrecisionRead(f, s);
    var r := PrecisionAt(f, s).value;
    assert IsAt(f, s.pos, '.') && StarAt(f, s.pos + 1) ==> s.args != [];
    PreciseShape(s.flags);
    hide PrecisionAt, ReadText, TakesWord, PrecisionSays, AreDigits, SameShape;
    if !IsAt(f, s.pos, '.') {
      PrecisionNone(f, s);
    } else if StarAt(f, s.pos + 1) {
      PrecisionStar(f, s, r, w);
    } else {
      PrecisionDigits(f, s, r);
    }
  }

  lemma PreciseShape(a: Flags)
    ensures SameShape(a, a.(precision := a.precision))
    ensures SameShape(a.(precision := true), a.(precision := true))
  {
  }

  lemma PrecisionNone(f: seq<char>, s: Spec)
    requires !IsAt(f, s.pos, '.') && s.precision == 0 && !s.flags.precision
    ensures PrecisionSays(f, s.pos, s.pos, s.args, s)
  {
  }

  lemma PrecisionStar(f: seq<char>, s: Spec, r: Spec, w: int)
    requires IsAt(f, s.pos, '.') && StarAt(f, s.pos + 1) && TakesWord(s.args, w) && s.args != []
    requires r.precision == (if w < 0 then 0 else w) && r.pos == s.pos + 2 && r.args == s.args[1..] && r.flags.precision
    ensures PrecisionSays(f, s.pos, r.pos, s.args, r)
  {
    hide TakesWord;
  }

  lemma PrecisionDigits(f: seq<char>, s: Spec, r: Spec)
    requires IsAt(f, s.pos, '.') && !StarAt(f, s.pos + 1) && r.args == s.args && r.flags.precision
    requires s.pos < r.pos <= |f| && forall k :: s.pos < k < r.pos ==> '0' <= f[k] <= '9'
    requires r.pos < |f| ==> !('0' <= f[r.pos] <= '9')
    requires r.precision == if r.pos == s.pos + 1 then 0 else ReadText(f[s.pos + 1..r.pos], 10) % 0x1_0000_0000
    ensures PrecisionSays(f, s.pos, r.pos, s.args, r)
  {
    hide ReadText;
    assert f[s.pos + 1..s.pos + 1] == [];
    EmptyReads();
  }

  /** Flags that agree on all but the length. */
  predicate SameShape(a: Flags, b: Flags) {
    && a.zeropad == b.zeropad && a.left == b.left && a.plus == b.plus && a.space == b.space && a.hash == b.hash
    && a.uppercase == b.uppercase && a.precision == b.precision
  }

  lemma LengthSaid(f: seq<char>, s: Spec)
    requires s.pos <= |f|
    ensures var r := LengthAt(f, s);
            && s.pos <= r.pos <= |f| && r.args == s.args && r.width == s.width && r.precision == s.precision
            && SameShape(r.flags, s.flags)
  {
    LengthRead(f, s);
    var r := LengthAt(f, s);
    hide LengthAt, SameShape;
    ShapeKept(s.flags);
    assert r.args == s.args && r.width == s.width && r.precision == s.precision;
  }

  lemma ShapeKept(a: Flags)
    ensures SameShape(a, a) && SameShape(a.(short := true), a) && SameShape(a.(short := true, chr := true), a)
    ensures SameShape(a.(long := true), a) && SameShape(a.(long := true, longLong := true), a)
    ensures SameShape(a.(longLong := true), a)
  {
  }

  /**
   * Flags up to a, a width up to b, and a precision up to c, each of which may be empty, and then a length:
   * what they say is what the conversion uses.
   */
  lemma SpecRead(f: seq<char>, i: nat, args: seq<Arg>) returns (a: nat, b: nat, c: nat, wide: Spec)
    requires i <= |f| && SpecAt(f, i, args).Some?
    ensures i <= a <= b <= c <= SpecAt(f, i, args).value.pos <= |f|
    ensures (forall k :: i <= k < a ==> IsFlag(f[k])) && (a < |f| ==> !IsFlag(f[a]))
    ensures WidthSays(f, a, b, args, '-' in f[i..a], wide)
    ensures PrecisionSays(f, b, c, wide.args, SpecAt(f, i, args).value)
    ensures var s, flags := SpecAt(f, i, args).value, f[i..a];
            && s.width == wide.width && s.flags.left == wide.flags.left && !s.flags.uppercase
            && (s.flags.zeropad <==> '0' in flags) && (s.flags.plus <==> '+' in flags)
            && (s.flags.space <==> ' ' in flags) && (s.flags.hash <==> '#' in flags)
  {
    FlagsRead(f, i, NO_FLAGS);
    var flags := FlagsAt(f, i, NO_FLAGS);
    a := flags.1;
    var s0 := Spec(flags.0, 0, 0, a, args);
    WidthSaid(f, s0);
    wide := WidthAt(f, s0).value;
    b := wide.pos;
    PrecisionSaid(f, wide);
    var s2 := PrecisionAt(f, wide).value;
    c := s2.pos;
    LengthSaid(f, s2);
    assert SpecAt(f, i, args) == Some(LengthAt(f, s2));
    PrecisionSaidLonger(f, b, c, wide.args, s2, LengthAt(f, s2));
    hide FlagsAt, WidthAt, PrecisionAt, LengthAt, WidthSays, PrecisionSays, SpecAt;
  }

  lemma PrecisionSaidLonger(f: seq<char>, b: nat, c: nat, args: seq<Arg>, s: Spec, r: Spec)
    requires PrecisionSays(f, b, c, args, s) && r.args == s.args && r.precision == s.precision
    requires r.flags.precision == s.flags.precision
    ensures PrecisionSays(f, b, c, args, r)
  {
    hide ReadText;
  }

  lemma EmptyReads()
    ensures ReadText([], 10) % 0x1_0000_0000 == 0
  {
  }
}

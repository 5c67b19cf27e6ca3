/**
 * The printf engine: a format and its arguments are turned into characters that go one by one to an
 * output, which keeps those that fit its buffer. The build without floating point support.
 */
module Printf {
  import opened MachineWord
  import opened Options
  import opened PrintfNumbers
  import opened PrintfReading

  // Output.

  class Output {
    const data: array<char>
    const maxlen: nat
    const discard: bool
    ghost const initial: seq<char>
    ghost var text: seq<char>

    /** The buffer holds as much of the text as is allowed in it, and is otherwise as it was. */
    ghost predicate Valid()
      reads this, data
    {
      && |initial| == data.Length
      && forall i :: 0 <= i < data.Length ==>
           data[i] == if !discard && i < maxlen && i < |text| then text[i] else initial[i]
    }

    /** The buffer is as large as maxlen says, or at least has room for so many characters. */
    predicate Takes(n: nat) { discard || maxlen <= data.Length || n <= data.Length }

    constructor (data: array<char>, maxlen: nat, discard: bool)
      ensures Valid() && text == [] && this.data == data && this.maxlen == maxlen && this.discard == discard
      ensures initial == data[..]
    {
      this.data := data;
      this.maxlen := maxlen;
      this.discard := discard;
      initial := data[..];
      text := [];
    }

    /** Puts one character at an index, if there is a buffer and the index is in it. */
    method Put(character: char, idx: nat)
      requires Valid() && (discard || idx >= maxlen || idx < data.Length)
      modifies data
      ensures forall i :: 0 <= i < data.Length ==>
        data[i] == if i == idx && !discard && idx < maxlen then character else old(data[i])
    {
      if !discard {
        if idx < maxlen {
          data[idx] := character;
        }
      }
    }

    /** Puts the next character of the text. */
    method Out(character: char, idx: nat) returns (next: nat)
      requires Valid() && idx == |text| && Takes(idx + 1)
      modifies this, data
      ensures Valid() && text == old(text) + [character] && next == |text|
    {
      Put(character, idx);
      text := text + [character];
      next := idx + 1;
    }

    /** Puts a character several times. */
    method Pad(character: char, from: nat, to: nat, idx0: nat) returns (idx: nat)
      requires Valid() && idx0 == |text| && Takes(idx0 + |Repeat(character, to - from)|)
      modifies this, data
      ensures Valid() && text == old(text) + Repeat(character, to - from) && idx == |text|
    {
      idx := idx0;
      var i := from;
      while i < to
        invariant from <= i && (i <= to || i == from)
        invariant Valid() && text == old(text) + Repeat(character, i - from) && idx == |text|
      {
        idx := Out(character, idx);
        i := i + 1;
        assert Repeat(character, i - from) == Repeat(character, i - 1 - from) + [character];
      }
    }

    /** The final NUL: after the text, or in the last place of a buffer that is too short. */
    method Terminate(idx: nat)
      requires Valid() && idx == |text| && Takes(idx + 1)
      modifies data
      ensures forall i :: 0 <= i < data.Length ==>
        data[i] == if discard || i >= maxlen || i > |text| then initial[i]
                   else if i == |text| || i == maxlen - 1 then 0 as char
                   else text[i]
    {
      var last := if idx < maxlen then idx else if maxlen == 0 then 0xffff_ffff else maxlen - 1;
      Put(0 as char, last);
    }
  }

  lemma ReversedGrows(s: seq<char>, n: nat)
    requires n < |s|
    ensures Reversed(s)[..n + 1] == Reversed(s)[..n] + [s[|s| - 1 - n]]
  {
  }

  /** The characters of the buffer from its end. */
  method PutReversed(out: Output, idx0: nat, buf: array<char>, len0: nat) returns (idx: nat)
    requires out.Valid() && idx0 == |out.text| && len0 <= buf.Length && buf != out.data && out.Takes(idx0 + len0)
    modifies out, out.data
    ensures out.Valid() && out.text == old(out.text) + Reversed(buf[..len0]) && idx == |out.text|
  {
    idx := idx0;
    ghost var s := buf[..len0];
    var len := len0;
    while len != 0
      invariant 0 <= len <= len0
      invariant out.Valid() && idx == |out.text| && buf[..len0] == s
      invariant out.text == old(out.text) + Reversed(s)[..len0 - len]
    {
      ReversedGrows(s, len0 - len);
      len := len - 1;
      idx := out.Out(buf[len], idx);
    }
    assert Reversed(s)[..len0] == Reversed(s);
  }

  /** _out_rev: the buffer from its end, between spaces. */
  method OutRev(out: Output, idx0: nat, buf: array<char>, len0: nat, width: nat, flags: Flags) returns (idx: nat)
    requires out.Valid() && idx0 == |out.text| && len0 <= buf.Length && buf != out.data
    requires out.Takes(idx0 + |Field(buf[..len0], width, flags)|)
    modifies out, out.data
    ensures out.Valid() && out.text == old(out.text) + Field(buf[..len0], width, flags) && idx == |out.text|
  {
    hide Repeat;
    idx := idx0;
    if !flags.left && !flags.zeropad {
      idx := out.Pad(' ', len0, width, idx);
    }
    idx := PutReversed(out, idx, buf, len0);
    if flags.left {
      assert idx - idx0 == len0;
      idx := out.Pad(' ', idx - idx0, width, idx);
    }
  }

  /** Appends zeros to the buffer up to a length. */
  method ZeroFill(buf: array<char>, len0: nat, n: nat) returns (len: nat)
    requires buf.Length == 32 && len0 <= 32
    modifies buf
    ensures len <= 32 && buf[..len] == ZerosTo(old(buf[..len0]), n)
  {
    len := len0;
    while len < n && len < 32
      invariant len0 <= len <= 32 && (len <= n || len == len0)
      invariant buf[..len] == old(buf[..len0]) + Repeat('0', len - len0)
    {
      buf[len] := '0';
      len := len + 1;
      assert buf[..len] == buf[..len - 1] + ['0'];
      assert Repeat('0', len - len0) == Repeat('0', len - 1 - len0) + ['0'];
    }
  }

  method AppendTo(buf: array<char>, len0: nat, c: char) returns (len: nat)
    requires buf.Length == 32 && len0 <= 32
    modifies buf
    ensures len <= 32 && buf[..len] == Append(old(buf[..len0]), c)
  {
    len := len0;
    if len < 32 {
      buf[len] := c;
      len := len + 1;
    }
  }

  /** The prefix of a base, in _ntoa_format. */
  method HandleHash(buf: array<char>, len0: nat, base: nat, prec: nat, width: nat, flags: Flags) returns (len: nat)
    requires buf.Length == 32 && len0 <= 32
    modifies buf
    ensures len <= 32 && buf[..len] == BasePrefix(old(buf[..len0]), base, prec, width, flags)
  {
    len := len0;
    if !flags.precision && len != 0 && (len == prec || len == width) {
      len := len - 1;
      if len != 0 && base == 16 {
        len := len - 1;
      }
    }
    assert old(buf[..len0])[..len] == buf[..len];
    if base == 16 && !flags.uppercase && len < 32 {
      len := AppendTo(buf, len, 'x');
    } else if base == 16 && flags.uppercase && len < 32 {
      len := AppendTo(buf, len, 'X');
    } else if base == 2 && len < 32 {
      len := AppendTo(buf, len, 'b');
    }
    if len < 32 {
      len := AppendTo(buf, len, '0');
    }
  }

  /** _ntoa_format: completes the number in the buffer and puts it out. */
  method NtoaFormat(out: Output, idx0: nat, buf: array<char>, len0: nat, negative: bool, base: nat, prec: nat,
                    width0: nat, flags: Flags)
    returns (idx: nat)
    requires out.Valid() && idx0 == |out.text| && buf.Length == 32 && len0 <= 32 && buf != out.data
    requires out.Takes(idx0 + |Field(NumberBuffer(buf[..len0], negative, base, prec, width0, flags),
                                     ZeroWidth(negative, width0, flags), flags)|)
    modifies out, out.data, buf
    ensures out.Valid() && idx == |out.text|
    ensures out.text == old(out.text) + Field(NumberBuffer(old(buf[..len0]), negative, base, prec, width0, flags),
                                              ZeroWidth(negative, width0, flags), flags)
  {
    hide Field, ZerosTo, BasePrefix, Append;
    var len, width := len0, width0;
    if !flags.left {
      if width != 0 && flags.zeropad && (negative || flags.plus || flags.space) {
        width := width - 1;
      }
      len := ZeroFill(buf, len, prec);
      if flags.zeropad {
        len := ZeroFill(buf, len, width);
      }
    }
    assert buf[..len] == LeadingZeros(old(buf[..len0]), negative, prec, width0, flags);
    if flags.hash {
      len := HandleHash(buf, len, base, prec, width, flags);
    }
    if negative {
      len := AppendTo(buf, len, '-');
    } else if flags.plus {
      len := AppendTo(buf, len, '+');
    } else if flags.space {
      len := AppendTo(buf, len, ' ');
    }
    idx := OutRev(out, idx0, buf, len, width, flags);
  }

  function Quotient(value: nat, base: nat): nat
    requires base > 0
  {
    assert value / base >= 0;
    value / base
  }

  function DigitsLeft(value: nat, base: nat, upper: bool, len: nat, more: bool): seq<char>
    requires 2 <= base <= 16 && len <= 32 && (more ==> len < 32)
  {
    if more then DigitsOf(value, base, upper, 32 - len) else []
  }

  lemma DigitStep(done: seq<char>, value: nat, base: nat, upper: bool, len: nat)
    requires 2 <= base <= 16 && len < 32
    ensures done + DigitsLeft(value, base, upper, len, true)
            == done + [DigitChar(value % base, upper)]
               + DigitsLeft(Quotient(value, base), base, upper, len + 1, Quotient(value, base) != 0 && len + 1 < 32)
  {
  }

  /** The digit loop. */
  method FillDigits(buf: array<char>, value0: nat, base: nat, upper: bool) returns (len: nat)
    requires buf.Length == 32 && 2 <= base <= 16
    modifies buf
    ensures len <= 32 && buf[..len] == DigitsOf(value0, base, upper, 32)
  {
    ghost var all := DigitsOf(value0, base, upper, 32);
    ghost var done: seq<char> := [];
    len := 0;
    var value: nat, more := value0, true;
    hide DigitChar, DigitsLeft, DigitsOf, Quotient;
    assert done + DigitsLeft(value, base, upper, len, more) == all by { FirstDigits(value0, base, upper); }
    while more
      invariant 0 <= len <= 32 && (more ==> len < 32)
      invariant buf[..len] == done && done + DigitsLeft(value, base, upper, len, more) == all
      decreases 32 - len, more
    {
      DigitStep(done, value, base, upper, len);
      var digit := DigitChar(value % base, upper);
      buf[len] := digit;
      len := len + 1;
      value := Quotient(value, base);
      more := value != 0 && len < 32;
      done := done + [digit];
    }
    NoDigitsLeft(value, base, upper, len);
  }

  lemma FirstDigits(value: nat, base: nat, upper: bool)
    requires 2 <= base <= 16
    ensures [] + DigitsLeft(value, base, upper, 0, true) == DigitsOf(value, base, upper, 32)
  {
  }

  lemma NoDigitsLeft(value: nat, base: nat, upper: bool, len: nat)
    requires 2 <= base <= 16 && len <= 32
    ensures DigitsLeft(value, base, upper, len, false) == []
  {
  }

  /** _ntoa_long and _ntoa_long_long. */
  method NtoaLong(out: Output, idx0: nat, value0: nat, negative: bool, base: nat, prec: nat, width: nat, flags0: Flags)
    returns (idx: nat)
    requires out.Valid() && idx0 == |out.text| && 2 <= base <= 16
    requires out.Takes(idx0 + |NumberText(value0, negative, base, prec, width, flags0)|)
    modifies out, out.data
    ensures out.Valid() && idx == |out.text|
    ensures out.text == old(out.text) + NumberText(value0, negative, base, prec, width, flags0)
  {
    hide Field, NumberBuffer, DigitsOf;
    var buf := new char[32];
    var len: nat := 0;
    var value: nat, flags := value0, flags0;
    if value == 0 {
      flags := flags.(hash := false);
    }
    if !flags.precision || value != 0 {
      len := FillDigits(buf, value, base, flags.uppercase);
    }
    assert buf[..len] == DigitsFor(value0, base, flags);
    idx := NtoaFormat(out, idx0, buf, len, negative, base, prec, width, flags);
  }

  // Formats.

  /** A variadic argument: a 32 bit word, a long long, a string, or a double. */
  datatype Arg = Word(v: int) | LongLong(w: int) | Str(s: seq<char>) | Double

  const NUL: char := 0 as char

  /** A character of a C string, which ends with a NUL. */
  function At(f: seq<char>, i: nat): char { if i < |f| then f[i] else NUL }

  predicate IsDigit(c: char) { '0' <= c <= '9' }

  function WithFlag(flags: Flags, c: char): Option<Flags> {
    match c
    case '0' => Some(flags.(zeropad := true))
    case '-' => Some(flags.(left := true))
    case '+' => Some(flags.(plus := true))
    case ' ' => Some(flags.(space := true))
    case '#' => Some(flags.(hash := true))
    case _ => None
  }

  function FlagsAt(f: seq<char>, i: nat, flags: Flags): (Flags, nat)
    requires i <= |f|
    decreases |f| - i
  {
    match WithFlag(flags, At(f, i))
    case Some(more) => FlagsAt(f, i + 1, more)
    case None => (flags, i)
  }

  function NextDigit(n: nat, c: char): nat
    requires IsDigit(c)
  {
    (n * 10 + (c - '0') as nat) % 0x1_0000_0000
  }

  function NumberAt(f: seq<char>, i: nat, n: nat): (nat, nat)
    requires i <= |f|
    decreases |f| - i
  {
    if IsDigit(At(f, i)) then NumberAt(f, i + 1, NextDigit(n, f[i])) else (n, i)
  }

  /** A specification up to its letter: flags, width and precision, where the letter is, and the arguments left. */
  datatype Spec = Spec(flags: Flags, width: nat, precision: nat, pos: nat, args: seq<Arg>)

  function WidthAt(f: seq<char>, s: Spec): (r: Option<Spec>)
    requires s.pos <= |f|
    ensures r.Some? ==> s.pos <= r.value.pos <= |f| && r.value.precision == s.precision
  {
    NumberInside(f, s.pos, 0);
    if IsDigit(At(f, s.pos)) then
      var n := NumberAt(f, s.pos, 0);
      Some(s.(width := n.0, pos := n.1))
    else if At(f, s.pos) == '*' then
      if s.args != [] && s.args[0].Word? then
        var w := Wrap(0x1_0000_0000, s.args[0].v);
        Some(s.(flags := if w < 0 then s.flags.(left := true) else s.flags, width := if w < 0 then 0 - w else w,
                pos := s.pos + 1, args := s.args[1..]))
      else None
    else Some(s)
  }

  function PrecisionAt(f: seq<char>, s: Spec): (r: Option<Spec>)
    requires s.pos <= |f|
    ensures r.Some? ==> s.pos <= r.value.pos <= |f|
    ensures r.Some? && s.precision == 0 ==> r.value.precision == 0 || r.value.flags.precision
  {
    if At(f, s.pos) == '.' then
      var p := s.(flags := s.flags.(precision := true), pos := s.pos + 1);
      NumberInside(f, p.pos, 0);
      if IsDigit(At(f, p.pos)) then
        var n := NumberAt(f, p.pos, 0);
        Some(p.(precision := n.0, pos := n.1))
      else if At(f, p.pos) == '*' then
        if p.args != [] && p.args[0].Word? then
          var w := Wrap(0x1_0000_0000, p.args[0].v);
          Some(p.(precision := if w > 0 then w else 0, pos := p.pos + 1, args := p.args[1..]))
        else None
      else Some(p)
    else Some(s)
  }

  /** On the target long and ptrdiff_t have 32 bits, and intmax_t has 64. */
  function LengthAt(f: seq<char>, s: Spec): (r: Spec)
    requires s.pos <= |f|
    ensures s.pos <= r.pos <= |f| && r.precision == s.precision && r.flags.precision == s.flags.precision
  {
    match At(f, s.pos)
    case 'l' =>
      var l := s.(flags := s.flags.(long := true), pos := s.pos + 1);
      if At(f, l.pos) == 'l' then l.(flags := l.flags.(longLong := true), pos := l.pos + 1) else l
    case 'h' =>
      var h := s.(flags := s.flags.(short := true), pos := s.pos + 1);
      if At(f, h.pos) == 'h' then h.(flags := h.flags.(chr := true), pos := h.pos + 1) else h
    case 't' => s.(flags := s.flags.(long := true), pos := s.pos + 1)
    case 'j' => s.(flags := s.flags.(longLong := true), pos := s.pos + 1)
    case 'z' => s.(flags := s.flags.(long := true), pos := s.pos + 1)
    case _ => s
  }

  function SpecAt(f: seq<char>, i: nat, args: seq<Arg>): (r: Option<Spec>)
    requires i <= |f|
    ensures r.Some? ==> i <= r.value.pos <= |f| && (r.value.precision == 0 || r.value.flags.precision)
  {
    FlagsInside(f, i, NO_FLAGS);
    var flags := FlagsAt(f, i, NO_FLAGS);
    match WidthAt(f, Spec(flags.0, 0, 0, flags.1, args))
    case None => None
    case Some(w) =>
      match PrecisionAt(f, w)
      case None => None
      case Some(p) => Some(LengthAt(f, p))
  }

  lemma {:induction false} NumberInside(f: seq<char>, i: nat, n: nat)
    requires i <= |f|
    ensures i <= NumberAt(f, i, n).1 <= |f|
    decreases |f| - i
  {
    if IsDigit(At(f, i)) {
      NumberInside(f, i + 1, NextDigit(n, f[i]));
    }
  }

  lemma {:induction false} FlagsInside(f: seq<char>, i: nat, flags: Flags)
    requires i <= |f|
    ensures i <= FlagsAt(f, i, flags).1 <= |f|
    decreases |f| - i
  {
    if WithFlag(flags, At(f, i)).Some? {
      FlagsInside(f, i + 1, WithFlag(flags, At(f, i)).value);
    }
  }

  // Conversions.

  predicate IsIntegerLetter(c: char) { c in "diuxXob" }

  predicate IsSigned(c: char) { c == 'd' || c == 'i' }

  function BaseOf(c: char): nat {
    if c == 'x' || c == 'X' then 16 else if c == 'o' then 8 else if c == 'b' then 2 else 10
  }

  /** The flags that count for an integer conversion. */
  function IntegerFlags(c: char, flags: Flags): Flags {
    flags.(hash := flags.hash && BaseOf(c) != 10,
           uppercase := flags.uppercase || c == 'X',
           plus := flags.plus && IsSigned(c), space := flags.space && IsSigned(c),
           zeropad := flags.zeropad && !flags.precision)
  }

  /** The value an integer conversion takes from its argument; char is unsigned on the target. */
  function IntegerValue(c: char, flags: Flags, arg: Arg): Option<int> {
    if flags.longLong then
      match arg
      case LongLong(w) =>
        Some(if IsSigned(c) then Wrap(0x1_0000_0000_0000_0000, w) else w % 0x1_0000_0000_0000_0000)
      case _ => None
    else
      match arg
      case Word(v) =>
        Some(if flags.long then (if IsSigned(c) then Wrap(0x1_0000_0000, v) else v % 0x1_0000_0000)
             else if flags.chr then v % 0x100
             else if flags.short then (if IsSigned(c) then Wrap(0x1_0000, v) else v % 0x1_0000)
             else (if IsSigned(c) then Wrap(0x1_0000_0000, v) else v % 0x1_0000_0000))
      case _ => None
  }

  function IntegerText(c: char, s: Spec, value: int): seq<char> {
    var magnitude: nat := if value > 0 then value else 0 - value;
    NumberText(magnitude, value < 0, BaseOf(c), s.precision, s.width, IntegerFlags(c, s.flags))
  }

  /** Text padded with spaces to the width. */
  function Spaced(text: seq<char>, width: nat, left: bool): seq<char> {
    var spaces := Repeat(' ', width - |text|);
    if left then text + spaces else spaces + text
  }

  /** A string that can be in memory, without its NUL. */
  predicate IsCString(str: seq<char>) { NUL !in str && |str| < 0x1_0000_0000 }

  /** As much of a string as the precision allows. */
  function StringPart(str: seq<char>, s: Spec): seq<char> {
    if s.flags.precision && s.precision < |str| then str[..s.precision] else str
  }

  /** What one conversion puts out, and how many arguments it takes. */
  function Conversion(c: char, s: Spec): Option<(seq<char>, nat)> {
    if c == NUL then None
    else if IsIntegerLetter(c) then
      if s.args == [] then None
      else
        match IntegerValue(c, s.flags, s.args[0])
        case None => None
        case Some(value) => Some((IntegerText(c, s, value), 1))
    else if c in "fFeEgG" then
      if s.args != [] && s.args[0].Double? then Some(("??", 1)) else None
    else if c == 'c' then
      if s.args != [] && s.args[0].Word? then
        Some((Spaced([(s.args[0].v % 0x100) as char], s.width, s.flags.left), 1))
      else None
    else if c == 's' then
      if s.args != [] && s.args[0].Str? && IsCString(s.args[0].s) then
        Some((Spaced(StringPart(s.args[0].s, s), s.width, s.flags.left), 1))
      else None
    else if c == 'p' then
      if s.args != [] && s.args[0].Word? then
        Some((NumberText(s.args[0].v % 0x1_0000_0000, false, 16, s.precision, 8,
                         s.flags.(zeropad := true, uppercase := true)), 1))
      else None
    else Some(([c], 0))
  }

  /**
   * The whole output of a format, if the format does not end inside a specification and the arguments
   * are of the kinds it asks for.
   */
  function Rendered(f: seq<char>, i: nat, args: seq<Arg>): Option<seq<char>>
    requires i <= |f|
    decreases |f| - i
  {
    if i == |f| then Some([])
    else if f[i] != '%' then
      match Rendered(f, i + 1, args)
      case None => None
      case Some(rest) => Some([f[i]] + rest)
    else
      match SpecAt(f, i + 1, args)
      case None => None
      case Some(s) =>
        if s.pos == |f| then None
        else
          match Conversion(f[s.pos], s)
          case None => None
          case Some(out) =>
            if out.1 > |s.args| then None
            else
              match Rendered(f, s.pos + 1, s.args[out.1..])
              case None => None
              case Some(rest) => Some(out.0 + rest)
  }

  // The engine.

  method ParseFlags(f: seq<char>, i0: nat) returns (flags: Flags, i: nat)
    requires i0 <= |f|
    ensures (flags, i) == FlagsAt(f, i0, NO_FLAGS) && i0 <= i <= |f|
  {
    flags, i := NO_FLAGS, i0;
    var more := WithFlag(flags, At(f, i));
    while more.Some?
      invariant i0 <= i <= |f| && FlagsAt(f, i, flags) == FlagsAt(f, i0, NO_FLAGS)
      invariant more == WithFlag(flags, At(f, i))
      decreases |f| - i
    {
      flags, i := more.value, i + 1;
      more := WithFlag(flags, At(f, i));
    }
  }

  method Atoi(f: seq<char>, i0: nat) returns (n: nat, i: nat)
    requires i0 <= |f|
    ensures (n, i) == NumberAt(f, i0, 0) && i0 <= i <= |f|
  {
    n, i := 0, i0;
    while IsDigit(At(f, i))
      invariant i0 <= i <= |f| && NumberAt(f, i, n) == NumberAt(f, i0, 0)
      decreases |f| - i
    {
      n, i := NextDigit(n, f[i]), i + 1;
    }
  }

  method ParseWidth(f: seq<char>, s: Spec) returns (r: Spec)
    requires s.pos <= |f| && WidthAt(f, s).Some?
    ensures r == WidthAt(f, s).value
  {
    r := s;
    if IsDigit(At(f, r.pos)) {
      var n, i := Atoi(f, r.pos);
      r := r.(width := n, pos := i);
    } else if At(f, r.pos) == '*' {
      var w := Wrap(0x1_0000_0000, r.args[0].v);
      if w < 0 {
        r := r.(flags := r.flags.(left := true), width := 0 - w);
      } else {
        r := r.(width := w);
      }
      r := r.(pos := r.pos + 1, args := r.args[1..]);
    }
  }

  method ParsePrecision(f: seq<char>, s: Spec) returns (r: Spec)
    requires s.pos <= |f| && PrecisionAt(f, s).Some?
    ensures r == PrecisionAt(f, s).value
  {
    r := s;
    if At(f, r.pos) == '.' {
      r := r.(flags := r.flags.(precision := true), pos := r.pos + 1);
      if IsDigit(At(f, r.pos)) {
        var n, i := Atoi(f, r.pos);
        r := r.(precision := n, pos := i);
      } else if At(f, r.pos) == '*' {
        var w := Wrap(0x1_0000_0000, r.args[0].v);
        r := r.(precision := if w > 0 then w else 0, pos := r.pos + 1, args := r.args[1..]);
      }
    }
  }

  method ParseSpec(f: seq<char>, i: nat, args: seq<Arg>) returns (s: Spec)
    requires i <= |f| && SpecAt(f, i, args).Some?
    ensures s == SpecAt(f, i, args).value
  {
    var flags, pos := ParseFlags(f, i);
    s := Spec(flags, 0, 0, pos, args);
    s := ParseWidth(f, s);
    s := ParsePrecision(f, s);
    s := LengthAt(f, s);
  }

  method PutText(out: Output, idx0: nat, text: seq<char>) returns (idx: nat)
    requires out.Valid() && idx0 == |out.text| && out.Takes(idx0 + |text|)
    modifies out, out.data
    ensures out.Valid() && out.text == old(out.text) + text && idx == |out.text|
  {
    idx := idx0;
    var i := 0;
    while i < |text|
      invariant i <= |text| && out.Valid() && out.text == old(out.text) + text[..i] && idx == |out.text|
    {
      idx := out.Out(text[i], idx);
      i := i + 1;
      assert text[..i] == text[..i - 1] + [text[i - 1]];
    }
    assert text[..i] == text;
  }

  /** The %c conversion. */
  method PutChar(out: Output, idx0: nat, c: char, width: nat, left: bool) returns (idx: nat)
    requires out.Valid() && idx0 == |out.text| && out.Takes(idx0 + |Spaced([c], width, left)|)
    modifies out, out.data
    ensures out.Valid() && out.text == old(out.text) + Spaced([c], width, left) && idx == |out.text|
  {
    hide Repeat;
    idx := idx0;
    if !left {
      idx := out.Pad(' ', 1, width, idx);
    }
    idx := out.Out(c, idx);
    if left {
      idx := out.Pad(' ', 1, width, idx);
    }
  }

  /** _strnlen_s */
  method StrnLen(str: seq<char>, maxsize: nat) returns (l: nat)
    requires IsCString(str)
    ensures l == Min(|str|, maxsize)
  {
    l := 0;
    var left := maxsize;
    while At(str, l) != NUL && left != 0
      invariant l <= |str| && l + left == maxsize && left >= 0
      decreases left
    {
      l, left := l + 1, left - 1;
    }
  }

  /** The %s conversion. */
  method PutString(out: Output, idx0: nat, str: seq<char>, s: Spec) returns (idx: nat)
    requires out.Valid() && idx0 == |out.text| && IsCString(str) && (s.precision == 0 || s.flags.precision)
    requires out.Takes(idx0 + |Spaced(StringPart(str, s), s.width, s.flags.left)|)
    modifies out, out.data
    ensures out.Valid() && out.text == old(out.text) + Spaced(StringPart(str, s), s.width, s.flags.left)
    ensures idx == |out.text|
  {
    hide Repeat;
    idx := idx0;
    var l := StrnLen(str, if s.precision != 0 then s.precision else 0xffff_ffff);
    if s.flags.precision {
      l := if l < s.precision then l else s.precision;
    }
    assert l == |StringPart(str, s)|;
    if !s.flags.left {
      idx := out.Pad(' ', l, s.width, idx);
    }
    idx := PutPart(out, idx, str, s);
    if s.flags.left {
      idx := out.Pad(' ', l, s.width, idx);
    }
  }

  /** The characters of a string, as many as the precision allows. */
  method PutPart(out: Output, idx0: nat, str: seq<char>, s: Spec) returns (idx: nat)
    requires out.Valid() && idx0 == |out.text| && IsCString(str) && out.Takes(idx0 + |StringPart(str, s)|)
    modifies out, out.data
    ensures out.Valid() && out.text == old(out.text) + StringPart(str, s) && idx == |out.text|
  {
    idx := idx0;
    var i, precision := 0, s.precision;
    while At(str, i) != NUL && (!s.flags.precision || precision != 0)
      invariant i <= |StringPart(str, s)| && (s.flags.precision ==> precision == s.precision - i)
      invariant out.Valid() && out.text == old(out.text) + str[..i] && idx == |out.text|
      decreases |str| - i
    {
      idx := out.Out(str[i], idx);
      i := i + 1;
      if s.flags.precision {
        precision := precision - 1;
      }
      assert str[..i] == str[..i - 1] + [str[i - 1]];
    }
    assert str[..i] == StringPart(str, s);
  }

  /** One conversion: puts its text out and says how many arguments it took. */
  method Convert(out: Output, idx0: nat, c: char, s: Spec) returns (idx: nat, taken: nat)
    requires out.Valid() && idx0 == |out.text| && Conversion(c, s).Some? && (s.precision == 0 || s.flags.precision)
    requires out.Takes(idx0 + |Conversion(c, s).value.0|)
    modifies out, out.data
    ensures out.Valid() && idx == |out.text| && taken == Conversion(c, s).value.1
    ensures out.text == old(out.text) + Conversion(c, s).value.0
  {
    hide NumberText, Spaced, StringPart, IntegerValue;
    if IsIntegerLetter(c) {
      taken := 1;
      var value := IntegerValue(c, s.flags, s.args[0]).value;
      var magnitude: nat := if value > 0 then value else 0 - value;
      idx := NtoaLong(out, idx0, magnitude, value < 0, BaseOf(c), s.precision, s.width, IntegerFlags(c, s.flags));
    } else if c in "fFeEgG" {
      taken := 1;
      idx := PutText(out, idx0, "??");
    } else if c == 'c' {
      taken := 1;
      idx := PutChar(out, idx0, (s.args[0].v % 0x100) as char, s.width, s.flags.left);
    } else if c == 's' {
      taken := 1;
      idx := PutString(out, idx0, s.args[0].s, s);
    } else if c == 'p' {
      taken := 1;
      idx := NtoaLong(out, idx0, s.args[0].v % 0x1_0000_0000, false, 16, s.precision, 8,
                      s.flags.(zeropad := true, uppercase := true));
    } else {
      taken := 0;
      idx := out.Out(c, idx0);
    }
  }

  /** _vsnprintf without its final NUL: the output of the format, character by character. */
  method Format(out: Output, format: seq<char>, args0: seq<Arg>) returns (idx: nat)
    requires out.Valid() && out.text == [] && NUL !in format && Rendered(format, 0, args0).Some?
    requires out.Takes(|Rendered(format, 0, args0).value|)
    modifies out, out.data
    ensures out.Valid() && out.text == Rendered(format, 0, args0).value && idx == |out.text|
  {
    hide SpecAt, Conversion, Rendered;
    var i, args := 0, args0;
    idx := 0;
    while i < |format|
      invariant i <= |format| && out.Valid() && idx == |out.text|
      invariant Rendered(format, i, args).Some?
      invariant out.text + Rendered(format, i, args).value == Rendered(format, 0, args0).value
      decreases |format| - i
    {
      RenderedFrom(format, i, args);
      if format[i] != '%' {
        idx := out.Out(format[i], idx);
        i := i + 1;
      } else {
        var s := ParseSpec(format, i + 1, args);
        var taken;
        idx, taken := Convert(out, idx, format[s.pos], s);
        i, args := s.pos + 1, s.args[taken..];
      }
    }
    RenderedFrom(format, i, args);
  }

  /** What is put out at a position of a format, and what is left. */
  lemma RenderedFrom(f: seq<char>, i: nat, args: seq<Arg>)
    requires i <= |f| && Rendered(f, i, args).Some?
    ensures i == |f| ==> Rendered(f, i, args).value == []
    ensures i < |f| && f[i] != '%' ==>
      Rendered(f, i + 1, args).Some? && Rendered(f, i, args).value == [f[i]] + Rendered(f, i + 1, args).value
    ensures i < |f| && f[i] == '%' ==>
      && SpecAt(f, i + 1, args).Some?
      && var s := SpecAt(f, i + 1, args).value;
      && s.pos < |f| && Conversion(f[s.pos], s).Some?
      && var (text, taken) := Conversion(f[s.pos], s).value;
      && taken <= |s.args| && Rendered(f, s.pos + 1, s.args[taken..]).Some?
      && Rendered(f, i, args).value == text + Rendered(f, s.pos + 1, s.args[taken..]).value
  {
    hide SpecAt, Conversion;
  }

  /** What a buffer of maxlen characters holds after n characters of text and a NUL have been put in it. */
  ghost predicate HoldsText(data: seq<char>, before: seq<char>, maxlen: nat, text: seq<char>)
  {
    && |data| == |before|
    && (forall i :: 0 <= i < |data| && i >= maxlen ==> data[i] == before[i])
    && (forall i :: 0 <= i < |data| && i < maxlen && i < |text| && i < maxlen - 1 ==> data[i] == text[i])
    && (forall i :: 0 <= i < |data| && i < maxlen && (i == |text| || (i == maxlen - 1 && |text| >= maxlen)) ==>
          data[i] == NUL)
    && (forall i :: 0 <= i < |data| && i > |text| ==> data[i] == before[i])
  }

  /**
   * vsnprintf: returns the length of the whole output, whatever maxlen is; the buffer holds the output,
   * or as much of it as leaves room for the final NUL, and nothing is written behind its end. The buffer
   * need not be as large as maxlen says if the output and its NUL fit.
   */
  method Vsnprintf(data: array<char>, maxlen: nat, format: seq<char>, args: seq<Arg>) returns (n: nat)
    requires data.Length < 0x1_0000_0000 && NUL !in format && Rendered(format, 0, args).Some?
    requires maxlen <= data.Length || |Rendered(format, 0, args).value| < data.Length
    modifies data
    ensures n == |Rendered(format, 0, args).value|
    ensures HoldsText(data[..], old(data[..]), maxlen, Rendered(format, 0, args).value)
  {
    hide Rendered;
    var out := new Output(data, maxlen, false);
    n := Format(out, format, args);
    out.Terminate(n);
  }

  /** sprintf: the same for the largest size there is, so that the whole output and its NUL are in the buffer. */
  method Sprintf(data: array<char>, format: seq<char>, args: seq<Arg>) returns (n: nat)
    requires data.Length < 0x1_0000_0000 && NUL !in format && Rendered(format, 0, args).Some?
    requires |Rendered(format, 0, args).value| < data.Length
    modifies data
    ensures n == |Rendered(format, 0, args).value|
    ensures data[..] == Rendered(format, 0, args).value + [NUL] + old(data[n + 1..])
  {
    hide Rendered;
    n := Vsnprintf(data, 0xffff_ffff, format, args);
  }

  /** A call without a buffer returns the same length. */
  method Measure(format: seq<char>, args: seq<Arg>, maxlen: nat) returns (n: nat)
    requires NUL !in format && Rendered(format, 0, args).Some?
    ensures n == |Rendered(format, 0, args).value|
  {
    var none := new char[0];
    var out := new Output(none, maxlen, true);
    n := Format(out, format, args);
    out.Terminate(n);
  }

  /** A format without specifications is put out as it is. */
  lemma {:induction false} LiteralFormat(f: seq<char>, i: nat, args: seq<Arg>)
    requires i <= |f| && '%' !in f
    ensures Rendered(f, i, args) == Some(f[i..])
    decreases |f| - i
  {
    if i < |f| {
      assert f[i] in f;
      LiteralFormat(f, i + 1, args);
      assert f[i..] == [f[i]] + f[i + 1..];
    } else {
      assert f[i..] == [];
    }
  }

  /** Printing an int with %d gives a minus sign for a negative value, and digits that read back as its magnitude. */
  lemma DecimalReadsBack(v: int)
    requires -0x8000_0000 <= v < 0x8000_0000
    ensures var magnitude: nat := if v < 0 then 0 - v else v;
            var body := Body(magnitude, v < 0, 10, 0, 0, NO_FLAGS);
            && Rendered("%d", 0, [Word(v)]) == Some((if v < 0 then "-" else "") + body)
            && ReadText(body, 10) == magnitude
  {
    DecimalText(if v < 0 then 0 - v else v, v < 0);
    hide Body, NumberText, ReadText;
    RenderedPlain(v);
  }

  lemma DecimalText(magnitude: nat, negative: bool)
    requires magnitude <= 0x8000_0000
    ensures var body := Body(magnitude, negative, 10, 0, 0, NO_FLAGS);
            && NumberText(magnitude, negative, 10, 0, 0, NO_FLAGS) == (if negative then "-" else "") + body
            && ReadText(body, 10) == magnitude
  {
    NumberReadsBack(magnitude, negative, 10, 0, 0, NO_FLAGS);
    PlainDigitsIff(magnitude, negative, 10, 0, 0, NO_FLAGS);
    WordsAreShort(magnitude, 10);
    hide Body, NumberText, ReadText, LowDigits, DigitCount;
    var number := Number(magnitude, negative, 10, 0, 0, NO_FLAGS);
    assert FlagsFor(magnitude, NO_FLAGS) == NO_FLAGS && ZeroWidth(negative, 0, NO_FLAGS) == 0;
    assert Repeat(' ', 0 - |number|) == [];
  }

  lemma RenderedPlain(v: int)
    requires -0x8000_0000 <= v < 0x8000_0000
    ensures Rendered("%d", 0, [Word(v)]) == Some(NumberText(if v < 0 then 0 - v else v, v < 0, 10, 0, 0, NO_FLAGS))
  {
    hide NumberText;
    var s := Spec(NO_FLAGS, 0, 0, 1, [Word(v)]);
    SpecOfPlain(v);
    hide SpecAt;
    WrapFits(0x1_0000_0000, v);
    assert IntegerValue('d', NO_FLAGS, Word(v)) == Some(v) && IntegerFlags('d', NO_FLAGS) == NO_FLAGS;
    var text := NumberText(if v < 0 then 0 - v else v, v < 0, 10, 0, 0, NO_FLAGS);
    assert Conversion('d', s) == Some((text, 1));
    hide Conversion;
    assert Rendered("%d", 2, []) == Some([]);
    assert s.args[1..] == [] && text + [] == text;
  }

  lemma SpecOfPlain(v: int)
    ensures SpecAt("%d", 1, [Word(v)]) == Some(Spec(NO_FLAGS, 0, 0, 1, [Word(v)]))
  {
    assert At("%d", 1) == 'd' && WithFlag(NO_FLAGS, 'd') == None;
  }

  /** A value of four digits printed with `%#4x`: the prefix takes the place of two of them. */
  lemma PrefixCanTakeDigits()
    ensures Rendered("%#4x", 0, [Word(0xABCD)]) == Some("0xcd")
  {
    var f := NO_FLAGS.(hash := true);
    var s := Spec(f, 4, 0, 3, [Word(0xABCD)]);
    HashSpec();
    hide SpecAt;
    HashText();
    assert IntegerValue('x', f, Word(0xABCD)) == Some(0xABCD) && IntegerFlags('x', f) == f;
    hide NumberText;
    assert Conversion('x', s) == Some(("0xcd", 1));
    hide Conversion;
    assert Rendered("%#4x", 4, []) == Some([]);
    assert s.args[1..] == [] && "0xcd" + [] == "0xcd";
  }

  lemma HashSpec()
    ensures SpecAt("%#4x", 1, [Word(0xABCD)]) == Some(Spec(NO_FLAGS.(hash := true), 4, 0, 3, [Word(0xABCD)]))
  {
    var f := "%#4x";
    assert At(f, 2) == '4' && WithFlag(NO_FLAGS.(hash := true), '4') == None;
    assert FlagsAt(f, 1, NO_FLAGS) == (NO_FLAGS.(hash := true), 2);
    assert NumberAt(f, 2, 0) == (4, 3);
  }

  lemma HashText()
    ensures NumberText(0xABCD, false, 16, 0, 4, NO_FLAGS.(hash := true)) == "0xcd"
  {
    var f := NO_FLAGS.(hash := true);
    assert DigitsOf(0xA, 16, false, 29) == ['a'];
    assert DigitsOf(0xAB, 16, false, 30) == ['b', 'a'];
    assert DigitsOf(0xABC, 16, false, 31) == ['c', 'b', 'a'];
    var digits := DigitsFor(0xABCD, 16, f);
    assert digits == ['d', 'c', 'b', 'a'];
    hide DigitsFor;
    assert LeadingZeros(digits, false, 0, 4, f) == digits;
    assert BasePrefix(digits, 16, 0, 4, f) == ['d', 'c', 'x', '0'];
    assert Field(['d', 'c', 'x', '0'], 4, f) == "0xcd";
  }

  /** A word with its top bit set printed with `%#b`: its 32 digits fill the buffer, and no prefix is shown. */
  lemma PrefixCanBeLost()
    ensures Rendered("%#b", 0, [Word(0x8000_0000)]) == Some(['1'] + Repeat('0', 31))
  {
    hide Repeat, SpecAt, Conversion, NumberText;
    var s, text := Spec(NO_FLAGS.(hash := true), 0, 0, 2, [Word(0x8000_0000)]), ['1'] + Repeat('0', 31);
    BinarySpec();
    BinaryConversion(s);
    assert Rendered("%#b", 3, []) == Some([]);
    assert s.args[1..] == [] && text + [] == text;
  }

  lemma BinaryConversion(s: Spec)
    requires s == Spec(NO_FLAGS.(hash := true), 0, 0, 2, [Word(0x8000_0000)])
    ensures Conversion('b', s) == Some((['1'] + Repeat('0', 31), 1))
  {
    BinaryText();
    assert IntegerValue('b', s.flags, Word(0x8000_0000)) == Some(0x8000_0000) && IntegerFlags('b', s.flags) == s.flags;
    hide NumberText, Repeat, IntegerValue, IntegerFlags;
  }

  lemma BinarySpec()
    ensures SpecAt("%#b", 1, [Word(0x8000_0000)])
            == Some(Spec(NO_FLAGS.(hash := true), 0, 0, 2, [Word(0x8000_0000)]))
  {
    var f := "%#b";
    assert At(f, 2) == 'b' && WithFlag(NO_FLAGS.(hash := true), 'b') == None;
    assert FlagsAt(f, 1, NO_FLAGS) == (NO_FLAGS.(hash := true), 2);
  }

  lemma BinaryText()
    ensures NumberText(0x8000_0000, false, 2, 0, 0, NO_FLAGS.(hash := true)) == ['1'] + Repeat('0', 31)
  {
    Pow2Of32();
    hide Pow2, DigitsOf, DigitCount, NumberText, Repeat;
    PowerDigits(31, 32);
    DigitsShown(0x8000_0000, 2, false, 32);
    RepeatLength('0', 31);
    NoRoomForPrefix(0x8000_0000, false, 2, NO_FLAGS.(hash := true));
    PlainText(0x8000_0000, 2);
    ReversedPower(31);
  }

  lemma RepeatLength(c: char, n: nat)
    ensures |Repeat(c, n)| == n
  {
  }

  lemma ReversedPower(k: nat)
    ensures Reversed(Repeat('0', k) + ['1']) == ['1'] + Repeat('0', k)
  {
  }

  /** A number without flags, precision or width is just its digits. */
  lemma PlainText(value: nat, base: nat)
    requires 2 <= base <= 16
    ensures NumberText(value, false, base, 0, 0, NO_FLAGS) == Reversed(DigitsOf(value, base, false, 32))
  {
    hide DigitsOf;
    var digits := DigitsFor(value, base, NO_FLAGS);
    assert LeadingZeros(digits, false, 0, 0, NO_FLAGS) == digits;
    assert Field(digits, 0, NO_FLAGS) == Reversed(digits);
  }

  /** The binary digits of a power of two. */
  lemma {:induction false} PowerDigits(k: nat, room: nat)
    requires k < room
    ensures DigitsOf(Pow2(k), 2, false, room) == Repeat('0', k) + ['1']
    decreases k
  {
    if k == 0 {
      assert Repeat('0', 0) + ['1'] == ['1'];
    } else {
      assert Pow2(k) == 2 * Pow2(k - 1);
      PowerDigits(k - 1, room - 1);
      assert ['0'] + (Repeat('0', k - 1) + ['1']) == Repeat('0', k) + ['1'];
    }
  }
}

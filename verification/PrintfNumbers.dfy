/**
 * How printf lays out integers: digits into a buffer of 32 characters, the lowest first, then leading
 * zeros, a base prefix and a sign into the same buffer, which is finally read backwards between spaces.
 */
module PrintfNumbers {
  datatype Flags = Flags(zeropad: bool, left: bool, plus: bool, space: bool, hash: bool, uppercase: bool, chr: bool,
                         short: bool, long: bool, longLong: bool, precision: bool)

  const NO_FLAGS := Flags(false, false, false, false, false, false, false, false, false, false, false)

  function DigitChar(d: nat, upper: bool): char
    requires d < 16
  {
    if d < 10 then '0' + d as char else (if upper then 'A' else 'a') + (d - 10) as char
  }

  /** The digit loop, with room for so many digits. */
  function DigitsOf(value: nat, base: nat, upper: bool, room: nat): seq<char>
    requires 2 <= base <= 16 && room > 0
    decreases room
  {
    [DigitChar(value % base, upper)]
    + if value / base != 0 && room > 1 then DigitsOf(value / base, base, upper, room - 1) else []
  }

  function Repeat(c: char, n: int): seq<char> { seq(if n < 0 then 0 else n, _ => c) }

  function Min(a: int, b: int): int { if a < b then a else b }

  /** Appends one character if the buffer has room. */
  function Append(buf: seq<char>, c: char): seq<char> {
    if |buf| < 32 then buf + [c] else buf
  }

  /** Appends zeros up to a length, as far as the buffer has room. */
  function ZerosTo(buf: seq<char>, n: nat): seq<char> {
    buf + Repeat('0', Min(n, 32) - |buf|)
  }

  predicate ShowsSign(negative: bool, flags: Flags) { negative || flags.plus || flags.space }

  /** The width that zero padding fills, which leaves room for a sign. */
  function ZeroWidth(negative: bool, width: nat, flags: Flags): nat {
    if !flags.left && width > 0 && flags.zeropad && ShowsSign(negative, flags) then width - 1 else width
  }

  function LeadingZeros(digits: seq<char>, negative: bool, prec: nat, width: nat, flags: Flags): seq<char> {
    if flags.left then digits
    else
      var precise := ZerosTo(digits, prec);
      if flags.zeropad then ZerosTo(precise, ZeroWidth(negative, width, flags)) else precise
  }

  /** How many characters the prefix of a base takes away, of a buffer that fills precision or width exactly. */
  function PlacesTaken(length: nat, base: nat, prec: nat, width: nat, flags: Flags): (k: nat)
    ensures k <= length
  {
    if !flags.precision && length > 0 && (length == prec || length == width) then
      if length > 1 && base == 16 then 2 else 1
    else 0
  }

  /** The prefix of a base. */
  function BasePrefix(buf: seq<char>, base: nat, prec: nat, width: nat, flags: Flags): seq<char> {
    var shorter := buf[..|buf| - PlacesTaken(|buf|, base, prec, width, flags)];
    var letter :=
      if base == 16 then Append(shorter, if flags.uppercase then 'X' else 'x')
      else if base == 2 then Append(shorter, 'b')
      else shorter;
    Append(letter, '0')
  }

  function Sign(buf: seq<char>, negative: bool, flags: Flags): seq<char> {
    if negative then Append(buf, '-')
    else if flags.plus then Append(buf, '+')
    else if flags.space then Append(buf, ' ')
    else buf
  }

  /** The whole buffer, lowest character first. */
  function NumberBuffer(digits: seq<char>, negative: bool, base: nat, prec: nat, width: nat, flags: Flags): seq<char> {
    var padded := LeadingZeros(digits, negative, prec, width, flags);
    var prefixed :=
      if flags.hash then BasePrefix(padded, base, prec, ZeroWidth(negative, width, flags), flags) else padded;
    Sign(prefixed, negative, flags)
  }

  function Reversed(s: seq<char>): (r: seq<char>)
    ensures |r| == |s| && forall i :: 0 <= i < |s| ==> r[i] == s[|s| - 1 - i]
  {
    seq(|s|, i requires 0 <= i < |s| => s[|s| - 1 - i])
  }

  /** The buffer read backwards, with spaces up to the width before or after it. */
  function Field(buf: seq<char>, width: nat, flags: Flags): seq<char> {
    (if !flags.left && !flags.zeropad then Repeat(' ', width - |buf|) else [])
    + Reversed(buf)
    + (if flags.left then Repeat(' ', width - |buf|) else [])
  }

  function DigitsFor(value: nat, base: nat, flags: Flags): seq<char>
    requires 2 <= base <= 16
  {
    if !flags.precision || value != 0 then DigitsOf(value, base, flags.uppercase, 32) else []
  }

  /** A zero has no prefix. */
  function FlagsFor(value: nat, flags: Flags): Flags {
    if value == 0 then flags.(hash := false) else flags
  }

  /** What _ntoa_long and _ntoa_long_long put out. */
  function NumberText(value: nat, negative: bool, base: nat, prec: nat, width: nat, flags: Flags): seq<char>
    requires 2 <= base <= 16
  {
    var f := FlagsFor(value, flags);
    Field(NumberBuffer(DigitsFor(value, base, f), negative, base, prec, width, f), ZeroWidth(negative, width, f), f)
  }
}

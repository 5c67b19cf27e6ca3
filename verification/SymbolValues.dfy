/**
 * The values of assembler expressions: 32 bit integers, operators over them, names that stand for
 * other expressions, and what it means for such a system of definitions to have a value.
 */
module SymbolValues {
  import opened MachineWord

  const MIN_INT: int := -0x8000_0000

  type int32 = v: int | -0x8000_0000 <= v < 0x8000_0000

  datatype UnaryOp = Negate | Reverse
  datatype BinaryOp = Add | Subtract | Multiply | Divide | And | Or | Xor

  datatype Expr =
    | Int(value: int32)
    | Name(name: string)
    | Unary(uop: UnaryOp, arg: Expr)
    | Binary(op: BinaryOp, left: Expr, right: Expr)

  /** Trap stands for a division that the machine cannot carry out. */
  datatype Outcome = Value(value: int32) | Undefined(name: string) | Circular(name: string) | Trap {
    predicate IsError() { Undefined? || Circular? }
  }

  // Operators.

  function Word(v: int): nat { v % 0x1_0000_0000 }

  function Bit(u: nat, i: nat): nat
    decreases i
  {
    if i == 0 then u % 2 else Bit(u / 2, i - 1)
  }

  /** The low n bits of a word, the lowest first. */
  function LowBitsReversed(u: nat, n: nat): nat {
    if n == 0 then 0 else 2 * LowBitsReversed(u, n - 1) + Bit(u, n - 1)
  }

  /** The quotient, rounded towards zero. */
  function TruncatedQuotient(l: int32, r: int32): int32
    requires r != 0 && !(l == MIN_INT && r == -1)
  {
    var q := Magnitude(l) / Magnitude(r);
    QuotientFits(Magnitude(l), Magnitude(r));
    if (l >= 0) == (r >= 0) then q else -q
  }

  lemma QuotientFits(a: nat, b: nat)
    requires b > 0
    ensures 0 <= a / b <= a
    ensures b > 1 ==> a / b <= a / 2
  {
    assert a == b * (a / b) + a % b;
    if b > 1 {
      MultiplyMonotone(2, b, a / b);
    }
  }

  function Magnitude(v: int): nat { if v < 0 then -v else v }

  /** What an int holds after an operation whose exact result is x. */
  function Stored(x: int): int32 { Wrap(0x1_0000_0000, x) }

  function BitwiseAnd(a: nat, b: nat): nat
    decreases a + b
  {
    if a == 0 || b == 0 then 0
    else 2 * BitwiseAnd(a / 2, b / 2) + if a % 2 == 1 && b % 2 == 1 then 1 else 0
  }

  function BitwiseOr(a: nat, b: nat): nat
    decreases a + b
  {
    if a == 0 then b else if b == 0 then a
    else 2 * BitwiseOr(a / 2, b / 2) + if a % 2 == 1 || b % 2 == 1 then 1 else 0
  }

  function BitwiseXor(a: nat, b: nat): nat
    decreases a + b
  {
    if a == 0 then b else if b == 0 then a
    else 2 * BitwiseXor(a / 2, b / 2) + if a % 2 != b % 2 then 1 else 0
  }

  function ApplyUnary(op: UnaryOp, v: int32): int32 {
    match op
    case Negate => Stored(0 - v)
    case Reverse => Stored(LowBitsReversed(Word(v), 32))
  }

  function ApplyBinary(op: BinaryOp, l: int32, r: int32): Outcome {
    match op
    case Add => Value(Stored(l + r))
    case Subtract => Value(Stored(l - r))
    case Multiply => Value(Stored(l * r))
    case Divide => if r == 0 || (l == MIN_INT && r == -1) then Trap else Value(TruncatedQuotient(l, r))
    case And => Value(Stored(BitwiseAnd(Word(l), Word(r))))
    case Or => Value(Stored(BitwiseOr(Word(l), Word(r))))
    case Xor => Value(Stored(BitwiseXor(Word(l), Word(r))))
  }

  lemma {:induction false} BitOfDouble(a: nat, b: nat, i: nat)
    requires b < 2
    ensures Bit(2 * a + b, i) == if i == 0 then b else Bit(a, i - 1)
  {
    if i > 0 {
      assert (2 * a + b) / 2 == a;
    }
  }

  lemma {:induction false} BitIsBit(u: nat, i: nat)
    ensures Bit(u, i) < 2
    decreases i
  {
    if i > 0 {
      BitIsBit(u / 2, i - 1);
    }
  }

  /** Bit i of the reversed low n bits is bit n - 1 - i of the word, and there are n bits. */
  lemma {:induction false} ReversedBit(u: nat, n: nat, i: nat)
    ensures Bit(LowBitsReversed(u, n), i) == if i < n then Bit(u, n - 1 - i) else 0
    ensures LowBitsReversed(u, n) < Pow2(n)
    decreases n
  {
    if n == 0 {
      BitsOfZero(i);
    } else {
      BitIsBit(u, n - 1);
      ReversedBit(u, n - 1, if i == 0 then 0 else i - 1);
      BitOfDouble(LowBitsReversed(u, n - 1), Bit(u, n - 1), i);
    }
  }

  lemma {:induction false} BitsOfZero(i: nat)
    ensures Bit(0, i) == 0
  {
    if i > 0 {
      BitsOfZero(i - 1);
    }
  }

  lemma {:induction false} BitsDecide(u: nat, v: nat, n: nat)
    requires u < Pow2(n) && v < Pow2(n)
    requires forall i: nat :: i < n ==> Bit(u, i) == Bit(v, i)
    ensures u == v
    decreases n
  {
    if n > 0 {
      assert Bit(u, 0) == Bit(v, 0);
      forall i: nat | i < n - 1 ensures Bit(u / 2, i) == Bit(v / 2, i) {
        assert Bit(u, i + 1) == Bit(v, i + 1);
      }
      BitsDecide(u / 2, v / 2, n - 1);
    }
  }

  lemma WordOfWrap(u: nat)
    requires u < 0x1_0000_0000
    ensures Word(Stored(u)) == u
  {
  }

  /** Reversing the bits of a 32 bit value twice gives the value back. */
  lemma ReverseTwice(v: int32)
    ensures ApplyUnary(Reverse, ApplyUnary(Reverse, v)) == v
  {
    var u := Word(v);
    var r := LowBitsReversed(u, 32);
    var rr := LowBitsReversed(r, 32);
    Pow2Of32();
    ReversedBit(u, 32, 0);
    ReversedBit(r, 32, 0);
    forall i: nat | i < 32 ensures Bit(rr, i) == Bit(u, i) {
      ReversedBit(r, 32, i);
      ReversedBit(u, 32, 31 - i);
    }
    BitsDecide(rr, u, 32);
    WordOfWrap(r);
    WrapFits(0x1_0000_0000, v);
  }

  // What the operators compute.

  /** Bit i is the lowest one of the quotient by 2 to the power i. */
  lemma {:induction false} BitOfQuotient(u: nat, i: nat)
    ensures u / Pow2(i) >= 0 && Bit(u, i) == u / Pow2(i) % 2
    decreases i
  {
    if i > 0 {
      BitOfQuotient(u / 2, i - 1);
      HalfFirst(u, Pow2(i - 1));
    } else {
      DivisionIsUnique(u, 1, u, 0);
    }
  }

  lemma HalfFirst(u: nat, p: nat)
    requires p > 0
    ensures u / (2 * p) == u / 2 / p
  {
    var h := u / 2;
    var q, rest := h / p, h % p;
    assert u == 2 * h + u % 2 && h == p * q + rest;
    Associate(2, p, q);
    DivisionIsUnique(u, 2 * p, q, 2 * rest + u % 2);
  }

  lemma {:induction false} BitwiseBits(a: nat, b: nat, i: nat)
    ensures Bit(BitwiseAnd(a, b), i) == 1 <==> Bit(a, i) == 1 && Bit(b, i) == 1
    ensures Bit(BitwiseOr(a, b), i) == 1 <==> Bit(a, i) == 1 || Bit(b, i) == 1
    ensures Bit(BitwiseXor(a, b), i) == 1 <==> Bit(a, i) != Bit(b, i)
    decreases i
  {
    BitsOfZero(i);
    BitIsBit(a, i);
    BitIsBit(b, i);
    if a != 0 && b != 0 {
      BitOfDouble(BitwiseAnd(a / 2, b / 2), if a % 2 == 1 && b % 2 == 1 then 1 else 0, i);
      BitOfDouble(BitwiseOr(a / 2, b / 2), if a % 2 == 1 || b % 2 == 1 then 1 else 0, i);
      BitOfDouble(BitwiseXor(a / 2, b / 2), if a % 2 != b % 2 then 1 else 0, i);
      if i > 0 {
        BitwiseBits(a / 2, b / 2, i - 1);
      }
    }
  }

  lemma {:induction false} BitwiseFits(a: nat, b: nat, n: nat)
    requires a < Pow2(n) && b < Pow2(n)
    ensures BitwiseAnd(a, b) < Pow2(n) && BitwiseOr(a, b) < Pow2(n) && BitwiseXor(a, b) < Pow2(n)
    decreases n
  {
    if a != 0 && b != 0 {
      BitwiseFits(a / 2, b / 2, n - 1);
    }
  }

  /** A bit of what an int holds after an operator on bits. */
  lemma BitwiseStored(l: int32, r: int32, i: nat)
    ensures Bit(Word(Stored(BitwiseAnd(Word(l), Word(r)))), i) == 1 <==> Bit(Word(l), i) == 1 && Bit(Word(r), i) == 1
    ensures Bit(Word(Stored(BitwiseOr(Word(l), Word(r)))), i) == 1 <==> Bit(Word(l), i) == 1 || Bit(Word(r), i) == 1
    ensures Bit(Word(Stored(BitwiseXor(Word(l), Word(r)))), i) == 1 <==> Bit(Word(l), i) != Bit(Word(r), i)
  {
    Pow2Of32();
    BitwiseFits(Word(l), Word(r), 32);
    BitwiseBits(Word(l), Word(r), i);
    WordOfWrap(BitwiseAnd(Word(l), Word(r)));
    WordOfWrap(BitwiseOr(Word(l), Word(r)));
    WordOfWrap(BitwiseXor(Word(l), Word(r)));
  }

  /** Negation and reversal of an int. */
  lemma UnaryLaws(v: int32, i: nat)
    ensures (ApplyUnary(Negate, v) + v) % 0x1_0000_0000 == 0
    ensures i < 32 ==> Bit(ApplyUnary(Reverse, v) % 0x1_0000_0000, i) == Bit(v % 0x1_0000_0000, 31 - i)
  {
    Pow2Of32();
    ReversedBit(Word(v), 32, i);
    WordOfWrap(LowBitsReversed(Word(v), 32));
    WrapIsCongruent(0 - v);
  }

  lemma WrapIsCongruent(x: int)
    ensures (x - Stored(x)) % 0x1_0000_0000 == 0 && (Stored(x) - x) % 0x1_0000_0000 == 0
  {
    var k := WrapOffset(0x1_0000_0000, x);
    MultipleHasNoResidue(0x1_0000_0000, k);
    MultipleHasNoResidue(0x1_0000_0000, -k);
  }

  /** Sum, difference and product are those of the integers, but for multiples of 2 to the power 32. */
  lemma ArithmeticLaws(l: int32, r: int32)
    ensures ApplyBinary(Add, l, r).Value? && (ApplyBinary(Add, l, r).value - (l + r)) % 0x1_0000_0000 == 0
    ensures ApplyBinary(Subtract, l, r).Value? && (ApplyBinary(Subtract, l, r).value - (l - r)) % 0x1_0000_0000 == 0
    ensures ApplyBinary(Multiply, l, r).Value? && (ApplyBinary(Multiply, l, r).value - l * r) % 0x1_0000_0000 == 0
  {
    WrapIsCongruent(l + r);
    WrapIsCongruent(l - r);
    WrapIsCongruent(l * r);
    hide Stored;
  }

  /** Division traps exactly on zero and on the overflow, and otherwise leaves a rest of the sign of the dividend. */
  lemma DivisionLaws(l: int32, r: int32)
    ensures ApplyBinary(Divide, l, r) == Trap <==> r == 0 || (l == -0x8000_0000 && r == -1)
    ensures ApplyBinary(Divide, l, r) != Trap ==>
              && ApplyBinary(Divide, l, r).Value?
              && var rest := l - ApplyBinary(Divide, l, r).value * r;
                 && (if rest < 0 then 0 - rest else rest) < (if r < 0 then 0 - r else r)
                 && (rest > 0 ==> l > 0) && (rest < 0 ==> l < 0)
  {
    if r != 0 && !(l == MIN_INT && r == -1) {
      RestOfQuotient(Magnitude(l), Magnitude(r));
      SignedMultiple(Magnitude(l) / Magnitude(r), r, Magnitude(r), TruncatedQuotient(l, r), l >= 0);
      SignedRest(l, r, TruncatedQuotient(l, r) * r, Magnitude(r) * (Magnitude(l) / Magnitude(r)));
    }
  }

  lemma SignedRest(l: int, r: int, product: int, p: int)
    requires 0 <= p && 0 <= Magnitude(l) - p < Magnitude(r) && product == if l >= 0 then p else -p
    ensures var rest := l - product;
            && (if rest < 0 then -rest else rest) < (if r < 0 then -r else r)
            && (rest > 0 ==> l > 0) && (rest < 0 ==> l < 0)
  {
  }

  lemma RestOfQuotient(a: nat, b: nat)
    requires b > 0
    ensures 0 <= a - b * (a / b) < b && b * (a / b) >= 0
  {
  }

  lemma SignedMultiple(q: int, r: int, b: int, v: int, positive: bool)
    requires b == (if r < 0 then -r else r) && v == if positive == (r >= 0) then q else -q
    ensures v * r == if positive then b * q else -(b * q)
  {
    NegatedProduct(q, r);
  }

  lemma NegatedProduct(q: int, r: int)
    ensures (-q) * r == -(r * q) && q * r == r * q && (-r) * q == -(r * q)
  {
  }

  /** The operators on bits work bit by bit. */
  lemma BitwiseLaws(l: int32, r: int32, i: nat)
    ensures var a, b := Bit(l % 0x1_0000_0000, i), Bit(r % 0x1_0000_0000, i);
            && ApplyBinary(And, l, r).Value? && ApplyBinary(Or, l, r).Value? && ApplyBinary(Xor, l, r).Value?
            && (Bit(ApplyBinary(And, l, r).value % 0x1_0000_0000, i) == 1 <==> a == 1 && b == 1)
            && (Bit(ApplyBinary(Or, l, r).value % 0x1_0000_0000, i) == 1 <==> a == 1 || b == 1)
            && (Bit(ApplyBinary(Xor, l, r).value % 0x1_0000_0000, i) == 1 <==> a != b)
  {
    BitwiseStored(l, r, i);
    hide Stored, BitwiseAnd, BitwiseOr, BitwiseXor;
  }
}

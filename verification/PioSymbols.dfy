/**
 * Symbol resolution in the assembler: names are looked up among the global symbols and then in the
 * program, and a counter in every symbol under way detects circular definitions.
 */
module PioSymbols {
  import opened MachineWord
  import opened SymbolValues

  type Table = map<string, Expr>

  // What resolution computes.

  /** The outcome of resolving an expression while the started names are under way. */
  function Resolved(table: Table, started: set<string>, e: Expr): Outcome
    decreases table.Keys - started, e
  {
    match e
    case Int(v) => Value(v)
    case Name(n) =>
      if n !in table then Undefined(n)
      else if n in started then Circular(n)
      else Shrinks(table.Keys, started, n); Resolved(table, started + {n}, table[n])
    case Unary(op, arg) =>
      var v := Resolved(table, started, arg);
      if v.Value? then Value(ApplyUnary(op, v.value)) else v
    case Binary(op, left, right) =>
      var l := Resolved(table, started, left);
      if !l.Value? then l
      else
        var r := Resolved(table, started, right);
        if !r.Value? then r else ApplyBinary(op, l.value, r.value)
  }

  lemma Shrinks(names: set<string>, started: set<string>, n: string)
    requires n in names && n !in started
    ensures names - (started + {n}) < names - started
  {
    assert n in names - started;
  }

  // What an expression means, independently of the order of resolution.

  function NamesIn(e: Expr): set<string> {
    match e
    case Int(_) => {}
    case Name(n) => {n}
    case Unary(_, arg) => NamesIn(arg)
    case Binary(_, left, right) => NamesIn(left) + NamesIn(right)
  }

  /** A name is reached from an expression through k definitions. */
  ghost predicate ReachedIn(table: Table, e: Expr, n: string, k: nat)
    decreases k
  {
    if k == 0 then n in NamesIn(e)
    else exists m :: m in NamesIn(e) && m in table && ReachedIn(table, table[m], n, k - 1)
  }

  ghost predicate Reached(table: Table, e: Expr, n: string) {
    exists k: nat :: ReachedIn(table, e, n, k)
  }

  /** A name that has no definition, or whose definition reaches the name itself. */
  ghost predicate Bad(table: Table, n: string) {
    n !in table || Reached(table, table[n], n)
  }

  ghost predicate HasBadName(table: Table, e: Expr) {
    exists n :: Reached(table, e, n) && Bad(table, n)
  }

  /** The value of an expression whose names have the given outcomes. */
  function ValueIn(rho: map<string, Outcome>, e: Expr): Outcome
    requires NamesIn(e) <= rho.Keys
  {
    match e
    case Int(v) => Value(v)
    case Name(n) => rho[n]
    case Unary(op, arg) =>
      var v := ValueIn(rho, arg);
      if v.Value? then Value(ApplyUnary(op, v.value)) else v
    case Binary(op, left, right) =>
      var l := ValueIn(rho, left);
      var r := ValueIn(rho, right);
      if !l.Value? then l else if !r.Value? then r else ApplyBinary(op, l.value, r.value)
  }

  /** The outcomes satisfy every definition an expression reaches, taken as an equation. */
  ghost predicate Solves(table: Table, e: Expr, rho: map<string, Outcome>) {
    forall n :: Reached(table, e, n) ==>
      n in table && n in rho && NamesIn(table[n]) <= rho.Keys && rho[n] == ValueIn(rho, table[n])
  }

  // Reaching.

  lemma ReachedDirectly(table: Table, e: Expr, n: string)
    requires n in NamesIn(e)
    ensures Reached(table, e, n)
  {
    assert ReachedIn(table, e, n, 0);
  }

  lemma ReachedThrough(table: Table, e: Expr, m: string, n: string)
    requires m in NamesIn(e) && m in table && Reached(table, table[m], n)
    ensures Reached(table, e, n)
  {
    var k: nat :| ReachedIn(table, table[m], n, k);
    assert ReachedIn(table, e, n, k + 1);
  }

  /** What a part of an expression reaches, the expression reaches. */
  lemma ReachedFromPart(table: Table, part: Expr, e: Expr, n: string)
    requires NamesIn(part) <= NamesIn(e) && Reached(table, part, n)
    ensures Reached(table, e, n)
  {
    var k: nat :| ReachedIn(table, part, n, k);
    assert ReachedIn(table, e, n, k);
  }

  /** What a name reaches is the name and what its definition reaches. */
  lemma ReachedFromName(table: Table, m: string, n: string)
    ensures Reached(table, Name(m), n) <==> n == m || (m in table && Reached(table, table[m], n))
  {
    if Reached(table, Name(m), n) {
      var k: nat :| ReachedIn(table, Name(m), n, k);
      if k > 0 {
        assert ReachedIn(table, table[m], n, k - 1);
      }
    }
    if n == m {
      ReachedDirectly(table, Name(m), n);
    } else if m in table && Reached(table, table[m], n) {
      ReachedThrough(table, Name(m), m, n);
    }
  }

  /** What a pair of operands reaches, one of them reaches. */
  lemma ReachedFromOperands(table: Table, op: BinaryOp, left: Expr, right: Expr, n: string)
    ensures Reached(table, Binary(op, left, right), n) <==> Reached(table, left, n) || Reached(table, right, n)
  {
    var e := Binary(op, left, right);
    if Reached(table, e, n) {
      var k: nat :| ReachedIn(table, e, n, k);
      assert ReachedIn(table, left, n, k) || ReachedIn(table, right, n, k);
    }
    if Reached(table, left, n) {
      ReachedFromPart(table, left, e, n);
    }
    if Reached(table, right, n) {
      ReachedFromPart(table, right, e, n);
    }
  }

  lemma ReachedFromArgument(table: Table, op: UnaryOp, arg: Expr, n: string)
    ensures Reached(table, Unary(op, arg), n) <==> Reached(table, arg, n)
  {
    if Reached(table, Unary(op, arg), n) {
      ReachedFromPart(table, Unary(op, arg), arg, n);
    }
    if Reached(table, arg, n) {
      ReachedFromPart(table, arg, Unary(op, arg), n);
    }
  }

  // Success and failure.

  /** When a value comes out, no name under way and no undefined name is reached. */
  lemma {:induction false} ValueReachesOnlyFresh(table: Table, started: set<string>, e: Expr, n: string)
    requires Resolved(table, started, e).Value? && Reached(table, e, n)
    ensures n in table && n !in started
    decreases table.Keys - started, e
  {
    hide Reached;
    match e
    case Int(_) =>
      NothingFromInt(table, e, n);
    case Name(m) =>
      ReachedFromName(table, m, n);
      if n != m {
        Shrinks(table.Keys, started, m);
        ValueReachesOnlyFresh(table, started + {m}, table[m], n);
      }
    case Unary(op, arg) =>
      ReachedFromArgument(table, op, arg, n);
      ValueReachesOnlyFresh(table, started, arg, n);
    case Binary(op, left, right) =>
      ReachedFromOperands(table, op, left, right, n);
      if Reached(table, left, n) {
        ValueReachesOnlyFresh(table, started, left, n);
      } else {
        ValueReachesOnlyFresh(table, started, right, n);
      }
  }

  lemma NothingFromInt(table: Table, e: Expr, n: string)
    requires e.Int?
    ensures !Reached(table, e, n)
  {
  }

  /** When a value comes out, no definition on the way reaches its own name. */
  lemma {:induction false} ValueReachesNoCycle(table: Table, started: set<string>, e: Expr, n: string)
    requires Resolved(table, started, e).Value? && Reached(table, e, n)
    ensures !Bad(table, n)
    decreases table.Keys - started, e
  {
    hide Reached;
    match e
    case Int(_) =>
      NothingFromInt(table, e, n);
    case Name(m) =>
      ReachedFromName(table, m, n);
      Shrinks(table.Keys, started, m);
      if n != m {
        ValueReachesNoCycle(table, started + {m}, table[m], n);
      } else if Reached(table, table[m], m) {
        ValueReachesOnlyFresh(table, started + {m}, table[m], m);
      }
    case Unary(op, arg) =>
      ReachedFromArgument(table, op, arg, n);
      ValueReachesNoCycle(table, started, arg, n);
    case Binary(op, left, right) =>
      ReachedFromOperands(table, op, left, right, n);
      if Reached(table, left, n) {
        ValueReachesNoCycle(table, started, left, n);
      } else {
        ValueReachesNoCycle(table, started, right, n);
      }
  }

  /** The name in an error is reached, and is either not defined, or under way, or reached by its own definition. */
  lemma {:induction false} ErrorNamesCulprit(table: Table, started: set<string>, e: Expr)
    requires Resolved(table, started, e).IsError()
    ensures var r := Resolved(table, started, e);
            && Reached(table, e, r.name)
            && (r.Undefined? ==> r.name !in table)
            && (r.Circular? ==> r.name in table && (r.name in started || Reached(table, table[r.name], r.name)))
    decreases table.Keys - started, e
  {
    hide Reached;
    var n := Resolved(table, started, e).name;
    match e
    case Name(m) =>
      ReachedFromName(table, m, n);
      if m in table && m !in started {
        Shrinks(table.Keys, started, m);
        ErrorNamesCulprit(table, started + {m}, table[m]);
      }
    case Unary(op, arg) =>
      ErrorNamesCulprit(table, started, arg);
      ReachedFromArgument(table, op, arg, n);
    case Binary(op, left, right) =>
      if Resolved(table, started, left).IsError() {
        ErrorNamesCulprit(table, started, left);
      } else {
        ErrorNamesCulprit(table, started, right);
      }
      ReachedFromOperands(table, op, left, right, n);
  }

  /**
   * Unless the machine traps, resolution of an expression, with nothing under way, gives a value exactly
   * when no undefined and no circular name is reached, and an error exactly when one is.
   */
  lemma SucceedsIffNoBadName(table: Table, e: Expr)
    ensures var r := Resolved(table, {}, e);
            !r.Trap? ==> (r.Value? <==> !HasBadName(table, e)) && (r.IsError() <==> HasBadName(table, e))
  {
    if Resolved(table, {}, e).IsError() {
      ErrorNamesCulprit(table, {}, e);
      assert Bad(table, Resolved(table, {}, e).name);
    } else if Resolved(table, {}, e).Value? {
      forall n | Reached(table, e, n) ensures !Bad(table, n) {
        ValueReachesNoCycle(table, {}, e, n);
      }
    }
  }

  // The value is the solution of the definitions.

  /** Nothing reached is bad or under way. */
  ghost predicate Clear(table: Table, started: set<string>, e: Expr) {
    forall n :: Reached(table, e, n) ==> !Bad(table, n) && n !in started
  }

  /** A clear expression is clear in its parts, and behind its names. */
  lemma ClearBelow(table: Table, started: set<string>, e: Expr)
    requires Clear(table, started, e)
    ensures e.Name? ==> e.name in table && e.name !in started && Clear(table, started + {e.name}, table[e.name])
    ensures e.Unary? ==> Clear(table, started, e.arg)
    ensures e.Binary? ==> Clear(table, started, e.left) && Clear(table, started, e.right)
  {
    hide Reached;
    match e
    case Int(_) =>
    case Name(m) =>
      ReachedFromName(table, m, m);
      forall n | Reached(table, table[m], n) ensures !Bad(table, n) && n !in started + {m} {
        ReachedFromName(table, m, n);
      }
    case Unary(op, arg) =>
      forall n | Reached(table, arg, n) ensures !Bad(table, n) && n !in started {
        ReachedFromArgument(table, op, arg, n);
      }
    case Binary(op, left, right) =>
      forall n | Reached(table, left, n) || Reached(table, right, n) ensures !Bad(table, n) && n !in started {
        ReachedFromOperands(table, op, left, right, n);
      }
  }

  /** Names under way that are not reached do not matter. */
  lemma {:induction false} StartedDoesNotMatter(table: Table, s1: set<string>, s2: set<string>, e: Expr)
    requires Clear(table, s1, e) && Clear(table, s2, e)
    ensures Resolved(table, s1, e) == Resolved(table, s2, e)
    decreases table.Keys - s1, e
  {
    ClearBelow(table, s1, e);
    ClearBelow(table, s2, e);
    hide Clear;
    match e
    case Int(_) =>
    case Name(m) =>
      Shrinks(table.Keys, s1, m);
      StartedDoesNotMatter(table, s1 + {m}, s2 + {m}, table[m]);
    case Unary(_, arg) =>
      StartedDoesNotMatter(table, s1, s2, arg);
    case Binary(_, left, right) =>
      StartedDoesNotMatter(table, s1, s2, left);
      StartedDoesNotMatter(table, s1, s2, right);
  }

  /** What resolution gives for every name. */
  function Solution(table: Table): map<string, Outcome> {
    map n | n in table :: Resolved(table, {}, Name(n))
  }

  lemma {:induction false} SolutionValue(table: Table, e: Expr)
    requires NamesIn(e) <= table.Keys
    ensures ValueIn(Solution(table), e) == Resolved(table, {}, e)
  {
    match e
    case Int(_) =>
    case Name(_) =>
    case Unary(_, arg) =>
      SolutionValue(table, arg);
    case Binary(_, left, right) =>
      SolutionValue(table, left);
      SolutionValue(table, right);
  }

  /** Without bad names, what resolution gives for every name solves the definitions. */
  lemma SolutionSolves(table: Table, e: Expr)
    requires !HasBadName(table, e)
    ensures Solves(table, e, Solution(table))
  {
    hide Reached;
    forall n | Reached(table, e, n)
      ensures n in table && NamesIn(table[n]) <= table.Keys && Solution(table)[n] == ValueIn(Solution(table), table[n])
    {
      assert !Bad(table, n);
      forall m | Reached(table, table[n], m) ensures !Bad(table, m) && m != n {
        ReachedBeyond(table, e, n, m);
      }
      forall m | m in NamesIn(table[n]) ensures m in table {
        ReachedDirectly(table, table[n], m);
      }
      SolutionValue(table, table[n]);
      assert Clear(table, {}, table[n]) && Clear(table, {n}, table[n]);
      assert {} + {n} == {n};
      StartedDoesNotMatter(table, {n}, {}, table[n]);
    }
  }

  lemma ReachedBeyond(table: Table, e: Expr, n: string, m: string)
    requires Reached(table, e, n) && n in table && Reached(table, table[n], m)
    ensures Reached(table, e, m)
  {
    var k: nat :| ReachedIn(table, e, n, k);
    ReachedInBeyond(table, e, n, m, k);
  }

  lemma {:induction false} ReachedInBeyond(table: Table, e: Expr, n: string, m: string, k: nat)
    requires ReachedIn(table, e, n, k) && n in table && Reached(table, table[n], m)
    ensures Reached(table, e, m)
    decreases k
  {
    if k == 0 {
      ReachedThrough(table, e, n, m);
    } else {
      var p :| p in NamesIn(e) && p in table && ReachedIn(table, table[p], n, k - 1);
      ReachedInBeyond(table, table[p], n, m, k - 1);
      ReachedThrough(table, e, p, m);
    }
  }

  /** Whatever solves the definitions gives the expression the value that resolution computes. */
  lemma {:induction false} SolutionsAgree(table: Table, started: set<string>, e: Expr, rho: map<string, Outcome>)
    requires Clear(table, started, e) && Solves(table, e, rho)
    ensures NamesIn(e) <= rho.Keys && Resolved(table, started, e) == ValueIn(rho, e)
    decreases table.Keys - started, e
  {
    ClearBelow(table, started, e);
    hide Clear, Reached;
    match e
    case Int(_) =>
    case Name(m) =>
      ReachedFromName(table, m, m);
      forall n | Reached(table, table[m], n) ensures Reached(table, e, n) {
        ReachedFromName(table, m, n);
      }
      Shrinks(table.Keys, started, m);
      SolutionsAgree(table, started + {m}, table[m], rho);
    case Unary(op, arg) =>
      forall n | Reached(table, arg, n) ensures Reached(table, e, n) {
        ReachedFromArgument(table, op, arg, n);
      }
      SolutionsAgree(table, started, arg, rho);
    case Binary(op, left, right) =>
      forall n | Reached(table, left, n) || Reached(table, right, n) ensures Reached(table, e, n) {
        ReachedFromOperands(table, op, left, right, n);
      }
      SolutionsAgree(table, started, left, rho);
      SolutionsAgree(table, started, right, rho);
  }

  /**
   * Without undefined and circular names the definitions have a solution, every solution gives the
   * expression the same value, and that is the one resolution computes.
   */
  lemma ResolutionIsTheSolution(table: Table, e: Expr, rho: map<string, Outcome>)
    requires !HasBadName(table, e)
    ensures Solves(table, e, Solution(table))
    ensures Solves(table, e, rho) ==> NamesIn(e) <= rho.Keys && Resolved(table, {}, e) == ValueIn(rho, e)
  {
    SolutionSolves(table, e);
    if Solves(table, e, rho) {
      SolutionsAgree(table, {}, e, rho);
    }
  }

  /** What expressions stand for, if their operands have values. */
  lemma ExpressionLaws(table: Table, e: Expr)
    requires Resolved(table, {}, e).Value?
    ensures var v := Resolved(table, {}, e).value;
            match e
            case Int(n) => v == n
            case Name(n) => n in table && Resolved(table, {n}, table[n]) == Value(v)
            case Unary(op, arg) =>
              var a := Resolved(table, {}, arg);
              && a.Value? && (op == Negate ==> (v + a.value) % 0x1_0000_0000 == 0)
              && (op == Reverse ==> forall i: nat :: i < 32 ==>
                    Bit(v % 0x1_0000_0000, i) == Bit(a.value % 0x1_0000_0000, 31 - i))
            case Binary(op, left, right) =>
              var a, b := Resolved(table, {}, left), Resolved(table, {}, right);
              && a.Value? && b.Value?
              && (op == Add ==> (v - (a.value + b.value)) % 0x1_0000_0000 == 0)
              && (op == Subtract ==> (v - (a.value - b.value)) % 0x1_0000_0000 == 0)
              && (op == Multiply ==> (v - a.value * b.value) % 0x1_0000_0000 == 0)
              && (op == Divide ==> IsQuotient(a.value, b.value, v))
              && (op == And || op == Or || op == Xor ==> forall i: nat :: IsBitwise(op, a.value, b.value, v, i))
  {
    hide ApplyUnary, ApplyBinary, IsQuotient, IsBitwise;
    match e
    case Int(_) =>
    case Name(n) =>
      assert {} + {n} == {n};
    case Unary(op, arg) =>
      UnaryOfOperand(op, Resolved(table, {}, arg).value);
    case Binary(op, left, right) =>
      var a, b := Resolved(table, {}, left).value, Resolved(table, {}, right).value;
      ArithmeticLaws(a, b);
      QuotientOfOperands(op, a, b);
      forall i: nat ensures op == And || op == Or || op == Xor ==> IsBitwise(op, a, b, ApplyBinary(op, a, b).value, i) {
        BitwiseOfOperands(op, a, b, i);
      }
  }

  /** A quotient that leaves a rest smaller than the divisor, of the sign of the dividend. */
  ghost predicate IsQuotient(l: int, r: int, v: int) {
    var rest := l - v * r;
    && r != 0 && (if rest < 0 then -rest else rest) < (if r < 0 then -r else r)
    && (rest > 0 ==> l > 0) && (rest < 0 ==> l < 0)
  }

  ghost predicate IsBitwise(op: BinaryOp, l: int, r: int, v: int, i: nat) {
    var a, b := Bit(l % 0x1_0000_0000, i), Bit(r % 0x1_0000_0000, i);
    Bit(v % 0x1_0000_0000, i) == 1
    <==> if op == And then a == 1 && b == 1 else if op == Or then a == 1 || b == 1 else a != b
  }

  lemma UnaryOfOperand(op: UnaryOp, v: int32)
    ensures op == Negate ==> (ApplyUnary(op, v) + v) % 0x1_0000_0000 == 0
    ensures op == Reverse ==>
              forall i: nat :: i < 32 ==> Bit(ApplyUnary(op, v) % 0x1_0000_0000, i) == Bit(v % 0x1_0000_0000, 31 - i)
  {
    UnaryLaws(v, 0);
    forall i: nat | i < 32
      ensures op == Reverse ==> Bit(ApplyUnary(op, v) % 0x1_0000_0000, i) == Bit(v % 0x1_0000_0000, 31 - i)
    {
      UnaryLaws(v, i);
    }
  }

  lemma QuotientOfOperands(op: BinaryOp, l: int32, r: int32)
    ensures op == Divide && ApplyBinary(op, l, r).Value? ==> IsQuotient(l, r, ApplyBinary(op, l, r).value)
  {
    DivisionLaws(l, r);
    hide ApplyBinary;
  }

  lemma BitwiseOfOperands(op: BinaryOp, l: int32, r: int32, i: nat)
    ensures op == And || op == Or || op == Xor ==>
              ApplyBinary(op, l, r).Value? && IsBitwise(op, l, r, ApplyBinary(op, l, r).value, i)
  {
    BitwiseLaws(l, r, i);
    hide ApplyBinary;
  }

  // The assembler.

  class Symbol {
    const name: string
    const value: Expr
    const isLabel: bool
    var resolveStarted: int

    constructor (name: string, value: Expr, isLabel: bool)
      ensures this.name == name && this.value == value && this.isLabel == isLabel && resolveStarted == 0
    {
      this.name := name;
      this.value := value;
      this.isLabel := isLabel;
      resolveStarted := 0;
    }
  }

  lemma {:induction false} HigherBitsDoNotMatter(u: nat, n: nat, k: nat)
    requires k < n
    ensures Bit(u + Pow2(n), k) == Bit(u, k)
    decreases n
  {
    if k > 0 {
      assert (u + Pow2(n)) / 2 == u / 2 + Pow2(n - 1);
      HigherBitsDoNotMatter(u / 2, n - 1, k - 1);
    }
  }

  lemma WordOfHalf(value: int32)
    ensures Word(value / 2) == Word(value) / 2 + if value < 0 then 0x8000_0000 else 0
  {
  }

  /** An arithmetic shift moves the lower 31 bits down. */
  lemma ShiftedBit(value: int32, k: nat)
    requires k < 31
    ensures Bit(Word(value / 2), k) == Bit(Word(value), k + 1)
  {
    hide Pow2, Word;
    Pow2Of32();
    WordOfHalf(value);
    assert Bit(Word(value), k + 1) == Bit(Word(value) / 2, k);
    hide Bit;
    HigherBitsDoNotMatter(Word(value) / 2, 31, k);
  }

  /** The low bits of a value are those of a word from bit i on. */
  ghost predicate ShiftedDown(value: int32, u: nat, i: nat) {
    forall k: nat :: k < 32 - i ==> Bit(Word(value), k) == Bit(u, i + k)
  }

  lemma LowestBit(value: int32)
    ensures Bit(Word(value), 0) == value % 2
  {
  }

  lemma ShiftOnce(value: int32, u: nat, i: nat)
    requires i < 32 && ShiftedDown(value, u, i)
    ensures ShiftedDown(value / 2, u, i + 1)
    ensures value % 2 == Bit(u, i)
  {
    LowestBit(value);
    hide Word, Bit;
    assert Bit(Word(value), 0) == Bit(u, i + 0);
    forall k: nat | k < 31 - i ensures Bit(Word(value / 2), k) == Bit(u, i + 1 + k) {
      ShiftedBit(value, k);
      assert Bit(Word(value), k + 1) == Bit(u, i + (k + 1));
    }
  }

  /** The loop of the reverse operator. */
  method ReverseBits(v: int32) returns (r: int32)
    ensures r == ApplyUnary(Reverse, v)
  {
    var result: nat := 0;
    var value: int32 := v;
    assert ShiftedDown(value, Word(v), 0);
    hide ShiftedDown, Word, Bit, Stored;
    for i := 0 to 32
      invariant result == LowBitsReversed(Word(v), i)
      invariant ShiftedDown(value, Word(v), i)
    {
      ShiftOnce(value, Word(v), i);
      result := 2 * result;
      if value % 2 == 1 {
        result := result + 1;
      }
      value := value / 2;
    }
    r := Stored(result);
  }

  class Program {
    var symbols: map<string, Symbol>

    constructor ()
      ensures symbols == map[]
    {
      symbols := map[];
    }
  }

  class PioAssembler {
    const globals: Program

    constructor ()
      ensures fresh(globals) && globals.symbols == map[]
    {
      globals := new Program();
    }

    /** Every symbol is filed under its own name, in one place. */
    ghost predicate Valid(program: Program)
      reads globals, program
    {
      && (forall n :: n in globals.symbols ==> globals.symbols[n].name == n)
      && (forall n :: n in program.symbols ==> program.symbols[n].name == n)
      && (program == globals || globals.symbols.Keys !! program.symbols.Keys)
    }

    function GetSymbol(name: string, program: Program): (symbol: Symbol?)
      reads globals, program
      ensures symbol != null <==> name in TableOf(program)
      ensures symbol != null ==> symbol in Symbols(program) && symbol.value == TableOf(program)[name]
    {
      if name in globals.symbols then globals.symbols[name]
      else if name in program.symbols then program.symbols[name]
      else null
    }

    ghost function TableOf(program: Program): Table
      reads globals, program
    {
      map n | n in globals.symbols.Keys + program.symbols.Keys ::
        if n in globals.symbols then globals.symbols[n].value else program.symbols[n].value
    }

    ghost function Symbols(program: Program): set<Symbol>
      reads globals, program
    {
      (set n | n in globals.symbols :: globals.symbols[n]) + (set n | n in program.symbols :: program.symbols[n])
    }

    /** The names whose resolution is under way. */
    ghost function Started(program: Program): set<string>
      reads globals, program, Symbols(program)
    {
      set n | n in TableOf(program) && GetSymbol(n, program) != null && GetSymbol(n, program).resolveStarted != 0
    }

    ghost predicate Counted(program: Program)
      reads globals, program, Symbols(program)
    {
      forall s :: s in Symbols(program) ==> s.resolveStarted >= 0
    }

    /** Refuses a name that is already visible in the program. */
    method AddSymbol(symbol: Symbol, program: Program) returns (ok: bool)
      requires Valid(program)
      modifies program
      ensures Valid(program)
      ensures ok <==> symbol.name !in old(TableOf(program))
      ensures program.symbols == if ok then old(program.symbols)[symbol.name := symbol] else old(program.symbols)
      ensures ok ==> GetSymbol(symbol.name, program) == symbol
    {
      var existing := GetSymbol(symbol.name, program);
      if existing != null {
        return false;
      }
      program.symbols := program.symbols[symbol.name := symbol];
      return true;
    }

    /**
     * Resolves an expression in the scope of a program; unless the machine traps, every counter is
     * left as it was found, whether a value or an error comes out.
     */
    method Resolve(e: Expr, program: Program) returns (r: Outcome)
      requires Valid(program) && Counted(program)
      modifies Symbols(program)
      ensures r == Resolved(TableOf(program), old(Started(program)), e)
      ensures !r.Trap? ==> forall s :: s in Symbols(program) ==> s.resolveStarted == old(s.resolveStarted)
      decreases TableOf(program).Keys - Started(program), e
    {
      match e
      case Int(v) =>
        r := Value(v);
      case Name(n) =>
        r := ResolveName(n, program);
      case Unary(op, arg) =>
        r := Resolve(arg, program);
        if r.Value? {
          match op
          case Negate =>
            r := Value(Stored(0 - r.value));
          case Reverse =>
            var reversed := ReverseBits(r.value);
            r := Value(reversed);
        }
      case Binary(op, left, right) =>
        r := Resolve(left, program);
        if r.Value? {
          var l := r.value;
          assert Started(program) == old(Started(program));
          r := Resolve(right, program);
          if r.Value? {
            r := ApplyBinary(op, l, r.value);
          }
        }
    }

    method ResolveName(name: string, program: Program) returns (r: Outcome)
      requires Valid(program) && Counted(program)
      modifies Symbols(program)
      ensures r == Resolved(TableOf(program), old(Started(program)), Name(name))
      ensures !r.Trap? ==> forall s :: s in Symbols(program) ==> s.resolveStarted == old(s.resolveStarted)
      decreases TableOf(program).Keys - Started(program), Name(name), 0
    {
      var symbol := GetSymbol(name, program);
      if symbol == null {
        return Undefined(name);
      }
      if symbol.resolveStarted != 0 {
        return Circular(name);
      }
      symbol.resolveStarted := symbol.resolveStarted + 1;
      Shrinks(TableOf(program).Keys, old(Started(program)), name);
      assert Started(program) == old(Started(program)) + {name};
      r := Resolve(symbol.value, program);
      if !r.Trap? {
        symbol.resolveStarted := symbol.resolveStarted - 1;
      }
    }
  }
}

/**
 * Assembling single PIO instructions to 16 bit words, and disassembling the words again.
 */
module PioCodec {
  import opened MachineWord
  import opened Options
  import opened PioSymbols
  import opened SymbolValues

  // Instructions as the grammar builds them; V is an expression, or the value of one.

  datatype Condition = Always | XZero | XDecrement | YZero | YDecrement | XNotY | PinHigh | OsrNotEmpty

  datatype Place = Pins | X | Y | Null | Pindirs | Status | Pc | Isr | Osr | Exec

  datatype WaitSource = Gpio | Pin | Irq

  datatype MovOp = Plain | Invert | BitReverse

  datatype IrqMode = Set | SetWait | Clear

  datatype Op<V> =
    | Jmp(cond: Condition, target: V)
    | Wait(polarity: V, source: WaitSource, index: V, relative: bool)
    | In(from: Place, count: V)
    | Out(to: Place, count: V)
    | Push(ifFull: bool, block: bool)
    | Pull(ifEmpty: bool, block: bool)
    | Mov(to: Place, movOp: MovOp, from: Place)
    | SignalIrq(mode: IrqMode, irq: V, relative: bool)
    | SetPlace(to: Place, data: V)
    | Nop
  {
    /** What the grammar can write. */
    predicate Grammatical() {
      match this
      case Wait(_, source, _, relative) => relative ==> source == Irq
      case In(from, _) => from in {Pins, X, Y, Null, Isr, Osr, Status}
      case Out(to, _) => to in {Pins, X, Y, Null, Pindirs, Isr, Pc, Exec}
      case Mov(to, _, from) => to in {Pins, X, Y, Exec, Pc, Isr, Osr} && from in {Pins, X, Y, Null, Status, Isr, Osr}
      case SetPlace(to, _) => to in {Pins, X, Y, Pindirs}
      case _ => true
    }
  }

  datatype Instruction = Instruction(op: Op<Expr>, side: Option<Expr>, delay: Expr)

  /** An instruction whose expressions have been replaced by their values. */
  datatype Meaning = Meaning(op: Op<int32>, side: Option<int32>, delay: int32)

  // The settings of a program.

  datatype Settings = Settings(hasSideSet: bool, optional: bool, bits: nat, delayMax: int, sideSetMax: int)

  /** program::finalize, for the value of the side set directive. */
  function Finalize(sideSet: Option<int32>, optional: bool): Option<Settings> {
    match sideSet
    case None => Some(Settings(false, optional, 0, 31, 0))
    case Some(n) =>
      if n < 0 then None
      else
        var bits := if optional then n + 1 else n;
        if bits > 5 then None else Some(Settings(true, optional, bits, Pow2(5 - bits) - 1, Pow2(n) - 1))
  }

  // Encoding.

  /** Shifts, and the bits below a shift. */
  function Shl(v: nat, k: nat): nat { v * Pow2(k) }

  function Shr(v: nat, k: nat): nat {
    QuotientFits(v, Pow2(k));
    v / Pow2(k)
  }

  function Below(v: nat, k: nat): nat { v % Pow2(k) }

  datatype Raw = Raw(kind: nat, arg1: nat, arg2: nat)

  function ConditionCode(c: Condition): nat {
    match c
    case Always => 0 case XZero => 1 case XDecrement => 2 case YZero => 3
    case YDecrement => 4 case XNotY => 5 case PinHigh => 6 case OsrNotEmpty => 7
  }

  function PlaceCode(p: Place): nat {
    match p
    case Pins => 0 case X => 1 case Y => 2 case Null => 3 case Pindirs => 4
    case Status => 5 case Pc => 5 case Isr => 6 case Osr => 7 case Exec => 7
  }

  function MovCode(p: Place): nat { if p == Exec then 4 else PlaceCode(p) }

  function SourceCode(s: WaitSource): nat { match s case Gpio => 0 case Pin => 1 case Irq => 2 }

  function MovOpCode(op: MovOp): nat { match op case Plain => 0 case Invert => 1 case BitReverse => 2 }

  function ModeCode(m: IrqMode): nat { match m case Set => 0 case SetWait => 1 case Clear => 2 }

  function Flag(b: bool, weight: nat): nat { if b then weight else 0 }

  /** The raw_encode family, for operand values; length is the number of instructions of the program. */
  function RawEncode(op: Op<int32>, length: nat): Option<Raw> {
    match op
    case Jmp(cond, target) =>
      if target < 0 || target >= length then None else Some(Raw(0, ConditionCode(cond), target))
    case Wait(polarity, source, index, relative) =>
      if !(0 <= polarity <= 1) then None
      else if !(0 <= index <= if source == Irq then 7 else 31) then None
      else Some(Raw(1, BitwiseOr(4 * polarity, SourceCode(source)), BitwiseOr(index, Flag(relative, 0x10))))
    case In(from, count) =>
      if count < 1 || count > 32 then None else Some(Raw(2, PlaceCode(from), count % 32))
    case Out(to, count) =>
      if count < 1 || count > 32 then None else Some(Raw(3, PlaceCode(to), count % 32))
    case Push(ifFull, block) =>
      Some(Raw(4, BitwiseOr(Flag(block, 1), Flag(ifFull, 2)), 0))
    case Pull(ifEmpty, block) =>
      Some(Raw(4, BitwiseOr(BitwiseOr(Flag(block, 1), Flag(ifEmpty, 2)), 4), 0))
    case Mov(to, movOp, from) =>
      Some(Raw(5, MovCode(to), BitwiseOr(MovCode(from), 8 * MovOpCode(movOp))))
    case SignalIrq(mode, irq, relative) =>
      if !(0 <= irq <= 7) then None else Some(Raw(6, ModeCode(mode), BitwiseOr(irq, Flag(relative, 0x10))))
    case SetPlace(to, data) =>
      if data < 0 || data > 31 then None else Some(Raw(7, PlaceCode(to), data))
    case Nop =>
      Some(Raw(5, 2, 2))
  }

  /** The fields of a word put together. */
  function Packed(kind: nat, delaySide: nat, arg1: nat, arg2: nat): nat {
    BitwiseOr(BitwiseOr(BitwiseOr(kind * 0x2000, delaySide * 0x100), arg1 * 0x20), arg2)
  }

  /** instruction::encode, for operand values. */
  function EncodeMeaning(m: Meaning, length: nat, s: Settings): Option<nat>
    requires s.bits <= 5
  {
    match RawEncode(m.op, length)
    case None => None
    case Some(raw) =>
      if m.delay < 0 || m.delay > s.delayMax then None
      else if m.side.Some? && (m.side.value < 0 || m.side.value > s.sideSetMax) then None
      else
        var sideBits := match m.side
          case None => 0
          case Some(v) => BitwiseOr(Shl(v, 5 - s.bits), Flag(s.optional, 0x10));
        Some(Packed(raw.kind, BitwiseOr(m.delay, sideBits), raw.arg1, raw.arg2))
  }

  // Disassembly.

  datatype Token = Text(string) | Number(nat)

  /** A line of disassembly: the mnemonic, the operands, the side set value if shown, and the delay. */
  datatype Listing = Reserved | Line(mnemonic: string, operands: seq<Token>, side: Option<nat>, delay: nat)

  const JUMP_CONDITIONS: seq<string> := ["", "!x, ", "x--, ", "!y, ", "y--, ", "x != y, ", "pin, ", "!osre, "]
  const SOURCES: seq<string> := ["pins", "x", "y", "null", "", "status", "isr", "osr"]
  const OUT_DESTS: seq<string> := ["pins", "x", "y", "null", "pindirs", "pc", "isr", "exec"]
  const MOV_DESTS: seq<string> := ["pins", "x", "y", "", "exec", "pc", "isr", "osr"]
  const SET_DESTS: seq<string> := ["pins", "x", "y", "", "pindirs", "", "", ""]

  /** The mnemonic and the operands of a word, if it is not reserved. */
  function Guts(kind: nat, arg1: nat, arg2: nat): Option<(string, seq<Token>)>
    requires kind < 8 && arg1 < 8 && arg2 < 32
  {
    if kind == 0 then Some(("jmp", [Text(JUMP_CONDITIONS[arg1]), Number(arg2)]))
    else if kind == 1 then
      var polarity := Text(if arg1 / 4 == 1 then "1 " else "0 ");
      var source := arg1 % 4;
      if source == 0 then Some(("wait", [polarity, Text("gpio, "), Number(arg2)]))
      else if source == 1 then Some(("wait", [polarity, Text("pin, "), Number(arg2)]))
      else if source == 2 then
        if arg2 / 8 % 2 == 1 then None
        else Some(("wait", [polarity, Text("irq, "), Number(arg2 % 8)] + if arg2 / 16 == 1 then [Text(" rel")] else []))
      else Some(("wait", [polarity]))
    else if kind == 2 then
      if SOURCES[arg1] == "" then None
      else Some(("in", [Text(SOURCES[arg1]), Text(", "), Number(if arg2 != 0 then arg2 else 32)]))
    else if kind == 3 then
      Some(("out", [Text(OUT_DESTS[arg1]), Text(", "), Number(if arg2 != 0 then arg2 else 32)]))
    else if kind == 4 then
      if arg2 != 0 then None
      else
        var block := Text(if arg1 % 2 == 1 then "block" else "noblock");
        if arg1 / 4 == 1 then Some(("pull", (if arg1 / 2 % 2 == 1 then [Text("ifempty ")] else []) + [block]))
        else Some(("push", (if arg1 / 2 % 2 == 1 then [Text("iffull ")] else []) + [block]))
    else if kind == 5 then
      var dest := MOV_DESTS[arg1];
      var source := SOURCES[arg2 % 8];
      var operation := arg2 / 8;
      if source == "" || dest == "" || operation == 3 then None
      else if dest == source && operation == 0 && (arg1 == 1 || arg2 == 2) then Some(("nop", []))
      else
        Some(("mov", [Text(dest), Text(", ")]
                     + (if operation == 1 then [Text("!")] else if operation == 2 then [Text("::")] else [])
                     + [Text(source)]))
    else if kind == 6 then
      if arg1 / 4 == 1 || arg2 / 8 % 2 == 1 then None
      else
        var mode := Text(if arg1 / 2 % 2 == 1 then "clear " else if arg1 % 2 == 1 then "wait " else "nowait ");
        Some(("irq", [mode, Number(arg2 % 8)] + if arg2 / 16 == 1 then [Text(" rel")] else []))
    else
      if SET_DESTS[arg1] == "" then None
      else Some(("set", [Text(SET_DESTS[arg1]), Text(", "), Number(arg2)]))
  }

  /** The line for the operation found and the five bits of delay and side set. */
  function ListingOf(guts: Option<(string, seq<Token>)>, d: nat, bits: nat, optional: bool): Listing
    requires d < 32 && bits <= 5
  {
    match guts
    case None => Reserved
    case Some(g) =>
      var side :=
        if bits != 0 && (!optional || d / 16 == 1) then Some(Shr(if optional then d % 16 else d, 5 - bits)) else None;
      Line(g.0, g.1, side, Below(d, 5 - bits))
  }

  /** disassemble; bits counts the presence bit of an optional side set. */
  function Disassemble(word: nat, bits: nat, optional: bool): Listing
    requires word < 0x1_0000 && bits <= 5
  {
    ListingOf(Guts(word / 0x2000, word / 0x20 % 8, word % 0x20), word / 0x100 % 0x20, bits, optional)
  }

  // What the listing of an instruction should be.

  function ConditionText(c: Condition): string {
    match c
    case Always => "" case XZero => "!x, " case XDecrement => "x--, " case YZero => "!y, "
    case YDecrement => "y--, " case XNotY => "x != y, " case PinHigh => "pin, " case OsrNotEmpty => "!osre, "
  }

  function PlaceText(p: Place): string {
    match p
    case Pins => "pins" case X => "x" case Y => "y" case Null => "null" case Pindirs => "pindirs"
    case Status => "status" case Pc => "pc" case Isr => "isr" case Osr => "osr" case Exec => "exec"
  }

  function MovOpText(op: MovOp): seq<Token> {
    match op case Plain => [] case Invert => [Text("!")] case BitReverse => [Text("::")]
  }

  function Relative(relative: bool): seq<Token> { if relative then [Text(" rel")] else [] }

  function Shown(n: int32): Token { Number(if n < 0 then 0 else n) }

  /** A move that does nothing: the two forms that are listed as nop. */
  predicate IsNop(op: Op<int32>) {
    op.Nop? || (op.Mov? && op.movOp == Plain && op.to == op.from && op.to in {X, Y})
  }

  function Mnemonic(op: Op<int32>): string {
    if IsNop(op) then "nop" else
    match op
    case Jmp(_, _) => "jmp" case Wait(_, _, _, _) => "wait" case In(_, _) => "in" case Out(_, _) => "out"
    case Push(_, _) => "push" case Pull(_, _) => "pull" case Mov(_, _, _) => "mov"
    case SignalIrq(_, _, _) => "irq" case SetPlace(_, _) => "set" case Nop => "nop"
  }

  function Operands(op: Op<int32>): seq<Token> {
    if IsNop(op) then [] else
    match op
    case Jmp(cond, target) => [Text(ConditionText(cond)), Shown(target)]
    case Wait(polarity, source, index, relative) =>
      [Text(if polarity == 1 then "1 " else "0 "),
       Text(match source case Gpio => "gpio, " case Pin => "pin, " case Irq => "irq, "),
       Shown(index)] + Relative(relative)
    case In(from, count) => [Text(PlaceText(from)), Text(", "), Shown(count)]
    case Out(to, count) => [Text(PlaceText(to)), Text(", "), Shown(count)]
    case Push(ifFull, block) =>
      (if ifFull then [Text("iffull ")] else []) + [Text(if block then "block" else "noblock")]
    case Pull(ifEmpty, block) =>
      (if ifEmpty then [Text("ifempty ")] else []) + [Text(if block then "block" else "noblock")]
    case Mov(to, movOp, from) => [Text(PlaceText(to)), Text(", ")] + MovOpText(movOp) + [Text(PlaceText(from))]
    case SignalIrq(mode, irq, relative) =>
      [Text(match mode case Set => "nowait " case SetWait => "wait " case Clear => "clear "), Shown(irq)]
      + Relative(relative)
    case SetPlace(to, data) => [Text(PlaceText(to)), Text(", "), Shown(data)]
    case Nop => []
  }

  // Bits.

  lemma {:induction false} OrCommutes(a: nat, b: nat)
    ensures BitwiseOr(a, b) == BitwiseOr(b, a)
    decreases a + b
  {
    if a != 0 && b != 0 {
      OrCommutes(a / 2, b / 2);
    }
  }

  /** Or of disjoint fields is their sum. */
  lemma {:induction false} OrDisjoint(a: nat, k: nat, b: nat)
    requires b < Pow2(k)
    ensures BitwiseOr(a * Pow2(k), b) == a * Pow2(k) + b
    decreases k
  {
    if a > 0 && b > 0 {
      var p := Pow2(k - 1);
      assert Pow2(k) == 2 * p;
      Associate(a, 2, p);
      assert a * Pow2(k) == 2 * (a * p);
      MultiplyMonotone(1, a, p);
      OrDisjoint(a, k - 1, b / 2);
    }
  }

  lemma SmallPowers()
    ensures Pow2(0) == 1 && Pow2(1) == 2 && Pow2(2) == 4 && Pow2(3) == 8 && Pow2(4) == 16 && Pow2(5) == 32
    ensures Pow2(8) == 0x100 && Pow2(13) == 0x2000
  {
    assert Pow2(8) == 256;
    Pow2Adds(8, 5);
  }

  /** The four fields of a word do not overlap. */
  lemma WordIsSum(kind: nat, delaySide: nat, arg1: nat, arg2: nat)
    requires kind < 8 && delaySide < 32 && arg1 < 8 && arg2 < 32
    ensures Packed(kind, delaySide, arg1, arg2)
            == kind * 0x2000 + delaySide * 0x100 + arg1 * 0x20 + arg2
  {
    SmallPowers();
    hide Pow2, BitwiseOr;
    OrDisjoint(kind, 13, delaySide * 0x100);
    OrDisjoint(kind * 32 + delaySide, 8, arg1 * 0x20);
    OrDisjoint(kind * 256 + delaySide * 8 + arg1, 5, arg2);
  }

  lemma FieldsOfWord(kind: nat, delaySide: nat, arg1: nat, arg2: nat)
    requires kind < 8 && delaySide < 32 && arg1 < 8 && arg2 < 32
    ensures var w := kind * 0x2000 + delaySide * 0x100 + arg1 * 0x20 + arg2;
            && w < 0x1_0000 && w / 0x2000 == kind && w / 0x100 % 0x20 == delaySide
            && w / 0x20 % 8 == arg1 && w % 0x20 == arg2
  {
    var w := kind * 0x2000 + delaySide * 0x100 + arg1 * 0x20 + arg2;
    assert w / 0x100 == kind * 32 + delaySide;
    assert w / 0x20 == (kind * 32 + delaySide) * 8 + arg1;
  }

  /**
   * The fields of an instruction besides delay and side set: bits 13 to 15, bits 5 to 7, and bits 0 to 4
   * (section 3.4 of the RP2040 datasheet).
   */
  function InstructionFields(op: Op<int32>): (nat, int, int) {
    match op
    case Jmp(cond, target) =>
      (0, match cond {
            case Always => 0 case XZero => 1 case XDecrement => 2 case YZero => 3
            case YDecrement => 4 case XNotY => 5 case PinHigh => 6 case OsrNotEmpty => 7
          }, target)
    case Wait(polarity, source, index, relative) =>
      (1, polarity * 4 + (match source { case Gpio => 0 case Pin => 1 case Irq => 2 }),
       index + if relative then 16 else 0)
    case In(from, count) =>
      (2, if from == Pins then 0 else if from == X then 1 else if from == Y then 2 else if from == Null then 3
          else if from == Isr then 6 else if from == Osr then 7 else 5, if count == 32 then 0 else count)
    case Out(to, count) =>
      (3, if to == Pins then 0 else if to == X then 1 else if to == Y then 2 else if to == Null then 3
          else if to == Pindirs then 4 else if to == Pc then 5 else if to == Isr then 6 else 7,
       if count == 32 then 0 else count)
    case Push(ifFull, block) => (4, (if ifFull then 2 else 0) + if block then 1 else 0, 0)
    case Pull(ifEmpty, block) => (4, 4 + (if ifEmpty then 2 else 0) + if block then 1 else 0, 0)
    case Mov(to, movOp, from) =>
      (5, if to == Pins then 0 else if to == X then 1 else if to == Y then 2 else if to == Exec then 4
          else if to == Pc then 5 else if to == Isr then 6 else 7,
       (match movOp { case Plain => 0 case Invert => 8 case BitReverse => 16 })
       + if from == Pins then 0 else if from == X then 1 else if from == Y then 2 else if from == Null then 3
         else if from == Status then 5 else if from == Isr then 6 else 7)
    case SignalIrq(mode, irq, relative) =>
      (6, match mode { case Set => 0 case SetWait => 1 case Clear => 2 }, irq + if relative then 16 else 0)
    case SetPlace(to, data) =>
      (7, if to == Pins then 0 else if to == X then 1 else if to == Y then 2 else 4, data)
    case Nop => (5, 2, 2)
  }

  predicate FieldsEncode(op: Op<int32>, length: nat) {
    var r := RawEncode(op, length);
    r.Some? && r.value.kind < 8 && r.value.arg1 < 8 && r.value.arg2 < 32
    && (r.value.kind, r.value.arg1, r.value.arg2) == InstructionFields(op)
  }

  /** The arguments are built from fields that do not overlap, and fit. */
  lemma ArgsAreSums(op: Op<int32>, length: nat)
    requires op.Grammatical() && RawEncode(op, length).Some? && length <= 32
    ensures FieldsEncode(op, length)
  {
    hide FieldsEncode, RawEncode, InstructionFields;
    match op
    case Wait(_, _, _, _) => WaitSums(op, length);
    case Push(_, _) => FifoSums(op, length);
    case Pull(_, _) => FifoSums(op, length);
    case Mov(_, _, _) => MovSums(op, length);
    case SignalIrq(_, _, _) => IrqSums(op, length);
    case _ => SimpleSums(op, length);
  }

  lemma WaitSums(op: Op<int32>, length: nat)
    requires op.Wait? && op.Grammatical() && RawEncode(op, length).Some?
    ensures FieldsEncode(op, length)
  {
    SmallPowers();
    hide Pow2, BitwiseOr;
    OrDisjoint(op.polarity, 2, SourceCode(op.source));
    OrFlag(op.index, op.relative);
  }

  lemma FifoSums(op: Op<int32>, length: nat)
    requires op.Push? || op.Pull?
    ensures FieldsEncode(op, length)
  {
    hide BitwiseOr;
    if op.Push? {
      FifoSum(op.ifFull, op.block);
    } else {
      FifoSum(op.ifEmpty, op.block);
    }
  }

  lemma MovSums(op: Op<int32>, length: nat)
    requires op.Mov? && op.Grammatical()
    ensures FieldsEncode(op, length)
  {
    SmallPowers();
    hide Pow2, BitwiseOr;
    OrCommutes(MovCode(op.from), 8 * MovOpCode(op.movOp));
    OrDisjoint(MovOpCode(op.movOp), 3, MovCode(op.from));
  }

  lemma IrqSums(op: Op<int32>, length: nat)
    requires op.SignalIrq? && RawEncode(op, length).Some?
    ensures FieldsEncode(op, length)
  {
    hide BitwiseOr;
    OrFlag(op.irq, op.relative);
  }

  lemma SimpleSums(op: Op<int32>, length: nat)
    requires op.Grammatical() && RawEncode(op, length).Some? && length <= 32
    requires op.Jmp? || op.In? || op.Out? || op.SetPlace? || op.Nop?
    ensures FieldsEncode(op, length)
  {
  }

  lemma FifoSum(conditional: bool, block: bool)
    ensures var both := BitwiseOr(Flag(block, 1), Flag(conditional, 2));
            both == Flag(conditional, 2) + Flag(block, 1) && BitwiseOr(both, 4) == both + 4
  {
    SmallPowers();
    hide Pow2, BitwiseOr;
    OrCommutes(Flag(block, 1), Flag(conditional, 2));
    OrDisjoint(Flag(conditional, 1), 1, Flag(block, 1));
    OrCommutes(Flag(block, 1) + Flag(conditional, 2), 4);
    OrDisjoint(1, 2, Flag(block, 1) + Flag(conditional, 2));
  }

  lemma OrFlag(v: nat, relative: bool)
    requires v < 32 && (relative ==> v < 8)
    ensures BitwiseOr(v, Flag(relative, 0x10)) == v + Flag(relative, 0x10)
  {
    SmallPowers();
    if relative {
      OrCommutes(v, 0x10);
      OrDisjoint(1, 4, v);
    }
  }

  predicate GutsMatch(op: Op<int32>, length: nat) {
    var r := RawEncode(op, length);
    r.Some? && r.value.kind < 8 && r.value.arg1 < 8 && r.value.arg2 < 32
    && Guts(r.value.kind, r.value.arg1, r.value.arg2) == Some((Mnemonic(op), Operands(op)))
  }

  /** The two argument fields disassemble to the mnemonic and the operands of the instruction. */
  lemma GutsOfArgs(op: Op<int32>, length: nat)
    requires op.Grammatical() && RawEncode(op, length).Some? && length <= 32
    ensures GutsMatch(op, length)
  {
    ArgsAreSums(op, length);
    hide BitwiseOr, Guts, Operands, Mnemonic, GutsMatch, InstructionFields, RawEncode;
    match op
    case Mov(to, movOp, from) =>
      MovGuts(op, length);
    case Wait(polarity, source, index, relative) =>
      WaitGuts(op, length);
    case Push(_, _) =>
      FifoGuts(op, length);
    case Pull(_, _) =>
      FifoGuts(op, length);
    case SignalIrq(_, _, _) =>
      IrqGuts(op, length);
    case _ =>
      SimpleGuts(op, length);
  }

  lemma SimpleGuts(op: Op<int32>, length: nat)
    requires op.Grammatical() && RawEncode(op, length).Some? && length <= 32
    requires op.Jmp? || op.In? || op.Out? || op.SetPlace? || op.Nop?
    ensures GutsMatch(op, length)
  {
    hide BitwiseOr;
    match op
    case Jmp(_, _) =>
    case In(_, _) =>
    case Out(_, _) =>
    case SetPlace(_, _) =>
    case Nop =>
  }

  lemma FifoGuts(op: Op<int32>, length: nat)
    requires op.Push? || op.Pull?
    requires FieldsEncode(op, length)
    ensures GutsMatch(op, length)
  {
    hide BitwiseOr;
  }

  lemma IrqGuts(op: Op<int32>, length: nat)
    requires op.SignalIrq?
    requires FieldsEncode(op, length)
    ensures GutsMatch(op, length)
  {
    hide BitwiseOr;
  }

  lemma WaitGuts(op: Op<int32>, length: nat)
    requires op.Wait? && op.Grammatical()
    requires FieldsEncode(op, length)
    ensures GutsMatch(op, length)
  {
    hide BitwiseOr;
    var first := Text(if op.polarity == 1 then "1 " else "0 ");
    match op.source
    case Gpio =>
      assert Operands(op) == [first, Text("gpio, "), Number(op.index)];
    case Pin =>
      assert Operands(op) == [first, Text("pin, "), Number(op.index)];
    case Irq =>
  }

  lemma MovGuts(op: Op<int32>, length: nat)
    requires op.Mov? && op.Grammatical()
    requires FieldsEncode(op, length)
    ensures GutsMatch(op, length)
  {
    hide BitwiseOr;
    var raw := RawEncode(op, length).value;
    assert raw.arg2 % 8 == MovCode(op.from) && raw.arg2 / 8 == MovOpCode(op.movOp);
    assert MOV_DESTS[raw.arg1] == PlaceText(op.to);
    assert SOURCES[raw.arg2 % 8] == PlaceText(op.from);
  }

  // Side set and delay.

  /** Whether an instruction was accepted with these settings. */
  predicate Accepted(sideSet: Option<int32>, optional: bool, s: Settings, m: Meaning) {
    && Finalize(sideSet, optional) == Some(s)
    && (m.side.Some? ==> s.hasSideSet && 0 <= m.side.value <= s.sideSetMax)
    && 0 <= m.delay <= s.delayMax
  }

  /** The five bits shared by delay and side set. */
  function DelaySide(m: Meaning, s: Settings): nat
    requires s.bits <= 5 && m.delay >= 0 && (m.side.Some? ==> m.side.value >= 0)
  {
    BitwiseOr(m.delay, match m.side
                       case None => 0
                       case Some(v) => BitwiseOr(Shl(v, 5 - s.bits), Flag(s.optional, 0x10)))
  }

  /** Splitting a shifted value with something small below it. */
  lemma SplitShl(v: nat, k: nat, low: nat)
    requires low < Pow2(k)
    ensures Shr(Shl(v, k) + low, k) == v && Below(Shl(v, k) + low, k) == low
    ensures BitwiseOr(low, Shl(v, k)) == low + Shl(v, k)
  {
    OrCommutes(low, Shl(v, k));
    OrDisjoint(v, k, low);
    DivisionIsUnique(Shl(v, k) + low, Pow2(k), v, low);
  }

  /** A value of n bits, moved up by k, leaves room below the power n + k. */
  lemma ShlFits(v: nat, n: nat, k: nat)
    requires v < Pow2(n)
    ensures Shl(v, k) + Pow2(k) <= Pow2(n + k)
    ensures Shl(v, k) + Pow2(n + k) == Shl(v + Pow2(n), k)
  {
    Pow2Adds(n, k);
    MultiplyMonotone(v + 1, Pow2(n), Pow2(k));
    Distribute(Pow2(k), v, 1);
    Distribute(Pow2(k), v, Pow2(n));
  }

  lemma SixteenAbove(low: nat)
    requires low < 16
    ensures (low + 16) / 16 == 1 && (low + 16) % 16 == low && low / 16 == 0 && low % 16 == low
    ensures BitwiseOr(low, 0x10) == low + 0x10
  {
    SmallPowers();
    OrCommutes(low, 0x10);
    OrDisjoint(1, 4, low);
  }

  /** A side set value of n bits above k bits of delay, four bits in all. */
  lemma OptionalBound(v: nat, n: nat, k: nat)
    requires n + k == 4 && v < Pow2(n)
    ensures Shl(v, k) + Pow2(k) <= 16 && Shl(v, k) + 16 == Shl(v + Pow2(n), k)
  {
    SmallPowers();
    ShlFits(v, n, k);
    assert Pow2(n + k) == 16;
    hide Pow2, Shl;
  }

  lemma OptionalOr(v: nat, n: nat, k: nat, delay: nat)
    requires n + k == 4 && v < Pow2(n) && delay < Pow2(k)
    ensures BitwiseOr(delay, BitwiseOr(Shl(v, k), 0x10)) == Shl(v, k) + delay + 16
  {
    hide Pow2, BitwiseOr, Shl;
    OptionalBound(v, n, k);
    SixteenAbove(Shl(v, k));
    SplitShl(v + Pow2(n), k, delay);
  }

  lemma OptionalBelow(v: nat, n: nat, k: nat, delay: nat)
    requires n + k == 4 && v < Pow2(n) && delay < Pow2(k)
    ensures Below(Shl(v, k) + delay + 16, k) == delay
  {
    hide Pow2, Shl, Below;
    OptionalBound(v, n, k);
    SplitShl(v + Pow2(n), k, delay);
    assert Shl(v, k) + delay + 16 == Shl(v + Pow2(n), k) + delay;
  }

  /**
   * The side set bits of an instruction, above the k bits of the delay, with the presence bit of an
   * optional side set.
   */
  lemma OptionalSide(v: nat, n: nat, k: nat, delay: nat)
    requires n + k == 4 && v < Pow2(n) && delay < Pow2(k)
    ensures var d := BitwiseOr(delay, BitwiseOr(Shl(v, k), 0x10));
            d < 32 && d / 16 == 1 && Shr(d % 16, k) == v && Below(d, k) == delay
  {
    hide Pow2, BitwiseOr, Shl, Shr, Below;
    OptionalBound(v, n, k);
    OptionalOr(v, n, k, delay);
    OptionalBelow(v, n, k, delay);
    SplitShl(v, k, delay);
    SixteenAbove(Shl(v, k) + delay);
  }

  lemma FixedSide(v: nat, n: nat, k: nat, delay: nat)
    requires n + k == 5 && v < Pow2(n) && delay < Pow2(k)
    ensures var d := BitwiseOr(delay, BitwiseOr(Shl(v, k), 0));
            d < 32 && Shr(d, k) == v && Below(d, k) == delay
  {
    SmallPowers();
    ShlFits(v, n, k);
    assert BitwiseOr(Shl(v, k), 0) == Shl(v, k);
    hide Pow2, BitwiseOr, Shl, Shr, Below;
    SplitShl(v, k, delay);
  }

  lemma NoSide(k: nat, delay: nat)
    requires k <= 5 && delay < Pow2(k)
    ensures delay < 32 && Below(delay, k) == delay && BitwiseOr(delay, 0) == delay
    ensures k < 5 ==> delay < 16
  {
    SmallPowers();
    DivisionIsUnique(delay, Pow2(k), 0, delay);
    Pow2Adds(k, 5 - k);
    MultiplyMonotone(1, Pow2(5 - k), Pow2(k));
    if k < 5 {
      assert Pow2(5 - k) == 2 * Pow2(4 - k);
      MultiplyMonotone(2, Pow2(5 - k), Pow2(k));
    }
  }

  /**
   * The side set value a listing shows: a side set of no bits that is not optional has to be given for
   * every instruction, but is never shown.
   */
  function ShownSide(m: Meaning, sideSet: Option<int32>, optional: bool): Option<int32> {
    if sideSet == Some(0) && !optional then None else m.side
  }

  /** Taking the five bits apart gives back the delay and the side set value. */
  lemma SplitDelaySide(sideSet: Option<int32>, optional: bool, s: Settings, m: Meaning)
    requires Accepted(sideSet, optional, s, m)
    requires m.side.Some? ==> sideSet.Some?
    requires m.side.None? && sideSet.Some? ==> optional
    ensures var d := DelaySide(m, s);
            && d < 32
            && Below(d, 5 - s.bits) == m.delay
            && (s.bits != 0 && (!optional || d / 16 == 1) <==> ShownSide(m, sideSet, optional).Some?)
            && (m.side.Some? ==> Shr(if optional then d % 16 else d, 5 - s.bits) == m.side.value)
  {
    hide BitwiseOr, Shl, Shr, Below, Pow2;
    SmallPowers();
    var k := 5 - s.bits;
    match m.side
    case None =>
      NoSide(k, m.delay);
    case Some(v) =>
      if optional {
        OptionalSide(v, sideSet.value, k, m.delay);
      } else {
        FixedSide(v, sideSet.value, k, m.delay);
      }
  }

  // Round trip.

  /** The instruction is one the grammar writes, uses the side set as declared, and is accepted by encode. */
  predicate Encodable(m: Meaning, length: nat, sideSet: Option<int32>, optional: bool) {
    && Finalize(sideSet, optional).Some? && m.op.Grammatical()
    && (m.side.Some? ==> sideSet.Some?)
    && (m.side.None? && sideSet.Some? ==> optional)
    && EncodeMeaning(m, length, Finalize(sideSet, optional).value).Some?
  }

  /**
   * Disassembling an accepted instruction with the settings of its program shows its mnemonic, its
   * operands, its delay, and its side set value exactly if it has one that takes any bits.
   */
  lemma DisassembleEncode(m: Meaning, length: nat, sideSet: Option<int32>, optional: bool)
    requires Encodable(m, length, sideSet, optional) && length <= 32
    ensures var s := Finalize(sideSet, optional).value;
            var w := EncodeMeaning(m, length, s).value;
            w < 0x1_0000
            && Disassemble(w, s.bits, sideSet.Some? && optional)
               == Line(Mnemonic(m.op), Operands(m.op), ShownSide(m, sideSet, optional), m.delay)
  {
    var s := Finalize(sideSet, optional).value;
    var w := EncodeMeaning(m, length, s).value;
    var raw, d := EncodedFields(m, length, sideSet, optional);
    GutsOfArgs(m.op, length);
    SplitDelaySide(sideSet, optional, s, m);
    hide BitwiseOr, Shl, Shr, Below, Guts, RawEncode, Finalize, Pow2, Mnemonic, Operands, DelaySide, EncodeMeaning;
    DisassembleFields(w, raw.kind, d, raw.arg1, raw.arg2, s.bits, sideSet.Some? && optional);
  }

  lemma EncodingIsPacked(m: Meaning, length: nat, sideSet: Option<int32>, optional: bool)
    requires Encodable(m, length, sideSet, optional)
    ensures var s := Finalize(sideSet, optional).value;
            && RawEncode(m.op, length).Some? && Accepted(sideSet, optional, s, m)
            && s.bits <= 5 && m.delay >= 0 && (m.side.Some? ==> m.side.value >= 0)
            && var raw := RawEncode(m.op, length).value;
            EncodeMeaning(m, length, s)
            == Some(Packed(raw.kind, DelaySide(m, s), raw.arg1, raw.arg2))
  {
    hide BitwiseOr, Shl, RawEncode, Pow2;
  }

  /** The fields that an accepted instruction is packed from. */
  lemma EncodedFields(m: Meaning, length: nat, sideSet: Option<int32>, optional: bool) returns (raw: Raw, d: nat)
    requires Encodable(m, length, sideSet, optional) && length <= 32
    ensures RawEncode(m.op, length) == Some(raw) && raw.kind < 8 && raw.arg1 < 8 && raw.arg2 < 32
    ensures Accepted(sideSet, optional, Finalize(sideSet, optional).value, m)
    ensures d == DelaySide(m, Finalize(sideSet, optional).value) && d < 32
    ensures EncodeMeaning(m, length, Finalize(sideSet, optional).value)
            == Some(raw.kind * 0x2000 + d * 0x100 + raw.arg1 * 0x20 + raw.arg2)
  {
    hide BitwiseOr, Shl, Shr, Below, RawEncode, Pow2, DelaySide, EncodeMeaning, Accepted, InstructionFields, Finalize;
    var s := Finalize(sideSet, optional).value;
    EncodingIsPacked(m, length, sideSet, optional);
    raw := RawEncode(m.op, length).value;
    d := DelaySide(m, s);
    ArgsAreSums(m.op, length);
    SplitDelaySide(sideSet, optional, s, m);
    WordIsSum(raw.kind, d, raw.arg1, raw.arg2);
  }

  lemma DisassembleFields(w: nat, kind: nat, d: nat, arg1: nat, arg2: nat, bits: nat, optional: bool)
    requires kind < 8 && d < 32 && arg1 < 8 && arg2 < 32 && bits <= 5
    requires w == kind * 0x2000 + d * 0x100 + arg1 * 0x20 + arg2
    ensures w < 0x1_0000 && Disassemble(w, bits, optional) == ListingOf(Guts(kind, arg1, arg2), d, bits, optional)
  {
    FieldsOfWord(kind, d, arg1, arg2);
  }

  /** Apart from the forms of nop, a listing tells the operation and all its operands. */
  lemma ListingTellsOp(op1: Op<int32>, op2: Op<int32>, length: nat)
    requires op1.Grammatical() && RawEncode(op1, length).Some?
    requires op2.Grammatical() && RawEncode(op2, length).Some?
    requires Mnemonic(op1) == Mnemonic(op2) && Operands(op1) == Operands(op2)
    ensures op1 == op2 || (IsNop(op1) && IsNop(op2))
  {
    hide BitwiseOr;
    if !IsNop(op1) {
      SameKind(op1, op2);
      match op1
      case Wait(_, _, _, _) =>
        assert Operands(op1)[0] == Operands(op2)[0] && Operands(op1)[1] == Operands(op2)[1];
        assert Operands(op1)[2] == Operands(op2)[2];
      case Push(_, _) =>
        FifoOperandsTell(op1.ifFull, op1.block, op2.ifFull, op2.block, "iffull ");
      case Pull(_, _) =>
        FifoOperandsTell(op1.ifEmpty, op1.block, op2.ifEmpty, op2.block, "ifempty ");
      case Mov(_, _, _) =>
        MovOperandsTell(op1, op2);
      case SignalIrq(_, _, _) =>
        assert Operands(op1)[0] == Operands(op2)[0] && Operands(op1)[1] == Operands(op2)[1];
      case Jmp(_, _) =>
        assert Operands(op1)[0] == Operands(op2)[0] && Operands(op1)[1] == Operands(op2)[1];
        ConditionTextTells(op1.cond, op2.cond);
      case In(_, _) =>
        assert Operands(op1)[0] == Operands(op2)[0] && Operands(op1)[2] == Operands(op2)[2];
      case Out(_, _) =>
        assert Operands(op1)[0] == Operands(op2)[0] && Operands(op1)[2] == Operands(op2)[2];
      case SetPlace(_, _) =>
        assert Operands(op1)[0] == Operands(op2)[0] && Operands(op1)[2] == Operands(op2)[2];
      case Nop =>
    }
  }

  lemma ConditionTextTells(c1: Condition, c2: Condition)
    requires ConditionText(c1) == ConditionText(c2)
    ensures c1 == c2
  {
    assert ConditionCode(c1) < 8 && JUMP_CONDITIONS[ConditionCode(c1)] == ConditionText(c1);
    assert |ConditionText(XZero)| == 4;
  }

  lemma SameKind(op1: Op<int32>, op2: Op<int32>)
    requires Mnemonic(op1) == Mnemonic(op2) && !IsNop(op1)
    ensures !IsNop(op2)
    ensures op1.Jmp? == op2.Jmp? && op1.Wait? == op2.Wait? && op1.In? == op2.In? && op1.Out? == op2.Out?
    ensures op1.Push? == op2.Push? && op1.Pull? == op2.Pull? && op1.Mov? == op2.Mov? && op1.SignalIrq? == op2.SignalIrq?
    ensures op1.SetPlace? == op2.SetPlace?
  {
    var m := Mnemonic(op1);
    assert m == "jmp" ==> m[0] == 'j';
    assert m == "in" ==> |m| == 2;
    assert m == "push" ==> m[1] == 'u' && m[2] == 's';
    assert m == "pull" ==> m[1] == 'u' && m[2] == 'l';
  }

  lemma FifoOperandsTell(cond1: bool, block1: bool, cond2: bool, block2: bool, text: string)
    requires (if cond1 then [Text(text)] else []) + [Text(if block1 then "block" else "noblock")]
             == (if cond2 then [Text(text)] else []) + [Text(if block2 then "block" else "noblock")]
    ensures cond1 == cond2 && block1 == block2
  {
    var a := (if cond1 then [Text(text)] else []) + [Text(if block1 then "block" else "noblock")];
    var b := (if cond2 then [Text(text)] else []) + [Text(if block2 then "block" else "noblock")];
    assert a[|a| - 1] == b[|b| - 1] && |"block"| == 5 && |"noblock"| == 7;
  }

  lemma MovOperandsTell(op1: Op<int32>, op2: Op<int32>)
    requires op1.Mov? && op2.Mov? && op1.Grammatical() && op2.Grammatical() && !IsNop(op1) && !IsNop(op2)
    requires Operands(op1) == Operands(op2)
    ensures op1 == op2
  {
    var a, b := Operands(op1), Operands(op2);
    assert |a| == |MovOpText(op1.movOp)| + 3 && |b| == |MovOpText(op2.movOp)| + 3;
    assert a[0] == b[0] && a[|a| - 1] == b[|b| - 1] && a[2] == b[2];
    PlaceTextTells(op1.to, op2.to);
    PlaceTextTells(op1.from, op2.from);
  }

  lemma PlaceTextTells(p: Place, q: Place)
    requires PlaceText(p) == PlaceText(q)
    ensures p == q
  {
  }

  /**
   * Two accepted instructions of a program that are encoded by the same word are the same instruction,
   * or two forms of nop with the same delay and side set.
   */
  lemma WordTellsInstruction(m1: Meaning, m2: Meaning, length: nat, sideSet: Option<int32>, optional: bool)
    requires length <= 32
    requires Encodable(m1, length, sideSet, optional) && Encodable(m2, length, sideSet, optional)
    requires EncodeMeaning(m1, length, Finalize(sideSet, optional).value)
             == EncodeMeaning(m2, length, Finalize(sideSet, optional).value)
    ensures m1.side == m2.side && m1.delay == m2.delay
    ensures m1.op == m2.op || (IsNop(m1.op) && IsNop(m2.op))
  {
    DisassembleEncode(m1, length, sideSet, optional);
    DisassembleEncode(m2, length, sideSet, optional);
    ListingTellsOp(m1.op, m2.op, length);
  }

  // All words.

  /** An instruction that has the given fields, if there is one; moves that do nothing are written as moves. */
  function OpOf(kind: nat, arg1: nat, arg2: nat): Option<Op<int32>>
    requires kind < 8 && arg1 < 8 && arg2 < 32
  {
    if kind == 0 then
      Some(Jmp([Always, XZero, XDecrement, YZero, YDecrement, XNotY, PinHigh, OsrNotEmpty][arg1], arg2))
    else if kind == 1 then
      if arg1 % 4 == 3 || (arg1 % 4 == 2 && arg2 / 8 % 2 == 1) then None
      else if arg1 % 4 == 2 then Some(Wait(arg1 / 4, Irq, arg2 % 16, arg2 >= 16))
      else Some(Wait(arg1 / 4, if arg1 % 4 == 0 then Gpio else Pin, arg2, false))
    else if kind == 2 then
      if arg1 == 4 then None
      else Some(In([Pins, X, Y, Null, Null, Status, Isr, Osr][arg1], if arg2 == 0 then 32 else arg2))
    else if kind == 3 then
      Some(Out([Pins, X, Y, Null, Pindirs, Pc, Isr, Exec][arg1], if arg2 == 0 then 32 else arg2))
    else if kind == 4 then
      if arg2 != 0 then None
      else if arg1 < 4 then Some(Push(arg1 / 2 == 1, arg1 % 2 == 1))
      else Some(Pull(arg1 / 2 == 3, arg1 % 2 == 1))
    else if kind == 5 then
      if arg1 == 3 || arg2 % 8 == 4 || arg2 / 8 == 3 then None
      else Some(Mov([Pins, X, Y, Null, Exec, Pc, Isr, Osr][arg1], [Plain, Invert, BitReverse][arg2 / 8],
                    [Pins, X, Y, Null, Null, Status, Isr, Osr][arg2 % 8]))
    else if kind == 6 then
      if arg1 >= 4 || arg2 / 8 % 2 == 1 then None
      else Some(SignalIrq([Set, SetWait, Clear, Clear][arg1], arg2 % 16, arg2 >= 16))
    else
      if arg1 == 3 || arg1 > 4 then None else Some(SetPlace([Pins, X, Y, Null, Pindirs][arg1], arg2))
  }

  /** A flag to clear and a flag to wait: the hardware clears. */
  predicate ClearsAndWaits(kind: nat, arg1: nat) { kind == 6 && arg1 == 3 }

  /** A wait for a source that does not exist. */
  predicate WaitsForNothing(kind: nat, arg1: nat) { kind == 1 && arg1 % 4 == 3 }

  predicate HasFields(op: Op<int32>, kind: nat, arg1: nat, arg2: nat) {
    op.Grammatical() && OperandsInRange(op, 32) && InstructionFields(op) == (kind, arg1, arg2)
  }

  lemma OpOfFields(kind: nat, arg1: nat, arg2: nat)
    requires kind < 8 && arg1 < 8 && arg2 < 32 && OpOf(kind, arg1, arg2).Some? && !ClearsAndWaits(kind, arg1)
    ensures HasFields(OpOf(kind, arg1, arg2).value, kind, arg1, arg2)
  {
    if kind == 5 {
      MovOfFields(arg1, arg2);
    } else if kind == 1 || kind == 6 {
      FlagOfFields(kind, arg1, arg2);
    } else {
      OtherOfFields(kind, arg1, arg2);
    }
  }

  lemma MovOfFields(arg1: nat, arg2: nat)
    requires arg1 < 8 && arg2 < 32 && OpOf(5, arg1, arg2).Some?
    ensures HasFields(OpOf(5, arg1, arg2).value, 5, arg1, arg2)
  {
    var op := OpOf(5, arg1, arg2).value;
    var (kind, to, from) := InstructionFields(op);
    assert to == arg1;
    assert op.from == [Pins, X, Y, Null, Null, Status, Isr, Osr][arg2 % 8];
    assert from == arg2 % 8 + 8 * (arg2 / 8);
  }

  lemma FlagOfFields(kind: nat, arg1: nat, arg2: nat)
    requires (kind == 1 || kind == 6) && arg1 < 8 && arg2 < 32
    requires OpOf(kind, arg1, arg2).Some? && !ClearsAndWaits(kind, arg1)
    ensures HasFields(OpOf(kind, arg1, arg2).value, kind, arg1, arg2)
  {
  }

  lemma OtherOfFields(kind: nat, arg1: nat, arg2: nat)
    requires kind < 8 && kind !in {1, 5, 6} && arg1 < 8 && arg2 < 32 && OpOf(kind, arg1, arg2).Some?
    ensures HasFields(OpOf(kind, arg1, arg2).value, kind, arg1, arg2)
  {
  }

  lemma ReservedWithoutOp(kind: nat, arg1: nat, arg2: nat)
    requires kind < 8 && arg1 < 8 && arg2 < 32 && !WaitsForNothing(kind, arg1) && !ClearsAndWaits(kind, arg1)
    ensures Guts(kind, arg1, arg2) == None <==> OpOf(kind, arg1, arg2) == None
  {
  }

  ghost predicate HasOp(kind: nat, arg1: nat, arg2: nat) {
    exists op :: HasFields(op, kind, arg1, arg2)
  }

  /**
   * The disassembler calls a word reserved exactly if no instruction has these fields. It does not so call
   * a wait for the source that does not exist, and shows one that clears and waits as one that clears.
   */
  lemma ReservedIff(kind: nat, arg1: nat, arg2: nat)
    requires kind < 8 && arg1 < 8 && arg2 < 32
    ensures !WaitsForNothing(kind, arg1) && !ClearsAndWaits(kind, arg1) ==>
              (Guts(kind, arg1, arg2) == None <==> !HasOp(kind, arg1, arg2))
    ensures WaitsForNothing(kind, arg1) ==> !HasOp(kind, arg1, arg2) && Guts(kind, arg1, arg2).Some?
    ensures ClearsAndWaits(kind, arg1) ==> !HasOp(kind, arg1, arg2) && Guts(kind, arg1, arg2) == Guts(kind, 2, arg2)
  {
    if !WaitsForNothing(kind, arg1) && !ClearsAndWaits(kind, arg1) {
      ReservedWithoutOp(kind, arg1, arg2);
      if OpOf(kind, arg1, arg2).Some? {
        OpOfFields(kind, arg1, arg2);
      }
      hide Guts, OpOf;
      if op: Op<int32> :| HasFields(op, kind, arg1, arg2) {
        OperandsAcceptedIff(op, 32);
        ArgsAreSums(op, 32);
        GutsOfArgs(op, 32);
      }
    }
  }

  // Expressions.

  function ValueOf(table: Table, e: Expr): Option<int32> {
    var r := Resolved(table, {}, e);
    if r.Value? then Some(r.value) else None
  }

  /** The operation with its expressions replaced by their values, if they all have one. */
  function EvaluateOp(table: Table, op: Op<Expr>): Option<Op<int32>> {
    match op
    case Jmp(cond, target) => (match ValueOf(table, target) case Some(v) => Some(Jmp(cond, v)) case None => None)
    case Wait(polarity, source, index, relative) =>
      (match (ValueOf(table, polarity), ValueOf(table, index))
       case (Some(p), Some(v)) => Some(Wait(p, source, v, relative))
       case _ => None)
    case In(from, count) => (match ValueOf(table, count) case Some(v) => Some(In(from, v)) case None => None)
    case Out(to, count) => (match ValueOf(table, count) case Some(v) => Some(Out(to, v)) case None => None)
    case Push(ifFull, block) => Some(Push(ifFull, block))
    case Pull(ifEmpty, block) => Some(Pull(ifEmpty, block))
    case Mov(to, movOp, from) => Some(Mov(to, movOp, from))
    case SignalIrq(mode, irq, relative) =>
      (match ValueOf(table, irq) case Some(v) => Some(SignalIrq(mode, v, relative)) case None => None)
    case SetPlace(to, data) => (match ValueOf(table, data) case Some(v) => Some(SetPlace(to, v)) case None => None)
    case Nop => Some(Nop)
  }

  function Evaluate(table: Table, i: Instruction): Option<Meaning> {
    match (EvaluateOp(table, i.op), ValueOf(table, i.delay))
    case (Some(op), Some(delay)) =>
      (match i.side
       case None => Some(Meaning(op, None, delay))
       case Some(e) => match ValueOf(table, e) case Some(v) => Some(Meaning(op, Some(v), delay)) case None => None)
    case _ => None
  }

  predicate HasValue(table: Table, e: Expr, v: int32) { Resolved(table, {}, e) == Value(v) }

  /** An operation with values in the place of its expressions. */
  predicate MeansOp(table: Table, op: Op<Expr>, v: Op<int32>) {
    match op
    case Jmp(cond, target) => v.Jmp? && v.cond == cond && HasValue(table, target, v.target)
    case Wait(polarity, source, index, relative) =>
      && v.Wait? && v.source == source && v.relative == relative
      && HasValue(table, polarity, v.polarity) && HasValue(table, index, v.index)
    case In(from, count) => v.In? && v.from == from && HasValue(table, count, v.count)
    case Out(to, count) => v.Out? && v.to == to && HasValue(table, count, v.count)
    case Push(ifFull, block) => v == Op<int32>.Push(ifFull, block)
    case Pull(ifEmpty, block) => v == Op<int32>.Pull(ifEmpty, block)
    case Mov(to, movOp, from) => v == Op<int32>.Mov(to, movOp, from)
    case SignalIrq(mode, irq, relative) =>
      v.SignalIrq? && v.mode == mode && v.relative == relative && HasValue(table, irq, v.irq)
    case SetPlace(to, data) => v.SetPlace? && v.to == to && HasValue(table, data, v.data)
    case Nop => v.Nop?
  }

  predicate Means(table: Table, i: Instruction, m: Meaning) {
    && MeansOp(table, i.op, m.op) && HasValue(table, i.delay, m.delay)
    && i.side.Some? == m.side.Some? && (i.side.Some? ==> HasValue(table, i.side.value, m.side.value))
  }

  /** An instruction has a meaning exactly if all its expressions have values, and it is made of those values. */
  lemma EvaluatedIff(table: Table, i: Instruction, m: Meaning)
    ensures Evaluate(table, i) == Some(m) <==> Means(table, i, m)
  {
    EvaluatedOpIff(table, i.op, m.op);
    hide EvaluateOp, MeansOp, Resolved;
  }

  lemma EvaluatedOpIff(table: Table, op: Op<Expr>, v: Op<int32>)
    ensures EvaluateOp(table, op) == Some(v) <==> MeansOp(table, op, v)
  {
    hide Resolved;
  }

  /** instruction::encode: the word, unless an expression or a range check fails. */
  function Encode(table: Table, i: Instruction, length: nat, s: Settings): Option<nat>
    requires s.bits <= 5
  {
    match Evaluate(table, i)
    case None => None
    case Some(m) => EncodeMeaning(m, length, s)
  }

  /**
   * Assembling an instruction of a program and disassembling the word shows the instruction with every
   * expression replaced by its value.
   */
  lemma AssembleDisassemble(table: Table, i: Instruction, length: nat, sideSet: Option<int32>, optional: bool)
    requires i.op.Grammatical() && length <= 32 && Finalize(sideSet, optional).Some?
    requires i.side.Some? ==> sideSet.Some?
    requires i.side.None? && sideSet.Some? ==> optional
    requires Encode(table, i, length, Finalize(sideSet, optional).value).Some?
    ensures var s := Finalize(sideSet, optional).value;
            var w := Encode(table, i, length, s).value;
            && Evaluate(table, i).Some? && w < 0x1_0000
            && var m := Evaluate(table, i).value;
            Means(table, i, m) &&
            Disassemble(w, s.bits, sideSet.Some? && optional)
            == Line(Mnemonic(m.op), Operands(m.op), ShownSide(m, sideSet, optional), m.delay)
  {
    var m := Evaluate(table, i).value;
    EvaluatedIff(table, i, m);
    hide Means;
    assert m.op.Grammatical() && m.side.Some? == i.side.Some? by {
      hide ValueOf;
    }
    DisassembleEncode(m, length, sideSet, optional);
  }

  /** Where delay and side set are in the five bits they share. */
  lemma DelaySideIs(sideSet: Option<int32>, optional: bool, s: Settings, m: Meaning)
    requires Accepted(sideSet, optional, s, m)
    requires m.side.Some? ==> sideSet.Some?
    ensures s.bits <= 5
    ensures DelaySide(m, s)
            == m.delay + match m.side
                         case None => 0
                         case Some(v) => v * Pow2(5 - s.bits) + if optional then 16 else 0
  {
    hide BitwiseOr, Shl, Pow2;
    SmallPowers();
    match m.side
    case None =>
      NoSide(5 - s.bits, m.delay);
    case Some(v) =>
      var k := 5 - s.bits;
      ShlIs(v, k);
      if optional {
        OptionalOr(v, sideSet.value, k, m.delay);
      } else {
        SplitShl(v, k, m.delay);
        OrNothing(Shl(v, k));
      }
  }

  lemma ShlIs(v: nat, k: nat)
    ensures Shl(v, k) == v * Pow2(k)
  {
  }

  lemma OrNothing(a: nat)
    ensures BitwiseOr(a, 0) == a
  {
  }

  /** The word of an accepted instruction, field by field. */
  lemma EncodedWord(m: Meaning, length: nat, sideSet: Option<int32>, optional: bool)
    requires Encodable(m, length, sideSet, optional) && length <= 32
    ensures var w := EncodeMeaning(m, length, Finalize(sideSet, optional).value).value;
            && w < 0x1_0000 && (w / 0x2000, w / 0x20 % 8, w % 0x20) == InstructionFields(m.op)
            && var bits := if sideSet.None? then 0 else sideSet.value + if optional then 1 else 0;
            && 0 <= bits <= 5
            && w / 0x100 % 0x20 == m.delay + match m.side
                                             case None => 0
                                             case Some(v) => v * Pow2(5 - bits) + if optional then 16 else 0
  {
    var raw, d := EncodedFields(m, length, sideSet, optional);
    ArgsAreSums(m.op, length);
    DelaySideIs(sideSet, optional, Finalize(sideSet, optional).value, m);
    BitsOfSettings(sideSet, optional);
    hide RawEncode, Finalize, EncodeMeaning, DelaySide, InstructionFields, Encodable, Accepted, Pow2, BitwiseOr;
    FieldsOfWord(raw.kind, d, raw.arg1, raw.arg2);
  }

  lemma BitsOfSettings(sideSet: Option<int32>, optional: bool)
    requires Finalize(sideSet, optional).Some?
    ensures Finalize(sideSet, optional).value.bits
            == if sideSet.None? then 0 else sideSet.value + if optional then 1 else 0
  {
  }

  /** The operands that an instruction of a program of some length can have. */
  predicate OperandsInRange(op: Op<int32>, length: nat) {
    match op
    case Jmp(_, target) => 0 <= target < length
    case Wait(polarity, source, index, _) =>
      (polarity == 0 || polarity == 1) && 0 <= index <= if source.Irq? then 7 else 31
    case In(_, count) => 1 <= count <= 32
    case Out(_, count) => 1 <= count <= 32
    case SignalIrq(_, irq, _) => 0 <= irq <= 7
    case SetPlace(_, data) => 0 <= data <= 31
    case _ => true
  }

  /** A side set of up to five bits, the presence bit included, is accepted, and leaves the others to the delay. */
  lemma SideSetAcceptedIff(sideSet: Option<int32>, optional: bool)
    ensures Finalize(sideSet, optional).Some?
            <==> (sideSet.Some? ==> 0 <= sideSet.value && sideSet.value + (if optional then 1 else 0) <= 5)
  {
  }

  /** An instruction is accepted exactly if its operands, its delay and its side set value are in range. */
  lemma InstructionAcceptedIff(m: Meaning, length: nat, sideSet: Option<int32>, optional: bool)
    requires Finalize(sideSet, optional).Some? && (m.side.Some? ==> sideSet.Some?)
    ensures var bits := if sideSet.None? then 0 else sideSet.value + if optional then 1 else 0;
            0 <= bits <= 5 &&
            (EncodeMeaning(m, length, Finalize(sideSet, optional).value).Some?
             <==> && OperandsInRange(m.op, length) && 0 <= m.delay < Pow2(5 - bits)
                  && (m.side.Some? ==> 0 <= m.side.value < Pow2(sideSet.value)))
  {
    SmallPowers();
    BitsOfSettings(sideSet, optional);
    OperandsAcceptedIff(m.op, length);
    hide RawEncode, BitwiseOr, Shl, Pow2, OperandsInRange;
  }

  lemma OperandsAcceptedIff(op: Op<int32>, length: nat)
    ensures RawEncode(op, length).Some? <==> OperandsInRange(op, length)
  {
    hide BitwiseOr;
  }

  /** An encoded jump leads into the program, and nothing else encodes as a jump. */
  lemma EncodedJump(m: Meaning, length: nat, sideSet: Option<int32>, optional: bool)
    requires Encodable(m, length, sideSet, optional) && length <= 32
    ensures var w := EncodeMeaning(m, length, Finalize(sideSet, optional).value).value;
            && w < 0x1_0000
            && (w / 0x2000 == 0 <==> m.op.Jmp?)
            && (m.op.Jmp? ==> w % 0x20 == m.op.target && m.op.target < length)
            && (m.op.Jmp? ==> (w / 0x20 % 8 == 0 <==> m.op.cond.Always?))
  {
    EncodedWord(m, length, sideSet, optional);
    assert InstructionFields(m.op).0 == 0 <==> m.op.Jmp?;
    assert m.op.Jmp? ==> InstructionFields(m.op).2 == m.op.target;
    assert m.op.Jmp? ==> (InstructionFields(m.op).1 == 0 <==> m.op.cond.Always?);
    InstructionAcceptedIff(m, length, sideSet, optional);
    assert m.op.Jmp? && OperandsInRange(m.op, length) ==> m.op.target < length;
    hide Finalize, EncodeMeaning, InstructionFields, OperandsInRange, Pow2;
  }
}

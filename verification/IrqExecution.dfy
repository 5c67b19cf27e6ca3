/**
 * What the processor does when it takes an interrupt whose vector is a slot: the few Thumb
 * instructions of the slots and of irq_handler_chain_first_slot, executed one by one from memory.
 */
module IrqExecution {
  import opened IrqChains
  import opened Options

  /**
   * The registers the code uses, the stack with its top first, and the handlers called so far;
   * `returned` says that the exception has been left.
   */
  datatype Cpu = Cpu(pc: int, r0: int, r1: int, lr: int, stack: seq<int>, calls: seq<int>, returned: bool)

  /** The program counter as an operand: four bytes ahead, aligned to a word. */
  function AlignedPc(pc: int): int {
    (pc + 4) / 4 * 4
  }

  /** The slot an address lies in. */
  function SlotOf(base: int, at: int): int {
    (at - base) / SLOT_SIZE
  }

  /** The word at the handler field of a slot; other words are not read by this code. */
  function ReadWord(s: seq<Slot>, base: int, at: int): Option<int> {
    var i := SlotOf(base, at);
    if 0 <= i < |s| && at == SlotAt(base, i) + 8 then Some(s[i].handler) else None
  }

  function Fetch(s: seq<Slot>, base: int, pc: int): Option<nat> {
    var i := SlotOf(base, pc);
    if !(0 <= i < |s|) then None
    else if pc == SlotAt(base, i) then Some(s[i].inst1)
    else if pc == Inst2At(base, i) then Some(s[i].inst2)
    else if pc == Inst3At(base, i) then Some(s[i].inst3)
    else None
  }

  /** What the handler of call k leaves in r0 and r1; zeros where nothing is given. */
  function Left(scratch: seq<(int, int)>, k: nat): (int, int) {
    if k < |scratch| then scratch[k] else (0, 0)
  }

  /** A handler called with a return address; every call may leave anything in r0 and r1. */
  function Called(cpu: Cpu, handler: int, back: int, scratch: seq<(int, int)>): Cpu {
    var left := Left(scratch, |cpu.calls|);
    cpu.(pc := back, lr := back + 1, r0 := left.0, r1 := left.1, calls := cpu.calls + [handler])
  }

  /** The instructions that are executed: add and load relative to pc, blx, pop, and b. */
  datatype Instruction =
    | AddPc(rd: nat, imm: nat) | LoadPc(rd: nat, imm: nat) | CallRegister(rm: nat) | Pop(list: nat, pc: bool)
    | Branch(halfwords: int)

  /** Their 16 bit Thumb encodings (section A6.7 of the ARMv6-M Architecture Reference Manual). */
  function Decode(inst: nat): Option<Instruction> {
    if inst / 0x800 == 0x14 then Some(AddPc(inst / 0x100 % 8, inst % 0x100 * 4))
    else if inst / 0x800 == 0x9 then Some(LoadPc(inst / 0x100 % 8, inst % 0x100 * 4))
    else if inst / 0x80 == 0x8f && inst % 8 == 0 then Some(CallRegister(inst / 8 % 16))
    else if inst / 0x200 == 0x5e then Some(Pop(inst % 0x100, inst / 0x100 % 2 == 1))
    else if inst / 0x800 == 0x1c then Some(Branch(if inst / 0x400 % 2 == 1 then inst % 0x800 - 0x800 else inst % 0x800))
    else None
  }

  /** One instruction, or all of irq_handler_chain_first_slot; no result is a fault. */
  function Step(s: seq<Slot>, base: int, scratch: seq<(int, int)>, cpu: Cpu): Option<Cpu> {
    if cpu.pc == FirstSlotCode(base, |s|) then
      // Saves r0 and the exception's return address, and calls the handler found behind r1 to return to r1.
      match ReadWord(s, base, cpu.r1 + 4)
      case Some(handler) => Some(Called(cpu.(stack := [cpu.r0, cpu.lr] + cpu.stack), handler, cpu.r1, scratch))
      case None => None
    else
      match Fetch(s, base, cpu.pc)
      case None => None
      case Some(inst) =>
        match Decode(inst)
        case None => None
        case Some(i) => Execute(s, base, scratch, cpu, i)
  }

  /** One instruction; those for other registers are not modelled. */
  function Execute(s: seq<Slot>, base: int, scratch: seq<(int, int)>, cpu: Cpu, i: Instruction): Option<Cpu> {
    match i
    case AddPc(rd, imm) =>
      if rd != 1 then None else Some(cpu.(r1 := AlignedPc(cpu.pc) + imm, pc := cpu.pc + 2))
    case LoadPc(rd, imm) =>
      if rd != 0 then None
      else
        (match ReadWord(s, base, AlignedPc(cpu.pc) + imm)
         case Some(w) => Some(cpu.(r0 := w, pc := cpu.pc + 2))
         case None => None)
    case CallRegister(rm) =>
      if rm != 0 then None else Some(Called(cpu, cpu.r0, cpu.pc + 2, scratch))
    case Pop(list, pc) =>
      if list != 1 || !pc || |cpu.stack| < 2 then None
      else Some(cpu.(r0 := cpu.stack[0], pc := cpu.stack[1], stack := cpu.stack[2..], returned := true))
    case Branch(halfwords) =>
      Some(cpu.(pc := cpu.pc + 4 + 2 * halfwords))
  }

  /** The instructions of the slots, as the processor reads them. */
  lemma SlotInstructions()
    ensures Decode(ADD_R1_PC) == Some(AddPc(1, 0)) && Decode(LDR_R0_PC4) == Some(LoadPc(0, 4))
    ensures Decode(BLX_R0) == Some(CallRegister(0)) && Decode(POP_R0_PC) == Some(Pop(1, true))
  {
  }

  /** The processor goes where resolve_branch says. */
  lemma BranchDecodes(at: int, inst: nat)
    requires IsBranch(inst)
    ensures Decode(inst).Some? && Decode(inst).value.Branch?
    ensures at + 4 + 2 * Decode(inst).value.halfwords == ResolveBranch(at, inst)
  {
    assert inst / 0x400 == 2 * (inst / 0x800) + inst / 0x400 % 2;
    assert inst % 0x800 == inst / 0x400 % 2 * 0x400 + inst % 0x400;
  }

  /** Steps until the exception has been left, at most n of them. */
  function Run(s: seq<Slot>, base: int, scratch: seq<(int, int)>, cpu: Cpu, n: nat): Option<Cpu>
    decreases n
  {
    if cpu.returned || n == 0 then Some(cpu)
    else match Step(s, base, scratch, cpu)
         case Some(next) => Run(s, base, scratch, next, n - 1)
         case None => None
  }

  function Handlers(e: seq<Entry>): seq<int> {
    seq(|e|, k requires 0 <= k < |e| => e[k].handler)
  }

  lemma SlotFacts(base: int, i: nat)
    requires base % 4 == 0
    ensures SlotOf(base, SlotAt(base, i)) == SlotOf(base, Inst2At(base, i)) == SlotOf(base, Inst3At(base, i)) == i
    ensures SlotOf(base, SlotAt(base, i) + 8) == i
    ensures AlignedPc(SlotAt(base, i)) == SlotAt(base, i) + 4
  {
  }

  /** The first instruction of a chain's first slot: r1 is the slot's address and 4. */
  lemma FirstInstructionRuns(s: seq<Slot>, base: int, scratch: seq<(int, int)>, i: nat, next: int, cpu: Cpu)
    requires Place(s, base, i, true, next) && base % 4 == 0 && cpu.pc == SlotAt(base, i)
    ensures Step(s, base, scratch, cpu) == Some(cpu.(r1 := SlotAt(base, i) + 4, pc := Inst2At(base, i)))
  {
    SlotFacts(base, i);
    SlotInstructions();
    hide Decode, AlignedPc, SlotOf;
  }

  /** The second one: a branch to the code behind the slots. */
  lemma FirstBranchRuns(s: seq<Slot>, base: int, scratch: seq<(int, int)>, i: nat, next: int, cpu: Cpu)
    requires Place(s, base, i, true, next) && base % 4 == 0 && cpu.pc == Inst2At(base, i)
    ensures Step(s, base, scratch, cpu) == Some(cpu.(pc := FirstSlotCode(base, |s|)))
  {
    SlotFacts(base, i);
    SlotsInBranchRange(base, |s|, i, i);
    BranchRoundTrip(Inst2At(base, i), FirstSlotCode(base, |s|), 0);
    BranchDecodes(Inst2At(base, i), s[i].inst2);
    hide Decode, MakeBranch, ResolveBranch, IsBranch, AlignedPc, SlotOf;
  }

  lemma FirstCallRuns(s: seq<Slot>, base: int, scratch: seq<(int, int)>, i: nat, cpu: Cpu)
    requires i < |s| && base % 4 == 0 && cpu.pc == FirstSlotCode(base, |s|) && cpu.r1 == SlotAt(base, i) + 4
    ensures Step(s, base, scratch, cpu)
            == Some(Called(cpu.(stack := [cpu.r0, cpu.lr] + cpu.stack), s[i].handler, Inst3At(base, i), scratch))
  {
    SlotFacts(base, i);
    hide SlotOf;
  }

  /** The first two instructions of a chain's first slot call its handler, with the exception's return saved. */
  lemma FirstSlotRuns(s: seq<Slot>, base: int, scratch: seq<(int, int)>, i: nat, next: int, cpu: Cpu, n: nat)
    requires Place(s, base, i, true, next) && base % 4 == 0
    requires cpu.pc == SlotAt(base, i) && !cpu.returned
    ensures Run(s, base, scratch, cpu, n + 3)
            == Run(s, base, scratch,
                   Called(cpu.(stack := [cpu.r0, cpu.lr] + cpu.stack), s[i].handler, Inst3At(base, i), scratch), n)
  {
    assert i < |s|;
    hide Step, Place, SlotAt;
    var c1 := cpu.(r1 := SlotAt(base, i) + 4, pc := Inst2At(base, i));
    FirstInstructionRuns(s, base, scratch, i, next, cpu);
    var c2 := c1.(pc := FirstSlotCode(base, |s|));
    FirstBranchRuns(s, base, scratch, i, next, c1);
    FirstCallRuns(s, base, scratch, i, c2);
    assert Run(s, base, scratch, cpu, n + 3) == Run(s, base, scratch, c1, n + 2);
    assert Run(s, base, scratch, c1, n + 2) == Run(s, base, scratch, c2, n + 1);
  }

  /** The first two instructions of any other slot call its handler. */
  lemma NextSlotRuns(s: seq<Slot>, base: int, scratch: seq<(int, int)>, i: nat, next: int, cpu: Cpu, n: nat)
    requires Place(s, base, i, false, next) && base % 4 == 0
    requires cpu.pc == SlotAt(base, i) && !cpu.returned
    ensures Run(s, base, scratch, cpu, n + 2)
            == Run(s, base, scratch, Called(cpu, s[i].handler, Inst3At(base, i), scratch), n)
  {
    SlotFacts(base, i);
    SlotInstructions();
    hide Decode;
    var c1 := cpu.(r0 := s[i].handler, pc := Inst2At(base, i));
    assert Step(s, base, scratch, cpu) == Some(c1);
    assert Step(s, base, scratch, c1) == Some(Called(cpu, s[i].handler, Inst3At(base, i), scratch));
    assert Run(s, base, scratch, cpu, n + 2) == Run(s, base, scratch, c1, n + 1);
  }

  /** The third instruction goes to the next slot, or leaves the exception. */
  lemma ThirdInstructionRuns(s: seq<Slot>, base: int, scratch: seq<(int, int)>, i: nat, first: bool, next: int,
                             cpu: Cpu, n: nat)
    requires Place(s, base, i, first, next) && base % 4 == 0
    requires cpu.pc == Inst3At(base, i) && !cpu.returned && |cpu.stack| >= 2
    ensures Run(s, base, scratch, cpu, n + 1)
            == Run(s, base, scratch,
                   if next >= 0 then cpu.(pc := SlotAt(base, next))
                   else cpu.(r0 := cpu.stack[0], pc := cpu.stack[1], stack := cpu.stack[2..], returned := true), n)
  {
    SlotFacts(base, i);
    SlotInstructions();
    if next >= 0 {
      NextRoundTrip(base, |s|, i, next);
      BranchDecodes(Inst3At(base, i), s[i].inst3);
    }
    hide Decode, ResolveBranch, IsBranch, NextCode;
  }

  lemma ReturnedRuns(s: seq<Slot>, base: int, scratch: seq<(int, int)>, cpu: Cpu, n: nat)
    requires cpu.returned
    ensures Run(s, base, scratch, cpu, n) == Some(cpu)
  {
  }

  /** The slots of c are a chain in code and links, and h is what they call. */
  ghost predicate Calls(s: seq<Slot>, base: int, c: seq<nat>, h: seq<int>) {
    && base % 4 == 0 && |h| == |c|
    && forall k :: 0 <= k < |c| ==> Place(s, base, c[k], k == 0, NextOf(c, k)) && h[k] == s[c[k]].handler
  }

  lemma CallsAt(s: seq<Slot>, base: int, c: seq<nat>, h: seq<int>, k: nat)
    requires Calls(s, base, c, h) && k < |c|
    ensures Place(s, base, c[k], k == 0, NextOf(c, k)) && c[k] < |s| && h[k] == s[c[k]].handler
    ensures NextOf(c, k) == if k + 1 < |c| then c[k + 1] else -1
  {
  }

  /** From the third instruction of the slot at place k, the rest of the chain is called, and no more. */
  lemma {:induction false} RestOfChainRuns(s: seq<Slot>, base: int, scratch: seq<(int, int)>, c: seq<nat>, h: seq<int>,
                                           k: nat, cpu: Cpu)
    requires Calls(s, base, c, h) && k < |c|
    requires base % 4 == 0 && |h| == |c|
    requires cpu.pc == Inst3At(base, c[k]) && !cpu.returned && |cpu.stack| >= 2
    ensures var r := Run(s, base, scratch, cpu, 3 * (|c| - 1 - k) + 1);
            && r.Some? && r.value.returned && r.value.pc == cpu.stack[1] && r.value.stack == cpu.stack[2..]
            && r.value.calls == cpu.calls + h[k + 1..]
    decreases |c| - k
  {
    hide Run, Step, Place, Calls, SlotAt, NextOf;
    var n := 3 * (|c| - 1 - k);
    CallsAt(s, base, c, h, k);
    ThirdInstructionRuns(s, base, scratch, c[k], k == 0, NextOf(c, k), cpu, n);
    if k + 1 < |c| {
      var at := cpu.(pc := SlotAt(base, c[k + 1]));
      CallsAt(s, base, c, h, k + 1);
      NextSlotRuns(s, base, scratch, c[k + 1], NextOf(c, k + 1), at, n - 2);
      RestOfChainRuns(s, base, scratch, c, h, k + 1, Called(at, h[k + 1], Inst3At(base, c[k + 1]), scratch));
      assert h[k + 1..] == [h[k + 1]] + h[k + 2..];
    } else {
      var left := cpu.(r0 := cpu.stack[0], pc := cpu.stack[1], stack := cpu.stack[2..], returned := true);
      ReturnedRuns(s, base, scratch, left, n);
      assert h[k + 1..] == [];
    }
  }

  /** Taking an interrupt at the first slot of a chain. */
  lemma ChainRuns(s: seq<Slot>, base: int, scratch: seq<(int, int)>, c: seq<nat>, h: seq<int>, cpu: Cpu)
    requires Calls(s, base, c, h) && c != []
    requires cpu.pc == SlotAt(base, c[0]) && !cpu.returned
    ensures var r := Run(s, base, scratch, cpu, 3 * |c| + 1);
            && r.Some? && r.value.returned && r.value.pc == cpu.lr && r.value.stack == cpu.stack
            && r.value.calls == cpu.calls + h
  {
    hide Run, Step, Place, SlotAt, NextOf;
    CallsAt(s, base, c, h, 0);
    FirstSlotRuns(s, base, scratch, c[0], NextOf(c, 0), cpu, 3 * (|c| - 1) + 1);
    var at := Called(cpu.(stack := [cpu.r0, cpu.lr] + cpu.stack), h[0], Inst3At(base, c[0]), scratch);
    RestOfChainRuns(s, base, scratch, c, h, 0, at);
    assert h == [h[0]] + h[1..];
    assert at.stack[2..] == cpu.stack;
  }

  /**
   * Taking an interrupt with a chain: the emitted code calls exactly the handlers of the slots that
   * the links reach, in that order, and leaves the exception with the stack as it was.
   */
  lemma InterruptRunsChain(s: seq<Slot>, base: int, vtable: seq<int>, head: int, chains: seq<seq<nat>>, free: seq<nat>,
                           num: nat, scratch: seq<(int, int)>, cpu: Cpu)
    requires IsTable(s, base, vtable, head, chains, free) && num < |chains| && chains[num] != []
    requires cpu.pc == vtable[num] - 1 && !cpu.returned
    ensures var r := Run(s, base, scratch, cpu, 3 * |chains[num]| + 1);
            && r.Some? && r.value.returned && r.value.pc == cpu.lr && r.value.stack == cpu.stack
            && r.value.calls == cpu.calls + Handlers(Entries(s, chains[num]))
    ensures Sorted(Entries(s, chains[num]))
  {
    var c := chains[num];
    assert IsChain(s, base, c) && Vectored(base, |s|, vtable[num], c);
    assert Calls(s, base, c, Handlers(Entries(s, c)));
    hide IsTable, Run, Calls;
    ChainRuns(s, base, scratch, c, Handlers(Entries(s, c)), cpu);
  }
}

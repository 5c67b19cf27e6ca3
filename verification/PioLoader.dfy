/**
 * Loading programs into the 32 words of PIO instruction memory: a mask of used words, the search for
 * room from the top down, and the relocation of jumps.
 */
module PioLoader {
  import opened Options
  import PioCodec
  import opened SymbolValues

  /** A program of 1 to 32 words of 16 bits; a negative origin asks for no particular place. */
  datatype Program = Program(words: seq<nat>, origin: int) {
    predicate Fits() {
      1 <= |words| <= 32 && forall i :: 0 <= i < |words| ==> words[i] < 0x1_0000
    }
  }

  /** A program at the place where it has been loaded. */
  datatype Loaded = Loaded(program: Program, offset: nat) {
    predicate Fits() { program.Fits() && offset + |program.words| <= 32 }
  }

  predicate Between(b: nat, offset: nat, length: nat) { offset <= b < offset + length }

  /** program_mask << offset as the set of its bits; a mask of 32 bits has them all. */
  function Mask(length: nat, offset: nat): set<nat> {
    set b: nat | b < 32 && Between(b, offset, length)
  }

  predicate IsJump(word: nat) { word / 0x2000 == 0 }

  /** What is stored for a word of a program at an offset; the sum is cut to 16 bits. */
  function Relocated(word: nat, offset: nat): nat {
    if IsJump(word) then (word + offset) % 0x1_0000 else word
  }

  predicate Free(used: set<nat>, length: nat, offset: nat) { used !! Mask(length, offset) }

  // The behaviour of a program.

  /** What a word does apart from where it jumps to. */
  function Effect(word: nat): nat { if IsJump(word) then word - word % 32 else word }

  function Target(word: nat): nat { word % 32 }

  /** Conditions are bits 5 to 7 of a jump, zero for a jump that is always taken. */
  predicate Taken(word: nat, outcome: bool) { IsJump(word) && (word / 32 % 8 == 0 || outcome) }

  datatype Wrap = Wrap(target: nat, top: nat)

  /** The next pc in instruction memory, given whether the condition of a jump holds. */
  function Next(memory: seq<nat>, wrap: Wrap, pc: nat, outcome: bool): nat
    requires |memory| == 32 && pc < 32
  {
    if Taken(memory[pc], outcome) then Target(memory[pc])
    else if pc == wrap.top then wrap.target
    else (pc + 1) % 32
  }

  /** The next pc within a program, which may run off its end. */
  function NextInProgram(words: seq<nat>, wrap: Wrap, pc: nat, outcome: bool): nat
    requires pc < |words|
  {
    if Taken(words[pc], outcome) then Target(words[pc])
    else if pc == wrap.top then wrap.target
    else pc + 1
  }

  datatype Step = Step(pc: nat, effect: nat)

  /** The steps of instruction memory for a sequence of branch outcomes. */
  function Run(memory: seq<nat>, wrap: Wrap, pc: nat, outcomes: seq<bool>): seq<Step>
    requires |memory| == 32 && pc < 32 && wrap.target < 32
    decreases |outcomes|
  {
    if outcomes == [] then []
    else [Step(pc, Effect(memory[pc]))] + Run(memory, wrap, Next(memory, wrap, pc, outcomes[0]), outcomes[1..])
  }

  /** The steps of a program, up to where it runs off its end. */
  function RunProgram(words: seq<nat>, wrap: Wrap, pc: nat, outcomes: seq<bool>): seq<Step>
    decreases |outcomes|
  {
    if outcomes == [] || pc >= |words| then []
    else
      [Step(pc, Effect(words[pc]))]
      + RunProgram(words, wrap, NextInProgram(words, wrap, pc, outcomes[0]), outcomes[1..])
  }

  /** Every jump of a program leads into the program. */
  ghost predicate JumpsInside(words: seq<nat>) {
    forall i :: 0 <= i < |words| && IsJump(words[i]) ==> Target(words[i]) < |words|
  }

  /** The loaded steps start with the program's own steps, at a pc moved by k. */
  ghost predicate Alike(alone: seq<Step>, loaded: seq<Step>, k: nat) {
    |alone| <= |loaded| && forall i :: 0 <= i < |alone| ==> loaded[i] == Step(alone[i].pc + k, alone[i].effect)
  }

  /** The words of a program are in memory, relocated. */
  ghost predicate HoldsProgram(memory: seq<nat>, l: Loaded)
    requires |memory| == 32 && l.Fits()
  {
    forall i :: 0 <= i < |l.program.words| ==> memory[l.offset + i] == Relocated(l.program.words[i], l.offset)
  }

  /** Relocating a jump adds the offset to its target without a carry into the other fields. */
  lemma RelocatedJump(word: nat, offset: nat, length: nat)
    requires word < 0x1_0000 && IsJump(word) && Target(word) < length && offset + length <= 32
    ensures var r := Relocated(word, offset);
            IsJump(r) && Target(r) == Target(word) + offset && Effect(r) == Effect(word)
            && forall outcome :: Taken(r, outcome) == Taken(word, outcome)
  {
    var r := Relocated(word, offset);
    assert r == (word - word % 32) + (word % 32 + offset);
    assert r / 32 == word / 32;
  }

  /**
   * In memory, a program does at every step what it does by itself, at the pc it has by itself plus
   * the offset, for as long as it does not run off its end.
   */
  lemma {:induction false} LoadedRunsAlike(memory: seq<nat>, l: Loaded, wrap: Wrap, pc: nat, outcomes: seq<bool>)
    requires |memory| == 32 && l.Fits() && HoldsProgram(memory, l) && JumpsInside(l.program.words)
    requires pc < |l.program.words| && wrap.target < |l.program.words| && wrap.top < |l.program.words|
    ensures var alone := RunProgram(l.program.words, wrap, pc, outcomes);
            var loaded := Run(memory, Wrap(wrap.target + l.offset, wrap.top + l.offset), pc + l.offset, outcomes);
            Alike(alone, loaded, l.offset)
    decreases |outcomes|
  {
    var words, k := l.program.words, l.offset;
    var wrap' := Wrap(wrap.target + k, wrap.top + k);
    if outcomes != [] {
      var next := NextInProgram(words, wrap, pc, outcomes[0]);
      NextAlike(memory, l, wrap, pc, outcomes[0]);
      hide Next, NextInProgram, HoldsProgram, JumpsInside, Effect;
      if next < |words| {
        LoadedRunsAlike(memory, l, wrap, next, outcomes[1..]);
      }
    }
  }

  lemma NextAlike(memory: seq<nat>, l: Loaded, wrap: Wrap, pc: nat, outcome: bool)
    requires |memory| == 32 && l.Fits() && HoldsProgram(memory, l) && JumpsInside(l.program.words)
    requires pc < |l.program.words| && wrap.target < |l.program.words|
    ensures Effect(memory[pc + l.offset]) == Effect(l.program.words[pc])
    ensures var next := NextInProgram(l.program.words, wrap, pc, outcome);
            next < |l.program.words| ==>
              Next(memory, Wrap(wrap.target + l.offset, wrap.top + l.offset), pc + l.offset, outcome) == next + l.offset
  {
    var word := l.program.words[pc];
    assert memory[l.offset + pc] == Relocated(word, l.offset);
    if IsJump(word) {
      RelocatedJump(word, l.offset, |l.program.words|);
    }
  }

  /** A program that wraps at its last word never runs off its end. */
  lemma {:induction false} WrapKeepsInside(words: seq<nat>, wrap: Wrap, pc: nat, outcomes: seq<bool>)
    requires JumpsInside(words) && wrap.target < |words| && wrap.top == |words| - 1 && pc < |words|
    ensures |RunProgram(words, wrap, pc, outcomes)| == |outcomes|
    decreases |outcomes|
  {
    if outcomes != [] {
      WrapKeepsInside(words, wrap, NextInProgram(words, wrap, pc, outcomes[0]), outcomes[1..]);
    }
  }

  // Assembled programs.

  /** What the assembler makes of a program of instructions it accepts. */
  ghost predicate IsAssembly(meanings: seq<PioCodec.Meaning>, sideSet: Option<int32>, optional: bool,
                             words: seq<nat>)
  {
    && |words| == |meanings| <= 32
    && forall i :: 0 <= i < |meanings| ==>
         && PioCodec.Encodable(meanings[i], |meanings|, sideSet, optional)
         && PioCodec.EncodeMeaning(meanings[i], |meanings|, PioCodec.Finalize(sideSet, optional).value)
            == Some(words[i])
  }

  /** The jumps of an assembled program lead into it, so it can be loaded anywhere. */
  lemma AssembledJumpsInside(meanings: seq<PioCodec.Meaning>, sideSet: Option<int32>, optional: bool,
                             words: seq<nat>)
    requires IsAssembly(meanings, sideSet, optional, words)
    ensures JumpsInside(words) && forall i :: 0 <= i < |words| ==> words[i] < 0x1_0000
  {
    hide PioCodec.EncodeMeaning, PioCodec.Encodable;
    forall i | 0 <= i < |words|
      ensures words[i] < 0x1_0000 && (IsJump(words[i]) ==> Target(words[i]) < |words|)
    {
      assert PioCodec.Encodable(meanings[i], |meanings|, sideSet, optional);
      PioCodec.EncodedJump(meanings[i], |meanings|, sideSet, optional);
    }
  }

  /** The bits by which a jump, its condition and its target are known are those of the instruction. */
  lemma JumpsOfInstructions(m: PioCodec.Meaning, length: nat, sideSet: Option<int32>, optional: bool, outcome: bool)
    requires PioCodec.Encodable(m, length, sideSet, optional) && length <= 32
    ensures var w := PioCodec.EncodeMeaning(m, length, PioCodec.Finalize(sideSet, optional).value).value;
            && (IsJump(w) <==> m.op.Jmp?)
            && (Taken(w, outcome) <==> m.op.Jmp? && (m.op.cond.Always? || outcome))
            && (m.op.Jmp? ==> Target(w) == m.op.target < length)
  {
    PioCodec.EncodedJump(m, length, sideSet, optional);
    hide PioCodec.EncodeMeaning, PioCodec.Encodable, PioCodec.Finalize;
  }

  /**
   * Where an assembled program goes from an instruction: a jump that is not conditional, or whose condition
   * holds, to its target, and anything else to the next instruction or, from the top, to the wrap target.
   */
  lemma AssembledNext(meanings: seq<PioCodec.Meaning>, sideSet: Option<int32>, optional: bool, words: seq<nat>,
                      wrap: Wrap, pc: nat, outcome: bool)
    requires IsAssembly(meanings, sideSet, optional, words) && pc < |words|
    ensures var op := meanings[pc].op;
            NextInProgram(words, wrap, pc, outcome)
            == if op.Jmp? && (op.cond.Always? || outcome) then op.target
               else if pc == wrap.top then wrap.target else pc + 1
  {
    JumpsOfInstructions(meanings[pc], |meanings|, sideSet, optional, outcome);
    hide PioCodec.EncodeMeaning, PioCodec.Encodable, PioCodec.Finalize, Taken, Target;
  }

  /** The same in memory, from wherever the program has been loaded. */
  lemma LoadedNext(memory: seq<nat>, l: Loaded, meanings: seq<PioCodec.Meaning>, sideSet: Option<int32>,
                   optional: bool, wrap: Wrap, pc: nat, outcome: bool)
    requires |memory| == 32 && l.Fits() && HoldsProgram(memory, l) && pc < |l.program.words|
    requires IsAssembly(meanings, sideSet, optional, l.program.words)
    requires wrap.target < |l.program.words| && wrap.top < |l.program.words|
    ensures var op := meanings[pc].op;
            Next(memory, Wrap(wrap.target + l.offset, wrap.top + l.offset), pc + l.offset, outcome)
            == if op.Jmp? && (op.cond.Always? || outcome) then op.target + l.offset
               else if pc == wrap.top then wrap.target + l.offset else (pc + 1 + l.offset) % 32
  {
    AssembledJumpsInside(meanings, sideSet, optional, l.program.words);
    JumpsOfInstructions(meanings[pc], |meanings|, sideSet, optional, outcome);
    hide PioCodec.EncodeMeaning, PioCodec.Encodable, PioCodec.Finalize;
    var word := l.program.words[pc];
    assert memory[l.offset + pc] == Relocated(word, l.offset);
    if IsJump(word) {
      RelocatedJump(word, l.offset, |l.program.words|);
    }
    hide HoldsProgram, JumpsInside, IsAssembly;
  }

  /** A place is free exactly if none of its words is used. */
  lemma FreeIff(used: set<nat>, length: nat, offset: nat)
    requires offset + length <= 32
    ensures Free(used, length, offset) <==> forall b: nat :: offset <= b < offset + length ==> b !in used
  {
    assert forall b: nat :: offset <= b < offset + length ==> b in Mask(length, offset);
  }

  // The allocator.

  predicate Apart(l1: Loaded, l2: Loaded) {
    l1.offset + |l1.program.words| <= l2.offset || l2.offset + |l2.program.words| <= l1.offset
  }

  /** Every program is in memory, no two share a word, and the mask has the words of all of them. */
  ghost predicate IsHistory(memory: seq<nat>, used: set<nat>, loaded: set<Loaded>) {
    && |memory| == 32
    && (forall l :: l in loaded ==> l.Fits() && HoldsProgram(memory, l))
    && (forall l1, l2 :: l1 in loaded && l2 in loaded && l1 != l2 ==> Apart(l1, l2))
    && (forall l :: l in loaded ==> Mask(|l.program.words|, l.offset) <= used)
  }

  /** The mask has no other words. */
  ghost predicate IsExact(used: set<nat>, loaded: set<Loaded>) {
    forall b :: b in used ==> exists l :: l in loaded && Between(b, l.offset, |l.program.words|)
  }

  /** Room in the mask is room beside every program loaded. */
  lemma FreeIsApart(memory: seq<nat>, used: set<nat>, loaded: set<Loaded>, l: Loaded, other: Loaded)
    requires IsHistory(memory, used, loaded) && l.Fits() && Free(used, |l.program.words|, l.offset) && other in loaded
    ensures Apart(l, other)
  {
    var b := if l.offset >= other.offset then l.offset else other.offset;
    assert Between(b, other.offset, |other.program.words|) ==> b in Mask(|other.program.words|, other.offset);
    assert Between(b, l.offset, |l.program.words|) ==> b in Mask(|l.program.words|, l.offset);
  }

  lemma HistoryAfterAdd(memory: seq<nat>, memory': seq<nat>, used: set<nat>, loaded: set<Loaded>, l: Loaded)
    requires IsHistory(memory, used, loaded) && l.Fits() && Free(used, |l.program.words|, l.offset)
    requires |memory'| == 32 && HoldsProgram(memory', l)
    requires forall j :: 0 <= j < 32 && !Between(j, l.offset, |l.program.words|) ==> memory'[j] == memory[j]
    ensures IsHistory(memory', used + Mask(|l.program.words|, l.offset), loaded + {l})
    ensures IsExact(used, loaded) ==> IsExact(used + Mask(|l.program.words|, l.offset), loaded + {l})
  {
    forall other | other in loaded ensures Apart(l, other) && HoldsProgram(memory', other) {
      FreeIsApart(memory, used, loaded, l, other);
      forall i | 0 <= i < |other.program.words|
        ensures memory'[other.offset + i] == Relocated(other.program.words[i], other.offset)
      {
        assert !Between(other.offset + i, l.offset, |l.program.words|);
      }
    }
    var more := loaded + {l};
    assert l in more;
    if IsExact(used, loaded) {
      forall b | b in used + Mask(|l.program.words|, l.offset)
        ensures exists k :: k in more && Between(b, k.offset, |k.program.words|)
      {
        if b in used {
          var k :| k in loaded && Between(b, k.offset, |k.program.words|);
          assert k in more;
        }
      }
    }
  }

  /** The programs that keep all their words when a range is given back. */
  ghost function Spared(loaded: set<Loaded>, length: nat, offset: nat): set<Loaded> {
    set l | l in loaded && Mask(|l.program.words|, l.offset) !! Mask(length, offset)
  }

  lemma HistoryAfterRemove(memory: seq<nat>, used: set<nat>, loaded: set<Loaded>, length: nat, offset: nat)
    requires IsHistory(memory, used, loaded)
    ensures IsHistory(memory, used - Mask(length, offset), Spared(loaded, length, offset))
  {
    hide HoldsProgram;
  }

  /** Giving back the words of a program spares exactly the others, and keeps the mask exact. */
  lemma ExactAfterRemove(memory: seq<nat>, used: set<nat>, loaded: set<Loaded>, l: Loaded)
    requires IsHistory(memory, used, loaded) && l in loaded
    ensures Spared(loaded, |l.program.words|, l.offset) == loaded - {l}
    ensures IsExact(used, loaded) ==> IsExact(used - Mask(|l.program.words|, l.offset), loaded - {l})
  {
    hide HoldsProgram;
    var mask, less := Mask(|l.program.words|, l.offset), loaded - {l};
    assert l.offset in mask;
    forall k | k in less ensures Mask(|k.program.words|, k.offset) !! mask {
      assert Apart(k, l);
    }
    if IsExact(used, loaded) {
      forall b | b in used - mask ensures exists k :: k in less && Between(b, k.offset, |k.program.words|) {
        var k :| k in loaded && Between(b, k.offset, |k.program.words|);
        assert Mask(|k.program.words|, k.offset) <= used && l.Fits() && k.Fits();
        assert k in less;
      }
    }
  }

  class Pio {
    const instrMem: array<nat>
    var used: set<nat>
    ghost var loaded: set<Loaded>

    ghost predicate Valid()
      reads this, instrMem
    {
      instrMem.Length == 32 && IsHistory(instrMem[..], used, loaded)
    }

    /** The used words are exactly those of the programs loaded. */
    ghost predicate Exact()
      reads this
    {
      IsExact(used, loaded)
    }

    constructor ()
      ensures Valid() && Exact() && fresh(instrMem) && used == {} && loaded == {}
    {
      instrMem := new nat[32];
      used := {};
      loaded := {};
    }

    /** The origin if there is room there; without an origin the highest room, found from the top down. */
    method FindOffset(program: Program) returns (offset: int)
      requires Valid() && program.Fits()
      ensures program.origin >= 0 ==>
        offset == if program.origin + |program.words| <= 32 && Free(used, |program.words|, program.origin)
                  then program.origin else -1
      ensures program.origin < 0 && offset < 0 ==>
        offset == -1 && forall i: nat :: i + |program.words| <= 32 ==> !Free(used, |program.words|, i)
      ensures program.origin < 0 && offset >= 0 ==>
        && offset + |program.words| <= 32 && Free(used, |program.words|, offset)
        && forall i: nat :: offset < i && i + |program.words| <= 32 ==> !Free(used, |program.words|, i)
    {
      var length := |program.words|;
      if program.origin >= 0 {
        if program.origin > 32 - length {
          return -1;
        }
        return if Free(used, length, program.origin) then program.origin else -1;
      }
      var i := 32 - length;
      while i >= 0
        invariant -1 <= i <= 32 - length
        invariant forall j: nat :: i < j && j + length <= 32 ==> !Free(used, length, j)
      {
        if Free(used, length, i) {
          return i;
        }
        i := i - 1;
      }
      return -1;
    }

    predicate CanAddAtOffset(program: Program, offset: nat)
      reads this
    {
      (program.origin < 0 || program.origin == offset) && Free(used, |program.words|, offset)
    }

    /** Stores a program at an offset, unless the place is taken or is not the program's origin. */
    method AddAtOffset(program: Program, offset: nat) returns (ok: bool)
      requires Valid() && program.Fits() && offset + |program.words| <= 32
      modifies this, instrMem
      ensures Valid() && (old(Exact()) ==> Exact())
      ensures ok <==> (program.origin < 0 || program.origin == offset)
                      && forall b: nat :: offset <= b < offset + |program.words| ==> b !in old(used)
      ensures ok ==> loaded == old(loaded) + {Loaded(program, offset)}
      ensures ok ==> used == old(used) + Mask(|program.words|, offset)
      ensures ok ==> forall j :: 0 <= j < 32 && !Between(j, offset, |program.words|) ==> instrMem[j] == old(instrMem[j])
      ensures !ok ==> loaded == old(loaded) && used == old(used) && instrMem[..] == old(instrMem[..])
    {
      FreeIff(used, |program.words|, offset);
      if !CanAddAtOffset(program, offset) {
        return false;
      }
      ghost var l := Loaded(program, offset);
      var i := 0;
      while i < |program.words|
        invariant i <= |program.words|
        invariant forall k :: 0 <= k < i ==> instrMem[offset + k] == Relocated(program.words[k], offset)
        invariant forall j :: 0 <= j < 32 && !Between(j, offset, |program.words|) ==> instrMem[j] == old(instrMem[j])
        modifies instrMem
      {
        var instr := program.words[i];
        instrMem[offset + i] := if instr / 0x2000 != 0 then instr else (instr + offset) % 0x1_0000;
        i := i + 1;
      }
      HistoryAfterAdd(old(instrMem[..]), instrMem[..], used, loaded, l);
      used := used + Mask(|program.words|, offset);
      loaded := loaded + {l};
      return true;
    }

    /** Loads a program wherever FindOffset finds room; a panic of the source is the absence of an offset. */
    method Add(program: Program) returns (offset: int)
      requires Valid() && program.Fits()
      modifies this, instrMem
      ensures Valid() && (old(Exact()) ==> Exact())
      ensures offset < 0 ==> loaded == old(loaded) && used == old(used) && instrMem[..] == old(instrMem[..])
      ensures offset >= 0 ==>
        && offset + |program.words| <= 32 && Free(old(used), |program.words|, offset)
        && loaded == old(loaded) + {Loaded(program, offset)}
      ensures program.origin < 0 ==>
        forall i: nat :: offset < i && i + |program.words| <= 32 ==> !Free(old(used), |program.words|, i)
      ensures program.origin >= 0 ==>
        offset == if program.origin + |program.words| <= 32 && Free(old(used), |program.words|, program.origin)
                  then program.origin else -1
    {
      offset := FindOffset(program);
      if offset < 0 {
        return;
      }
      var ok := AddAtOffset(program, offset);
      assert ok;
    }

    /**
     * Gives back a range of used words. Programs that have no word in the range stay; when the range is
     * that of a program, exactly that program goes.
     */
    method Remove(program: Program, offset: nat)
      requires Valid() && Mask(|program.words|, offset) <= used
      modifies `used, `loaded
      ensures Valid()
      ensures used == old(used) - Mask(|program.words|, offset)
      ensures loaded == Spared(old(loaded), |program.words|, offset)
      ensures Loaded(program, offset) in old(loaded) ==>
        loaded == old(loaded) - {Loaded(program, offset)} && (old(Exact()) ==> Exact())
    {
      HistoryAfterRemove(instrMem[..], used, loaded, |program.words|, offset);
      if Loaded(program, offset) in loaded {
        ExactAfterRemove(instrMem[..], used, loaded, Loaded(program, offset));
      }
      used := used - Mask(|program.words|, offset);
      loaded := Spared(loaded, |program.words|, offset);
    }

    /** Forgets every program, and fills the memory with jumps to themselves. */
    method ClearInstructionMemory()
      requires Valid()
      modifies this, instrMem
      ensures Valid() && Exact() && loaded == {} && used == {}
      ensures forall i :: 0 <= i < 32 ==> IsJump(instrMem[i]) && Target(instrMem[i]) == i && Taken(instrMem[i], false)
    {
      used := {};
      loaded := {};
      var i := 0;
      while i < 32
        invariant i <= 32
        invariant forall k :: 0 <= k < i ==> instrMem[k] == k
        modifies instrMem
      {
        instrMem[i] := i;
        i := i + 1;
      }
    }

    /**
     * Whatever has been added and removed, a program that is loaded still behaves as it does alone, and
     * with the default wrap it does so for ever.
     */
    lemma LoadedProgramRuns(l: Loaded, wrap: Wrap, pc: nat, outcomes: seq<bool>)
      requires Valid() && l in loaded && JumpsInside(l.program.words)
      requires pc < |l.program.words| && wrap.target < |l.program.words| && wrap.top < |l.program.words|
      ensures var alone := RunProgram(l.program.words, wrap, pc, outcomes);
              && (wrap.top == |l.program.words| - 1 ==> |alone| == |outcomes|)
              && var placed := Wrap(wrap.target + l.offset, wrap.top + l.offset);
              Alike(alone, Run(instrMem[..], placed, pc + l.offset, outcomes), l.offset)
    {
      LoadedRunsAlike(instrMem[..], l, wrap, pc, outcomes);
      if wrap.top == |l.program.words| - 1 {
        WrapKeepsInside(l.program.words, wrap, pc, outcomes);
      }
    }
  }
}

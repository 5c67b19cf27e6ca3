/**
 * Shared interrupt handlers: a pool of slots, each holding three Thumb instructions, a link, a
 * priority and a handler, chained per interrupt. The links are the data view of a chain; the third
 * instructions, which branch from slot to slot, are its code view.
 */
module IrqChains {

  datatype Slot = Slot(inst1: nat, inst2: nat, inst3: nat, link: int, priority: nat, handler: nat)

  /** A handler and its priority, in the order they are called. */
  datatype Entry = Entry(handler: nat, priority: nat)

  const SLOT_SIZE: nat := 12
  const SLOT_LIMIT: nat := 0x7f
  const ADD_R1_PC: nat := 0xa100  // add r1, pc, #0
  const LDR_R0_PC4: nat := 0x4801 // ldr r0, [pc, #4]
  const BLX_R0: nat := 0x4780     // blx r0
  const POP_R0_PC: nat := 0xbd01  // pop {r0, pc}

  /** Whether an unconditional Thumb branch at `from` can reach `to`. */
  predicate InBranchRange(from: int, to: int) {
    -2048 <= to - from - 4 <= 2046 && (to - from) % 2 == 0
  }

  /** make_branch: the halfword distance, cut to eleven bits, under the opcode. */
  function MakeBranch(from: int, to: int): (inst: nat)
    requires InBranchRange(from, to)
    ensures 0xe000 <= inst < 0xe800
  {
    0xe000 + (to - from - 4) / 2 % 2048
  }

  predicate IsBranch(inst: nat) { inst / 2048 == 0x1c }

  /** resolve_branch: the eleven bits, sign-extended, as a distance in halfwords. */
  function ResolveBranch(at: int, inst: nat): int
    requires IsBranch(inst)
  {
    var bits := inst % 2048;
    at + 4 + 2 * (if bits >= 1024 then bits - 2048 else bits)
  }

  /** resolve_branch and make_branch undo each other. */
  lemma BranchRoundTrip(from: int, to: int, inst: nat)
    ensures InBranchRange(from, to) ==>
              IsBranch(MakeBranch(from, to)) && ResolveBranch(from, MakeBranch(from, to)) == to
    ensures IsBranch(inst) ==>
              InBranchRange(from, ResolveBranch(from, inst)) && MakeBranch(from, ResolveBranch(from, inst)) == inst
  {
    if InBranchRange(from, to) {
      var half := (to - from - 4) / 2;
      assert to - from - 4 == 2 * half && -1024 <= half <= 1023;
      assert half % 2048 == if half < 0 then half + 2048 else half;
    }
    if IsBranch(inst) {
      var bits := inst % 2048;
      assert inst == 2048 * 0x1c + bits;
      var half := if bits >= 1024 then bits - 2048 else bits;
      assert half % 2048 == bits;
    }
  }

  function SlotAt(base: int, i: nat): int { base + SLOT_SIZE * i }
  function Inst2At(base: int, i: nat): int { SlotAt(base, i) + 2 }
  function Inst3At(base: int, i: nat): int { SlotAt(base, i) + 4 }
  /** irq_handler_chain_first_slot follows the slots in memory. */
  function FirstSlotCode(base: int, slots: nat): int { SlotAt(base, slots) }

  /** slot_diff: the distance in slots, by a multiplication instead of a division. */
  function SlotDiff(distance: nat): nat {
    (2 * distance + 1) * 0xaaaa / 0x10_0000
  }

  lemma SlotDiffIsIndex(i: nat)
    requires i < SLOT_LIMIT
    ensures SlotDiff(SLOT_SIZE * i) == i
  {
    assert (2 * (SLOT_SIZE * i) + 1) * 0xaaaa == 0x10_0000 * i + (0xaaaa - 16 * i);
  }

  /** Every branch between slots, and to the code after them, is in range. */
  lemma SlotsInBranchRange(base: int, slots: nat, i: nat, j: nat)
    requires i < slots < SLOT_LIMIT && j < slots
    ensures InBranchRange(Inst3At(base, i), SlotAt(base, j))
    ensures InBranchRange(Inst2At(base, i), FirstSlotCode(base, slots))
  {
  }

  ghost predicate InRange(s: seq<Slot>, c: seq<nat>) {
    forall k :: 0 <= k < |c| ==> c[k] < |s|
  }

  /** The entries of a chain of slots. */
  function Entries(s: seq<Slot>, c: seq<nat>): (e: seq<Entry>)
    ensures |e| == |c|
    ensures forall k :: 0 <= k < |c| && c[k] < |s| ==> e[k] == Entry(s[c[k]].handler, s[c[k]].priority)
  {
    seq(|c|, k requires 0 <= k < |c| => if c[k] < |s| then Entry(s[c[k]].handler, s[c[k]].priority) else Entry(0, 0))
  }

  ghost predicate Distinct(c: seq<nat>) {
    forall j, k :: 0 <= j < k < |c| ==> c[j] != c[k]
  }

  /** The branch in the second instruction of a chain's first slot. */
  function FirstCode(base: int, slots: nat, x: nat): nat
    requires x < slots < SLOT_LIMIT
  {
    SlotsInBranchRange(base, slots, x, x);
    MakeBranch(Inst2At(base, x), FirstSlotCode(base, slots))
  }

  /** The branch in the third instruction of a slot that another follows. */
  function NextCode(base: int, slots: nat, from: nat, to: nat): nat
    requires from < slots < SLOT_LIMIT && to < slots
  {
    SlotsInBranchRange(base, slots, from, to);
    MakeBranch(Inst3At(base, from), SlotAt(base, to))
  }

  /** The link and the code of slot i, when it is or is not a chain's first, and `next` follows. */
  ghost predicate Place(s: seq<Slot>, base: int, i: nat, first: bool, next: int) {
    && i < |s| < SLOT_LIMIT && -1 <= next < |s|
    && s[i].link == next
    && s[i].inst1 == (if first then ADD_R1_PC else LDR_R0_PC4)
    && s[i].inst2 == (if first then FirstCode(base, |s|, i) else BLX_R0)
    && s[i].inst3 == (if next >= 0 then NextCode(base, |s|, i, next) else POP_R0_PC)
  }

  function NextOf(c: seq<nat>, k: nat): int {
    if k + 1 < |c| then c[k + 1] else -1
  }

  ghost predicate Sorted(e: seq<Entry>) {
    forall j, k :: 0 <= j < k < |e| ==> e[j].priority >= e[k].priority
  }

  /** Links and code agree on the chain, and its priorities do not increase. */
  ghost predicate IsChain(s: seq<Slot>, base: int, c: seq<nat>) {
    && Distinct(c) && InRange(s, c)
    && (forall k :: 0 <= k < |c| ==> Place(s, base, c[k], k == 0, NextOf(c, k)))
    && Sorted(Entries(s, c))
  }

  lemma ChainFrame(s: seq<Slot>, t: seq<Slot>, base: int, c: seq<nat>)
    requires IsChain(s, base, c) && |t| == |s|
    requires forall k :: 0 <= k < |c| ==> t[c[k]] == s[c[k]]
    ensures IsChain(t, base, c) && Entries(t, c) == Entries(s, c)
  {
    forall k | 0 <= k < |c| ensures Place(t, base, c[k], k == 0, NextOf(c, k)) {
      assert Place(s, base, c[k], k == 0, NextOf(c, k));
    }
    assert Entries(t, c) == Entries(s, c);
  }

  // What adding and removing do to the entries of a chain.

  /** A new entry goes before the first of no greater priority. */
  function InsertEntry(e: seq<Entry>, x: Entry): seq<Entry> {
    if e == [] || e[0].priority <= x.priority then [x] + e else [e[0]] + InsertEntry(e[1..], x)
  }

  /** The first entry with the handler goes. */
  function RemoveEntry(e: seq<Entry>, handler: nat): seq<Entry> {
    if e == [] then []
    else if e[0].handler == handler then e[1..]
    else [e[0]] + RemoveEntry(e[1..], handler)
  }

  lemma {:induction false} InsertAtPlace(e: seq<Entry>, x: Entry, p: nat)
    requires p <= |e| && forall k :: 0 <= k < p ==> e[k].priority > x.priority
    requires p < |e| ==> e[p].priority <= x.priority
    ensures InsertEntry(e, x) == e[..p] + [x] + e[p..]
  {
    if p > 0 {
      assert InsertEntry(e, x) == [e[0]] + InsertEntry(e[1..], x);
      InsertAtPlace(e[1..], x, p - 1);
      hide InsertEntry;
      InsertShifts(e, x, p);
    } else {
      assert e[..0] + [x] + e[0..] == [x] + e;
    }
  }

  lemma InsertShifts(e: seq<Entry>, x: Entry, p: nat)
    requires 0 < p <= |e|
    ensures [e[0]] + (e[1..][..p - 1] + [x] + e[1..][p - 1..]) == e[..p] + [x] + e[p..]
  {
  }

  lemma {:induction false} RemoveAtPlace(e: seq<Entry>, handler: nat, p: nat)
    requires p < |e| && e[p].handler == handler
    requires forall k :: 0 <= k < p ==> e[k].handler != handler
    ensures RemoveEntry(e, handler) == e[..p] + e[p + 1..]
  {
    if p > 0 {
      RemoveAtPlace(e[1..], handler, p - 1);
      assert e[..p] == [e[0]] + e[1..][..p - 1] && e[1..][p..] == e[p + 1..];
    }
  }

  lemma {:induction false} RemoveAbsent(e: seq<Entry>, handler: nat)
    requires forall k :: 0 <= k < |e| ==> e[k].handler != handler
    ensures RemoveEntry(e, handler) == e
  {
    if e != [] {
      RemoveAbsent(e[1..], handler);
    }
  }

  /** In an order by priority, a new entry goes before all of no greater priority and behind the others. */
  lemma InsertedByPriority(e: seq<Entry>, x: Entry) returns (p: nat)
    requires Sorted(e)
    ensures p <= |e| && InsertEntry(e, x) == e[..p] + [x] + e[p..]
    ensures forall k :: 0 <= k < p ==> e[k].priority > x.priority
    ensures forall k :: p <= k < |e| ==> e[k].priority <= x.priority
  {
    p := 0;
    while p < |e| && e[p].priority > x.priority
      invariant p <= |e| && forall k :: 0 <= k < p ==> e[k].priority > x.priority
    {
      p := p + 1;
    }
    InsertAtPlace(e, x, p);
  }

  /** The first entry with the handler goes, and if there is none nothing does. */
  lemma RemovedFirst(e: seq<Entry>, handler: nat) returns (p: nat)
    ensures p <= |e| && forall k :: 0 <= k < p ==> e[k].handler != handler
    ensures if p == |e| then RemoveEntry(e, handler) == e
            else e[p].handler == handler && RemoveEntry(e, handler) == e[..p] + e[p + 1..]
  {
    p := 0;
    while p < |e| && e[p].handler != handler
      invariant p <= |e| && forall k :: 0 <= k < p ==> e[k].handler != handler
    {
      p := p + 1;
    }
    if p == |e| {
      RemoveAbsent(e, handler);
    } else {
      RemoveAtPlace(e, handler, p);
    }
  }

  // The slots after an operation on one chain.

  /** x has been put at place p of the chain c, with its code and that of its neighbours. */
  ghost predicate InsertedAt(s: seq<Slot>, t: seq<Slot>, base: int, c: seq<nat>, p: nat, x: nat, e: Entry) {
    && |t| == |s| < SLOT_LIMIT && InRange(s, c) && p <= |c| && x < |s|
    && t[x] == Slot(if p == 0 then ADD_R1_PC else LDR_R0_PC4,
                    if p == 0 then FirstCode(base, |s|, x) else BLX_R0,
                    if p < |c| then NextCode(base, |s|, x, c[p]) else POP_R0_PC,
                    if p < |c| then c[p] else -1, e.priority, e.handler)
    && (forall k :: 0 <= k < |c| && k != p - 1 && (p > 0 || k > 0) ==> t[c[k]] == s[c[k]])
    && (p > 0 ==> t[c[p - 1]] == s[c[p - 1]].(inst3 := NextCode(base, |s|, c[p - 1], x), link := x))
    && (p == 0 && c != [] ==> t[c[0]] == s[c[0]].(inst1 := LDR_R0_PC4, inst2 := BLX_R0))
  }

  lemma InsertedPlaces(c: seq<nat>, p: nat, x: nat)
    requires p <= |c|
    ensures var d := c[..p] + [x] + c[p..];
            && |d| == |c| + 1
            && (forall k :: 0 <= k < |d| ==> d[k] == if k < p then c[k] else if k == p then x else c[k - 1])
            && (Distinct(c) && x !in c ==> Distinct(d))
  {
  }

  /** What is at a place of the longer chain, and what follows it. */
  lemma NextInserted(c: seq<nat>, p: nat, x: nat, k: nat)
    requires p <= |c| && k <= |c|
    ensures var d := c[..p] + [x] + c[p..];
            && d[k] == (if k < p then c[k] else if k == p then x else c[k - 1])
            && NextOf(d, k) == if k + 1 == p then x
                               else if k == p then (if p < |c| then c[p] else -1)
                               else if k < p then NextOf(c, k) else NextOf(c, k - 1)
  {
    InsertedPlaces(c, p, x);
  }

  /** What the slots of the chain hold afterwards. */
  lemma InsertedSlot(s: seq<Slot>, t: seq<Slot>, base: int, c: seq<nat>, p: nat, x: nat, e: Entry, j: nat)
    requires InsertedAt(s, t, base, c, p, x, e) && j < |c|
    ensures c[j] < |s| && |t| == |s|
    ensures t[c[j]] == if j + 1 == p then s[c[j]].(inst3 := NextCode(base, |s|, c[j], x), link := x)
                       else if p == 0 && j == 0 then s[c[0]].(inst1 := LDR_R0_PC4, inst2 := BLX_R0)
                       else s[c[j]]
  {
    hide NextCode, FirstCode;
  }

  lemma InsertedPlace(s: seq<Slot>, t: seq<Slot>, base: int, c: seq<nat>, p: nat, x: nat, e: Entry, k: nat)
    requires forall j :: 0 <= j < |c| ==> Place(s, base, c[j], j == 0, NextOf(c, j))
    requires InsertedAt(s, t, base, c, p, x, e) && k <= |c|
    ensures var d := c[..p] + [x] + c[p..];
            Place(t, base, d[k], k == 0, NextOf(d, k))
  {
    NextInserted(c, p, x, k);
    if k == p {
      assert p < |c| ==> c[p] < |s|;
      hide NextCode, FirstCode, NextOf, InRange;
    } else {
      var j := if k < p then k else k - 1;
      assert Place(s, base, c[j], j == 0, NextOf(c, j));
      InsertedSlot(s, t, base, c, p, x, e, j);
      assert x < |s|;
      hide NextCode, FirstCode, NextOf, InsertedAt, InRange;
    }
  }

  lemma InsertedEntries(s: seq<Slot>, t: seq<Slot>, base: int, c: seq<nat>, p: nat, x: nat, e: Entry)
    requires InsertedAt(s, t, base, c, p, x, e)
    ensures var d := c[..p] + [x] + c[p..];
            InRange(t, d) && Entries(t, d) == Entries(s, c)[..p] + [e] + Entries(s, c)[p..]
  {
    hide NextCode, FirstCode, Distinct;
    var d, g := c[..p] + [x] + c[p..], Entries(s, c);
    var f := g[..p] + [e] + g[p..];
    assert |t| == |s| && x < |s| && t[x].handler == e.handler && t[x].priority == e.priority;
    forall k | 0 <= k < |d| ensures d[k] < |t| && Entry(t[d[k]].handler, t[d[k]].priority) == f[k] {
      NextInserted(c, p, x, k);
      if k != p {
        var j := if k < p then k else k - 1;
        InsertedSlot(s, t, base, c, p, x, e, j);
        assert f[k] == g[j];
      }
    }
    hide InsertedAt;
    assert Entries(t, d) == f;
  }

  lemma InsertedIsChain(s: seq<Slot>, t: seq<Slot>, base: int, c: seq<nat>, p: nat, x: nat, e: Entry)
    requires IsChain(s, base, c) && InsertedAt(s, t, base, c, p, x, e) && x !in c
    requires forall k :: 0 <= k < p ==> s[c[k]].priority > e.priority
    requires p < |c| ==> s[c[p]].priority <= e.priority
    ensures var d := c[..p] + [x] + c[p..];
            IsChain(t, base, d) && Entries(t, d) == InsertEntry(Entries(s, c), e)
  {
    var d := c[..p] + [x] + c[p..];
    InsertedPlaces(c, p, x);
    InsertedEntries(s, t, base, c, p, x, e);
    InsertAtPlace(Entries(s, c), e, p);
    forall k | 0 <= k < |d| ensures Place(t, base, d[k], k == 0, NextOf(d, k)) {
      InsertedPlace(s, t, base, c, p, x, e, k);
    }
    hide InsertedAt, Place;
    InsertedSorted(Entries(s, c), e, p);
  }

  lemma InsertedSorted(e: seq<Entry>, x: Entry, p: nat)
    requires Sorted(e) && p <= |e|
    requires forall k :: 0 <= k < p ==> e[k].priority > x.priority
    requires p < |e| ==> e[p].priority <= x.priority
    ensures Sorted(e[..p] + [x] + e[p..])
  {
  }

  /** The slot at place p has taken over what its successor held, and the successor is unchained. */
  ghost predicate MovedDownAt(s: seq<Slot>, t: seq<Slot>, base: int, c: seq<nat>, p: nat) {
    && |t| == |s| < SLOT_LIMIT && InRange(s, c) && p + 1 < |c|
    && t[c[p]] == s[c[p]].(handler := s[c[p + 1]].handler, priority := s[c[p + 1]].priority,
                           link := NextOf(c, p + 1),
                           inst3 := if p + 2 < |c| then NextCode(base, |s|, c[p], c[p + 2]) else POP_R0_PC)
    && forall k :: 0 <= k < |c| && k != p && k != p + 1 ==> t[c[k]] == s[c[k]]
  }

  /** The last slot is unchained, and its predecessor if any returns from the interrupt. */
  ghost predicate TailCut(s: seq<Slot>, t: seq<Slot>, c: seq<nat>) {
    && |t| == |s| && InRange(s, c) && c != []
    && (|c| > 1 ==> t[c[|c| - 2]] == s[c[|c| - 2]].(link := -1, inst3 := POP_R0_PC))
    && forall k :: 0 <= k < |c| - 2 ==> t[c[k]] == s[c[k]]
  }

  lemma MovedDownIsChain(s: seq<Slot>, t: seq<Slot>, base: int, c: seq<nat>, p: nat)
    requires IsChain(s, base, c) && MovedDownAt(s, t, base, c, p)
    ensures var d := c[..p + 1] + c[p + 2..];
            IsChain(t, base, d) && Entries(t, d) == Entries(s, c)[..p] + Entries(s, c)[p + 1..]
  {
    var d, e := c[..p + 1] + c[p + 2..], Entries(s, c);
    MovedDownPlaces(c, p);
    MovedDownEntries(s, t, base, c, p);
    MovedDownSorted(e, p);
    forall k | 0 <= k < |d| ensures Place(t, base, d[k], k == 0, NextOf(d, k)) {
      MovedDownPlace(s, t, base, c, p, k);
    }
    hide Place, MovedDownAt, Entries, InRange, Distinct, Sorted;
  }

  lemma MovedDownSorted(e: seq<Entry>, p: nat)
    requires Sorted(e) && p < |e|
    ensures Sorted(e[..p] + e[p + 1..])
  {
  }

  lemma MovedDownPlaces(c: seq<nat>, p: nat)
    requires p + 1 < |c|
    ensures var d := c[..p + 1] + c[p + 2..];
            && |d| == |c| - 1
            && (forall k :: 0 <= k < |d| ==> d[k] == if k <= p then c[k] else c[k + 1])
            && (Distinct(c) ==> Distinct(d) && c[p + 1] !in d)
  {
  }

  lemma MovedDownPlace(s: seq<Slot>, t: seq<Slot>, base: int, c: seq<nat>, p: nat, k: nat)
    requires forall j :: 0 <= j < |c| ==> Place(s, base, c[j], j == 0, NextOf(c, j))
    requires Distinct(c) && MovedDownAt(s, t, base, c, p) && k < |c| - 1
    ensures var d := c[..p + 1] + c[p + 2..];
            Place(t, base, d[k], k == 0, NextOf(d, k))
  {
    hide NextCode, FirstCode;
    MovedDownPlaces(c, p);
    if k <= p {
      assert Place(s, base, c[k], k == 0, NextOf(c, k));
    } else {
      assert Place(s, base, c[k + 1], false, NextOf(c, k + 1));
    }
  }

  lemma MovedDownEntries(s: seq<Slot>, t: seq<Slot>, base: int, c: seq<nat>, p: nat)
    requires MovedDownAt(s, t, base, c, p)
    ensures var d, e := c[..p + 1] + c[p + 2..], Entries(s, c);
            InRange(t, d) && Entries(t, d) == e[..p] + e[p + 1..]
  {
    hide NextCode;
    MovedDownPlaces(c, p);
    var d, e := c[..p + 1] + c[p + 2..], Entries(s, c);
    var f := e[..p] + e[p + 1..];
    assert forall k :: 0 <= k < |d| ==> Entries(t, d)[k] == f[k];
  }

  lemma TailCutIsChain(s: seq<Slot>, t: seq<Slot>, base: int, c: seq<nat>)
    requires IsChain(s, base, c) && TailCut(s, t, c)
    ensures var p := |c| - 1;
            IsChain(t, base, c[..p]) && Entries(t, c[..p]) == Entries(s, c)[..p]
  {
    var p := |c| - 1;
    var d := c[..p];
    forall k | 0 <= k < |d| ensures Place(t, base, d[k], k == 0, NextOf(d, k)) {
      TailCutPlace(s, t, base, c, k);
    }
    hide Place, TailCut;
    TailCutEntries(s, t, c);
  }

  lemma TailCutPlace(s: seq<Slot>, t: seq<Slot>, base: int, c: seq<nat>, k: nat)
    requires forall j :: 0 <= j < |c| ==> Place(s, base, c[j], j == 0, NextOf(c, j))
    requires TailCut(s, t, c) && k < |c| - 1
    ensures var d := c[..|c| - 1]; Place(t, base, d[k], k == 0, NextOf(d, k))
  {
    hide NextCode, FirstCode;
    assert Place(s, base, c[k], k == 0, NextOf(c, k));
  }

  lemma TailCutEntries(s: seq<Slot>, t: seq<Slot>, c: seq<nat>)
    requires TailCut(s, t, c)
    ensures var p := |c| - 1; InRange(t, c[..p]) && Entries(t, c[..p]) == Entries(s, c)[..p]
  {
    var p := |c| - 1;
    assert forall k :: 0 <= k < p ==> Entries(t, c[..p])[k] == Entries(s, c)[k];
  }

  // The whole table.

  ghost predicate IsFreeList(s: seq<Slot>, head: int, free: seq<nat>) {
    && InRange(s, free) && Distinct(free) && head == NextOf([0] + free, 0)
    && forall k :: 0 <= k < |free| ==> s[free[k]].link == NextOf(free, k)
  }

  /** Every slot is in exactly one chain or in the free list. */
  ghost predicate Owned(slots: nat, chains: seq<seq<nat>>, free: seq<nat>) {
    && (forall n, i :: 0 <= n < |chains| && i in chains[n] ==> i !in free)
    && (forall m, n, i :: 0 <= m < |chains| && 0 <= n < |chains| && i in chains[m] && i in chains[n] ==> m == n)
    && (forall i :: 0 <= i < slots ==> i in free || exists n :: 0 <= n < |chains| && i in chains[n])
  }

  /** is_shared_irq_raw_handler */
  predicate IsShared(base: int, slots: nat, handler: int) {
    base <= handler < base + SLOT_SIZE * slots
  }

  /** The vector table sends an interrupt to its chain if it has one, and never to a slot otherwise. */
  ghost predicate Vectored(base: int, slots: nat, vector: int, c: seq<nat>) {
    if c == [] then !IsShared(base, slots, vector) else vector == SlotAt(base, c[0]) + 1
  }

  ghost predicate IsTable(s: seq<Slot>, base: int, vtable: seq<int>, head: int, chains: seq<seq<nat>>, free: seq<nat>) {
    && 0 < |s| < SLOT_LIMIT && base % 4 == 0 && |chains| == |vtable|
    && (forall n :: 0 <= n < |chains| ==> IsChain(s, base, chains[n]) && Vectored(base, |s|, vtable[n], chains[n]))
    && IsFreeList(s, head, free)
    && Owned(|s|, chains, free)
  }

  /** Taking the first free slot into a chain. */
  lemma OwnedAfterTake(slots: nat, chains: seq<seq<nat>>, free: seq<nat>, num: nat, p: nat)
    requires Owned(slots, chains, free) && num < |chains| && free != [] && Distinct(free) && p <= |chains[num]|
    ensures var c := chains[num];
            Owned(slots, chains[num := c[..p] + [free[0]] + c[p..]], free[1..])
  {
    var c, x := chains[num], free[0];
    var d := c[..p] + [x] + c[p..];
    assert forall i :: i in d <==> i in c || i == x by {
      assert c == c[..p] + c[p..];
    }
    assert x in free;
    assert forall i :: i in free <==> i == x || i in free[1..] by {
      assert free == [x] + free[1..];
    }
    assert x !in free[1..] by {
      assert forall k :: 0 <= k < |free| - 1 ==> free[1..][k] == free[k + 1] != free[0];
    }
    var chains' := chains[num := d];
    forall i | 0 <= i < slots ensures i in free[1..] || exists n :: 0 <= n < |chains'| && i in chains'[n] {
      if i == x {
        assert i in chains'[num];
      } else if i !in free {
        var n :| 0 <= n < |chains| && i in chains[n];
        assert i in chains'[n];
      }
    }
  }

  /** Giving a slot of a chain back. */
  lemma OwnedAfterGive(slots: nat, chains: seq<seq<nat>>, free: seq<nat>, num: nat, x: nat, d: seq<nat>)
    requires Owned(slots, chains, free) && num < |chains|
    requires forall i :: i in chains[num] <==> i in d || i == x
    requires x !in d
    ensures Owned(slots, chains[num := d], [x] + free)
  {
    var chains' := chains[num := d];
    assert x in chains[num];
    forall i | 0 <= i < slots ensures i in [x] + free || exists n :: 0 <= n < |chains'| && i in chains'[n] {
      if i != x && i !in free {
        var n :| 0 <= n < |chains| && i in chains[n];
        assert i in chains'[n];
      }
    }
  }

  lemma VectoredChain(base: int, slots: nat, d: seq<nat>)
    requires d != []
    ensures Vectored(base, slots, SlotAt(base, d[0]) + 1, d)
  {
  }

  /** A table whose chain of one interrupt is exchanged. */
  lemma TableAfterChange(s: seq<Slot>, t: seq<Slot>, base: int, vtable: seq<int>, head: int, chains: seq<seq<nat>>,
                         free: seq<nat>, num: nat, d: seq<nat>, vector: int, newHead: int, newFree: seq<nat>)
    requires IsTable(s, base, vtable, head, chains, free) && num < |chains| && |t| == |s|
    requires forall n :: 0 <= n < |chains| && n != num ==> IsChain(t, base, chains[n])
    requires IsChain(t, base, d) && Vectored(base, |s|, vector, d)
    requires IsFreeList(t, newHead, newFree) && Owned(|s|, chains[num := d], newFree)
    ensures IsTable(t, base, vtable[num := vector], newHead, chains[num := d], newFree)
  {
    hide IsChain, IsFreeList, Owned, Vectored;
  }

  /** Nothing but the slot x and the slots of the chain has changed. */
  ghost predicate SameBut(s: seq<Slot>, t: seq<Slot>, c: seq<nat>, x: nat) {
    |t| == |s| && forall i :: 0 <= i < |s| && i != x && i !in c ==> t[i] == s[i]
  }

  /** A new slot in the chain of one interrupt, taken from the head of the free list. */
  ghost predicate AddsSlot(s: seq<Slot>, t: seq<Slot>, base: int, c: seq<nat>, p: nat, x: nat, e: Entry) {
    && p <= |c| && InsertedAt(s, t, base, c, p, x, e) && SameBut(s, t, c, x)
    && (forall k :: 0 <= k < p ==> s[c[k]].priority > e.priority)
    && (p < |c| ==> s[c[p]].priority <= e.priority)
  }

  lemma AddKeepsChains(s: seq<Slot>, t: seq<Slot>, base: int, vtable: seq<int>, head: int, chains: seq<seq<nat>>,
                       free: seq<nat>, num: nat, p: nat, e: Entry)
    requires IsTable(s, base, vtable, head, chains, free) && free != [] && num < |chains|
    requires AddsSlot(s, t, base, chains[num], p, free[0], e)
    ensures |t| == |s| && free[0] < |s|
    ensures var c := chains[num];
            var d := c[..p] + [free[0]] + c[p..];
            && IsChain(t, base, d) && Entries(t, d) == InsertEntry(Entries(s, c), e)
    ensures forall n :: 0 <= n < |chains| && n != num ==>
              IsChain(t, base, chains[n]) && Entries(t, chains[n]) == Entries(s, chains[n])
    ensures IsFreeList(t, s[free[0]].link, free[1..])
  {
    assert free[0] in free;
    InsertedIsChain(s, t, base, chains[num], p, free[0], e);
    OtherChainsKept(s, t, base, chains, free, num);
    FreeListTail(s, t, head, free, chains[num]);
  }

  lemma TableAfterAdd(s: seq<Slot>, t: seq<Slot>, base: int, vtable: seq<int>, head: int, chains: seq<seq<nat>>,
                      free: seq<nat>, num: nat, p: nat, e: Entry)
    requires IsTable(s, base, vtable, head, chains, free) && free != [] && num < |chains|
    requires AddsSlot(s, t, base, chains[num], p, free[0], e)
    ensures free[0] < |s|
    ensures var c := chains[num];
            var d := c[..p] + [free[0]] + c[p..];
            IsTable(t, base, vtable[num := SlotAt(base, d[0]) + 1], s[free[0]].link, chains[num := d], free[1..])
  {
    var c, x := chains[num], free[0];
    var d := c[..p] + [x] + c[p..];
    AddKeepsChains(s, t, base, vtable, head, chains, free, num, p, e);
    OwnedAfterTake(|s|, chains, free, num, p);
    VectoredChain(base, |s|, d);
    TableAfterChange(s, t, base, vtable, head, chains, free, num, d, SlotAt(base, d[0]) + 1, s[x].link, free[1..]);
  }

  lemma ChainAdded(s: seq<Slot>, t: seq<Slot>, base: int, vtable: seq<int>, head: int, chains: seq<seq<nat>>,
                   free: seq<nat>, num: nat, p: nat, e: Entry)
    requires IsTable(s, base, vtable, head, chains, free) && free != [] && num < |chains| && p <= |chains[num]|
    requires AddsSlot(s, t, base, chains[num], p, free[0], e)
    ensures free[0] < |s|
    ensures var c := chains[num];
            var d := c[..p] + [free[0]] + c[p..];
            && IsTable(t, base, vtable[num := SlotAt(base, d[0]) + 1], s[free[0]].link, chains[num := d], free[1..])
            && forall n :: 0 <= n < |chains| ==>
                 Entries(t, chains[num := d][n])
                 == if n == num then InsertEntry(Entries(s, chains[n]), e) else Entries(s, chains[n])
  {
    hide IsTable, IsChain, AddsSlot, Entries, InsertEntry, IsFreeList;
    TableAfterAdd(s, t, base, vtable, head, chains, free, num, p, e);
    AddKeepsChains(s, t, base, vtable, head, chains, free, num, p, e);
  }

  lemma OtherChainsKept(s: seq<Slot>, t: seq<Slot>, base: int, chains: seq<seq<nat>>, free: seq<nat>, num: nat)
    requires Owned(|s|, chains, free) && num < |chains| && |t| == |s|
    requires forall n :: 0 <= n < |chains| ==> IsChain(s, base, chains[n])
    requires forall i :: 0 <= i < |s| && (free == [] || i != free[0]) && i !in chains[num] ==> t[i] == s[i]
    ensures forall n :: 0 <= n < |chains| && n != num ==>
              IsChain(t, base, chains[n]) && Entries(t, chains[n]) == Entries(s, chains[n])
  {
    forall n | 0 <= n < |chains| && n != num
      ensures IsChain(t, base, chains[n]) && Entries(t, chains[n]) == Entries(s, chains[n])
    {
      assert forall k :: 0 <= k < |chains[n]| ==> chains[n][k] in chains[n];
      assert free != [] ==> free[0] in free;
      ChainFrame(s, t, base, chains[n]);
    }
  }

  lemma FreeListTail(s: seq<Slot>, t: seq<Slot>, head: int, free: seq<nat>, c: seq<nat>)
    requires IsFreeList(s, head, free) && free != [] && |t| == |s|
    requires forall i :: i in c ==> i !in free
    requires forall i :: 0 <= i < |s| && i != free[0] && i !in c ==> t[i] == s[i]
    ensures IsFreeList(t, s[free[0]].link, free[1..])
  {
    forall k | 1 <= k < |free| ensures t[free[k]] == s[free[k]] {
      assert free[k] in free;
    }
  }

  lemma FreeListPush(s: seq<Slot>, t: seq<Slot>, head: int, free: seq<nat>, c: seq<nat>, x: nat)
    requires IsFreeList(s, head, free) && |t| == |s| && x < |s| && x in c
    requires forall i :: i in c ==> i !in free
    requires forall i :: 0 <= i < |s| && i !in c ==> t[i] == s[i]
    requires t[x].link == head
    ensures IsFreeList(t, x, [x] + free)
  {
    var free' := [x] + free;
    forall k | 0 <= k < |free'| ensures free'[k] < |t| && t[free'[k]].link == NextOf(free', k) {
      if k > 0 {
        assert free'[k] == free[k - 1] && free[k - 1] in free;
      }
    }
    assert Distinct(free') by {
      assert forall j :: 0 <= j < |free| ==> free[j] in free;
    }
  }

  ghost predicate OthersSame(s: seq<Slot>, t: seq<Slot>, c: seq<nat>) {
    |t| == |s| && forall i :: 0 <= i < |s| && i !in c ==> t[i] == s[i]
  }

  /** A slot of a chain that has gone to the head of the free list, leaving the chain d. */
  ghost predicate RemovesSlot(s: seq<Slot>, t: seq<Slot>, base: int, c: seq<nat>, head: int, x: nat, d: seq<nat>,
                              p: nat)
  {
    && |t| == |s| && p < |c| && x < |s| && x in c && x !in d
    && (forall i :: i in c <==> i in d || i == x)
    && OthersSame(s, t, c)
    && t[x].link == head
    && IsChain(t, base, d) && Entries(t, d) == Entries(s, c)[..p] + Entries(s, c)[p + 1..]
    && (d != [] ==> d[0] == c[0])
  }

  lemma TableAfterRemove(s: seq<Slot>, t: seq<Slot>, base: int, vtable: seq<int>, head: int, chains: seq<seq<nat>>,
                         free: seq<nat>, num: nat, x: nat, d: seq<nat>, p: nat, vector: int)
    requires IsTable(s, base, vtable, head, chains, free) && num < |chains|
    requires RemovesSlot(s, t, base, chains[num], head, x, d, p)
    requires if d == [] then !IsShared(base, |s|, vector) else vector == vtable[num]
    ensures IsTable(t, base, vtable[num := vector], x, chains[num := d], [x] + free)
    ensures forall n :: 0 <= n < |chains| && n != num ==> Entries(t, chains[n]) == Entries(s, chains[n])
  {
    hide IsChain;
    var c := chains[num];
    OwnedAfterGive(|s|, chains, free, num, x, d);
    OtherChainsKept(s, t, base, chains, free, num);
    FreeListPush(s, t, head, free, c, x);
    hide IsFreeList, Owned;
    TableAfterChange(s, t, base, vtable, head, chains, free, num, d, vector, x, [x] + free);
  }

  lemma RemovesSlotFrom(s: seq<Slot>, t: seq<Slot>, base: int, c: seq<nat>, head: int, x: nat, d: seq<nat>, p: nat)
    requires |t| == |s| && p < |c| && x < |s| && x in c && x !in d && OthersSame(s, t, c) && t[x].link == head
    requires forall i :: i in c <==> i in d || i == x
    requires IsChain(t, base, d) && Entries(t, d) == Entries(s, c)[..p] + Entries(s, c)[p + 1..]
    requires d != [] ==> d[0] == c[0]
    ensures RemovesSlot(s, t, base, c, head, x, d, p)
  {
    hide IsChain, Entries, OthersSame;
  }

  lemma MovedDownRemoves(s: seq<Slot>, t: seq<Slot>, base: int, c: seq<nat>, p: nat, head: int)
    requires IsChain(s, base, c) && MovedDownAt(s, t, base, c, p)
    requires OthersSame(s, t, c)
    requires t[c[p + 1]].link == head
    ensures RemovesSlot(s, t, base, c, head, c[p + 1], c[..p + 1] + c[p + 2..], p)
  {
    assert |t| == |s| && p + 1 < |c| && c[p + 1] < |s|;
    assert c[p + 1] in c;
    hide IsChain, MovedDownAt, Entries, OthersSame, RemovesSlot;
    MovedDownIsChain(s, t, base, c, p);
    MovedDownPlaces(c, p);
    MovedDownMembers(c, p);
    RemovesSlotFrom(s, t, base, c, head, c[p + 1], c[..p + 1] + c[p + 2..], p);
  }

  lemma MovedDownMembers(c: seq<nat>, p: nat)
    requires p + 1 < |c|
    ensures var d := c[..p + 1] + c[p + 2..];
            (forall i :: i in c <==> i in d || i == c[p + 1]) && d[0] == c[0]
  {
    assert c == c[..p + 1] + [c[p + 1]] + c[p + 2..];
  }

  lemma TailCutRemoves(s: seq<Slot>, t: seq<Slot>, base: int, c: seq<nat>, head: int)
    requires IsChain(s, base, c) && TailCut(s, t, c)
    requires OthersSame(s, t, c)
    requires t[c[|c| - 1]].link == head
    ensures RemovesSlot(s, t, base, c, head, c[|c| - 1], c[..|c| - 1], |c| - 1)
  {
    var d, x := c[..|c| - 1], c[|c| - 1];
    TailCutIsChain(s, t, base, c);
    assert c == d + [x];
    var e := Entries(s, c);
    assert e[..|c| - 1] + e[|c|..] == e[..|c| - 1];
    assert x !in d;
    hide IsChain, TailCut, OthersSame, RemovesSlot, Entries;
    RemovesSlotFrom(s, t, base, c, head, x, d, |c| - 1);
  }

  lemma NextRoundTrip(base: int, slots: nat, from: nat, to: nat)
    requires from < slots < SLOT_LIMIT && to < slots
    ensures var inst := NextCode(base, slots, from, to);
            IsBranch(inst) && ResolveBranch(Inst3At(base, from), inst) == SlotAt(base, to)
  {
    SlotsInBranchRange(base, slots, from, to);
    BranchRoundTrip(Inst3At(base, from), SlotAt(base, to), 0);
  }

  lemma AddsSlotFrom(s: seq<Slot>, t: seq<Slot>, base: int, c: seq<nat>, p: nat, x: nat, e: Entry)
    requires p <= |c| && InRange(s, c) && InsertedAt(s, t, base, c, p, x, e) && SameBut(s, t, c, x)
    requires forall k :: 0 <= k < p ==> s[c[k]].priority > e.priority
    requires p < |c| ==> s[c[p]].priority <= e.priority
    ensures AddsSlot(s, t, base, c, p, x, e)
  {
  }

  lemma FirstAfterInsert(c: seq<nat>, p: nat, x: nat)
    requires p <= |c|
    ensures (c[..p] + [x] + c[p..])[0] == if p == 0 then x else c[0]
  {
  }

  lemma ChainLink(s: seq<Slot>, base: int, c: seq<nat>, p: nat)
    requires IsChain(s, base, c) && p < |c|
    ensures c[p] < |s| && s[c[p]].link == NextOf(c, p)
  {
    assert Place(s, base, c[p], p == 0, NextOf(c, p));
  }

  lemma ChainSlots(s: seq<Slot>, base: int, c: seq<nat>)
    requires IsChain(s, base, c)
    ensures InRange(s, c) && Distinct(c)
  {
  }

  /** The link of a slot of a chain, and the branch of its third instruction, which goes to that link. */
  lemma LinkFacts(s: seq<Slot>, base: int, c: seq<nat>, p: nat)
    requires IsChain(s, base, c) && p < |c|
    ensures |s| < SLOT_LIMIT && InRange(s, c) && Distinct(c)
    ensures var slot := s[c[p]];
            && slot.link == NextOf(c, p) < |s|
            && (slot.link >= 0 ==>
                  IsBranch(slot.inst3) && ResolveBranch(Inst3At(base, c[p]), slot.inst3) == SlotAt(base, slot.link))
  {
    assert Place(s, base, c[p], p == 0, NextOf(c, p));
    if p + 1 < |c| {
      NextRoundTrip(base, |s|, c[p], c[p + 1]);
    }
    hide NextCode, FirstCode, ResolveBranch;
  }

  lemma NextCodeIs(base: int, slots: nat, from: nat, to: nat)
    requires from < slots < SLOT_LIMIT && to < slots
    ensures InBranchRange(Inst3At(base, from), SlotAt(base, to))
    ensures NextCode(base, slots, from, to) == MakeBranch(Inst3At(base, from), SlotAt(base, to))
  {
    SlotsInBranchRange(base, slots, from, to);
  }

  lemma LinkedBehind(s: seq<Slot>, t: seq<Slot>, base: int, c: seq<nat>, p: nat, x: nat, e: Entry)
    requires InRange(s, c) && Distinct(c) && 0 < p <= |c| && x < |s| < SLOT_LIMIT && x !in c
    requires |t| == |s| && (forall i :: 0 <= i < |s| && i != c[p - 1] && i != x ==> t[i] == s[i])
    requires var prev, next := c[p - 1], NextOf(c, p - 1);
             && t[prev] == s[prev].(inst3 := NextCode(base, |s|, prev, x), link := x)
             && t[x] == Slot(LDR_R0_PC4, BLX_R0, if next >= 0 then NextCode(base, |s|, x, next) else POP_R0_PC,
                             next, e.priority, e.handler)
    ensures InsertedAt(s, t, base, c, p, x, e)
    ensures SameBut(s, t, c, x)
  {
    hide NextCode, FirstCode;
    assert c[p - 1] in c;
  }

  lemma TailIsCut(s: seq<Slot>, t: seq<Slot>, c: seq<nat>)
    requires InRange(s, c) && Distinct(c) && c != [] && |t| == |s|
    requires var last := |c| - 1;
             if last == 0 then forall i :: 0 <= i < |s| && i != c[0] ==> t[i] == s[i]
             else t[c[last - 1]] == s[c[last - 1]].(link := -1, inst3 := POP_R0_PC)
                  && forall i :: 0 <= i < |s| && i != c[last] && i != c[last - 1] ==> t[i] == s[i]
    ensures TailCut(s, t, c) && OthersSame(s, t, c)
  {
  }

  lemma CopiedDown(s: seq<Slot>, t: seq<Slot>, base: int, c: seq<nat>, p: nat, inst3: nat)
    requires InRange(s, c) && Distinct(c) && p + 1 < |c| && |t| == |s| < SLOT_LIMIT
    requires var next := NextOf(c, p + 1);
             && inst3 == (if next >= 0 then NextCode(base, |s|, c[p], next) else POP_R0_PC)
             && t == s[c[p] := s[c[p]].(handler := s[c[p + 1]].handler, priority := s[c[p + 1]].priority,
                                     link := next, inst3 := inst3)][c[p + 1] := t[c[p + 1]]]
    ensures MovedDownAt(s, t, base, c, p) && OthersSame(s, t, c)
  {
    hide NextCode;
  }

  class IrqTable {
    const base: int
    const unhandled: int
    const slots: array<Slot>
    const vtable: array<int>
    var freeHead: int
    ghost var chains: seq<seq<nat>>
    ghost var free: seq<nat>

    ghost predicate Valid()
      reads this, slots, vtable
    {
      && IsTable(slots[..], base, vtable[..], freeHead, chains, free)
      && !IsShared(base, slots.Length, unhandled)
    }

    /** As the slots are laid out in memory: all on the free list, in order, and no vector set. */
    constructor (base: int, slotCount: nat, interrupts: nat, unhandled: int)
      requires 0 < slotCount < SLOT_LIMIT && base % 4 == 0 && !IsShared(base, slotCount, unhandled)
      ensures Valid() && fresh(slots) && fresh(vtable) && slots.Length == slotCount && vtable.Length == interrupts
      ensures |chains| == interrupts && (forall n :: 0 <= n < interrupts ==> EntriesOf(n) == [])
      ensures |free| == slotCount && this.base == base && this.unhandled == unhandled
      ensures forall n :: 0 <= n < interrupts ==> vtable[n] == unhandled
    {
      this.base, this.unhandled := base, unhandled;
      slots := new Slot[slotCount](i => Slot(0, 0, 0, if i + 1 == slotCount then -1 else i + 1, 0, 0));
      vtable := new int[interrupts](i => unhandled);
      freeHead := 0;
      chains, free := seq(interrupts, n => []), seq(slotCount, i requires 0 <= i => i);
      new;
      forall i | 0 <= i < slotCount ensures i in free {
        assert free[i] == i;
      }
    }

    /** The shared handlers of an interrupt, in the order of its links. */
    ghost function EntriesOf(num: nat): seq<Entry>
      reads this, slots
      requires num < |chains|
    {
      Entries(slots[..], chains[num])
    }

    /** irq_add_shared_handler; no result is a hard assertion that fails. */
    method AddSharedHandler(num: nat, handler: nat, priority: nat) returns (ok: bool)
      requires Valid() && num < vtable.Length
      modifies this, slots, vtable
      ensures Valid() && |chains| == vtable.Length
      ensures ok <==> old(free) != [] && (old(chains[num]) != [] || old(vtable[num]) == unhandled)
      ensures ok ==> EntriesOf(num) == InsertEntry(old(EntriesOf(num)), Entry(handler, priority))
      ensures !ok ==> EntriesOf(num) == old(EntriesOf(num))
      ensures forall n :: 0 <= n < |chains| && n != num ==>
                EntriesOf(n) == old(EntriesOf(n)) && vtable[n] == old(vtable[n])
    {
      if freeHead < 0 {
        return false;
      }
      ghost var s, vt, c := slots[..], vtable[..], chains[num];
      var x := freeHead;
      var vector := vtable[num];
      var link := slots[x].link;
      assert x == free[0] && x in free && x !in c;
      if !IsShared(base, slots.Length, vector) && vector != unhandled {
        return false;
      }
      assert IsChain(s, base, c) && Vectored(base, |s|, vector, c) && |s| < SLOT_LIMIT && |chains| == |vt|;
      assert c != [] || vector == unhandled;
      hide InsertedAt, IsChain, Entries, InsertEntry, Owned, IsFreeList, IsTable, AddsSlot, Vectored, IsShared;
      AddToChain(num, x, vector, link, handler, priority);
      return true;
    }

    /** The part of irq_add_shared_handler that has a slot, for an interrupt that may have a chain. */
    method AddToChain(num: nat, x: nat, vector: int, link: int, handler: nat, priority: nat)
      requires Valid() && num < |chains| == vtable.Length && vector == vtable[num]
      requires IsChain(slots[..], base, chains[num]) && Vectored(base, slots.Length, vector, chains[num])
      requires x < slots.Length < SLOT_LIMIT && x !in chains[num]
      requires free != [] && free[0] == x && link == slots[x].link
      modifies this, slots, vtable
      ensures Valid() && |chains| == vtable.Length
      ensures EntriesOf(num) == InsertEntry(old(EntriesOf(num)), Entry(handler, priority))
      ensures forall n :: 0 <= n < |chains| && n != num ==>
                EntriesOf(n) == old(EntriesOf(n)) && vtable[n] == old(vtable[n])
    {
      hide InsertedAt, IsChain, Entries, InsertEntry, Owned, IsFreeList, IsTable, AddsSlot, Vectored, IsShared;
      ghost var s, vt, c := slots[..], vtable[..], chains[num];
      var newVector;
      ghost var p;
      newVector, p := FillSlot(x, vector, handler, priority, c);
      ChainAdded(s, slots[..], base, vt, freeHead, chains, free, num, p, Entry(handler, priority));
      freeHead := link;
      vtable[num] := newVector;
      assert vtable[..] == vt[num := newVector];
      chains := chains[num := c[..p] + [x] + c[p..]];
      free := free[1..];
    }

    /** The slot x gets its contents and its neighbours in the chain of a vector their new code. */
    method FillSlot(x: nat, vector: int, handler: nat, priority: nat, ghost c: seq<nat>)
      returns (newVector: int, ghost p: nat)
      requires IsChain(slots[..], base, c) && Vectored(base, slots.Length, vector, c)
      requires x < slots.Length < SLOT_LIMIT && x !in c
      modifies slots
      ensures p <= |c| && AddsSlot(old(slots[..]), slots[..], base, c, p, x, Entry(handler, priority))
      ensures newVector == SlotAt(base, (c[..p] + [x] + c[p..])[0]) + 1
    {
      newVector, p := vector, 0;
      ghost var s := slots[..];
      if !IsShared(base, slots.Length, vector) {
        hide InsertedAt, AddsSlot, SameBut;
        FillFirst(x, -1, Entry(handler, priority), c);
        newVector := SlotAt(base, x) + 1;
      } else {
        assert c != [];
        var existing := SlotDiff(vector - 1 - base);
        SlotDiffIsIndex(c[0]);
        var prev;
        prev, p := FindPlace(existing, priority, c);
        ChainSlots(s, base, c);
        hide InsertedAt, IsChain, AddsSlot, SlotDiff, SameBut;
        if prev >= 0 {
          LinkBehind(x, prev, Entry(handler, priority), c, p);
        } else {
          FillFirst(x, existing, Entry(handler, priority), c);
          newVector := SlotAt(base, x) + 1;
        }
      }
      FirstAfterInsert(c, p, x);
      AddsSlotFrom(s, slots[..], base, c, p, x, Entry(handler, priority));
    }

    /** The slot x becomes the first of a chain, before the slot that was, if there was one. */
    method FillFirst(x: nat, existing: int, e: Entry, ghost c: seq<nat>)
      requires InRange(slots[..], c) && Distinct(c) && existing == (if c == [] then -1 else c[0])
      requires x < slots.Length < SLOT_LIMIT && x !in c
      modifies slots
      ensures InsertedAt(old(slots[..]), slots[..], base, c, 0, x, e)
      ensures SameBut(old(slots[..]), slots[..], c, x)
    {
      if existing < 0 {
        slots[x] := Slot(ADD_R1_PC, FirstCode(base, slots.Length, x), POP_R0_PC, -1, e.priority, e.handler);
      } else {
        assert existing in c;
        slots[x] := Slot(ADD_R1_PC, FirstCode(base, slots.Length, x), NextCode(base, slots.Length, x, existing),
                         existing, e.priority, e.handler);
        slots[existing] := slots[existing].(inst1 := LDR_R0_PC4, inst2 := BLX_R0);
      }
    }

    /** The third instruction of a slot, put in another one: it still goes to where it went. */
    method Retarget(from: nat, to: nat, ghost c: seq<nat>, ghost p: nat) returns (inst3: nat)
      requires IsChain(slots[..], base, c) && p < |c| && from == c[p] && to < slots.Length
      ensures slots.Length < SLOT_LIMIT && NextOf(c, p) < slots.Length
      ensures inst3 == if NextOf(c, p) >= 0 then NextCode(base, slots.Length, to, NextOf(c, p)) else POP_R0_PC
    {
      LinkFacts(slots[..], base, c, p);
      hide IsChain, NextCode, ResolveBranch, MakeBranch, InBranchRange, IsBranch;
      var link := slots[from].link;
      inst3 := POP_R0_PC;
      if link >= 0 {
        SlotsInBranchRange(base, slots.Length, to, link);
        inst3 := MakeBranch(Inst3At(base, to), ResolveBranch(Inst3At(base, from), slots[from].inst3));
        NextCodeIs(base, slots.Length, to, link);
      }
    }

    /** The slot x is filled and put behind `prev`, whose branch target it takes over. */
    method LinkBehind(x: nat, prev: nat, e: Entry, ghost c: seq<nat>, ghost p: nat)
      requires IsChain(slots[..], base, c) && 0 < p <= |c| && prev == c[p - 1] && x < slots.Length && x !in c
      modifies slots
      ensures InsertedAt(old(slots[..]), slots[..], base, c, p, x, e)
      ensures SameBut(old(slots[..]), slots[..], c, x)
    {
      ghost var s := slots[..];
      LinkFacts(s, base, c, p - 1);
      assert prev in c && prev < slots.Length;
      hide IsChain, NextCode, InsertedAt, InRange, Distinct, NextOf, SameBut;
      var link := slots[prev].link;
      var inst3 := Retarget(prev, x, c, p - 1);
      slots[prev] := slots[prev].(inst3 := NextCode(base, slots.Length, prev, x), link := x);
      slots[x] := Slot(LDR_R0_PC4, BLX_R0, inst3, link, e.priority, e.handler);
      LinkedBehind(s, slots[..], base, c, p, x, e);
    }

    /** The walk to the place a priority belongs: the slot before it, or -1 if it comes first. */
    method FindPlace(existing: nat, priority: nat, ghost c: seq<nat>) returns (prev: int, ghost p: nat)
      requires IsChain(slots[..], base, c) && c != [] && existing == c[0]
      ensures p <= |c| && prev == if p == 0 then -1 else c[p - 1]
      ensures forall k :: 0 <= k < p ==> slots[c[k]].priority > priority
      ensures p < |c| ==> slots[c[p]].priority <= priority
    {
      prev, p := -1, 0;
      var cur := existing;
      while slots[cur].priority > priority
        invariant p < |c| && cur == c[p] && prev == if p == 0 then -1 else c[p - 1]
        invariant forall k :: 0 <= k < p ==> slots[c[k]].priority > priority
        decreases |c| - p
      {
        assert Place(slots[..], base, c[p], p == 0, NextOf(c, p));
        prev, p := cur, p + 1;
        if slots[cur].link < 0 {
          break;
        }
        cur := slots[cur].link;
      }
    }

    /** irq_remove_handler, called outside of any exception. */
    method RemoveHandler(num: nat, handler: nat)
      requires Valid() && num < vtable.Length && !IsShared(base, slots.Length, handler)
      modifies this, slots, vtable
      ensures Valid() && |chains| == vtable.Length
      ensures EntriesOf(num) == RemoveEntry(old(EntriesOf(num)), handler)
      ensures forall n :: 0 <= n < |chains| && n != num ==>
                EntriesOf(n) == old(EntriesOf(n)) && vtable[n] == old(vtable[n])
      ensures old(chains[num]) == [] ==>
                vtable[num] == if old(vtable[num]) == handler then unhandled else old(vtable[num])
      ensures old(chains[num]) != [] ==> vtable[num] == if chains[num] == [] then unhandled else old(vtable[num])
    {
      ghost var s, vt, c := slots[..], vtable[..], chains[num];
      var vector := vtable[num];
      if vector == unhandled || vector == handler {
        assert c == [];
        SetVector(num, unhandled);
        return;
      }
      if !IsShared(base, slots.Length, vector) {
        return;
      }
      assert c != [];
      assert IsChain(s, base, c) && Vectored(base, |s|, vector, c) && |s| < SLOT_LIMIT && |chains| == |vt|;
      hide IsTable, IsChain, Vectored, IsShared, Entries, RemoveEntry;
      RemoveFromChain(num, vector, handler);
    }

    /** The part of irq_remove_handler for an interrupt that has a chain. */
    method RemoveFromChain(num: nat, vector: int, handler: nat)
      requires Valid() && num < |chains| == vtable.Length && chains[num] != [] && vector == vtable[num]
      requires slots.Length < SLOT_LIMIT
      requires IsChain(slots[..], base, chains[num]) && vector == SlotAt(base, chains[num][0]) + 1
      modifies this, slots, vtable
      ensures Valid() && |chains| == vtable.Length
      ensures EntriesOf(num) == RemoveEntry(old(EntriesOf(num)), handler)
      ensures forall n :: 0 <= n < |chains| && n != num ==>
                EntriesOf(n) == old(EntriesOf(n)) && vtable[n] == old(vtable[n])
      ensures vtable[num] == if chains[num] == [] then unhandled else old(vtable[num])
    {
      ghost var s, vt, c := slots[..], vtable[..], chains[num];
      assert c[0] < |s|;
      SlotDiffIsIndex(c[0]);
      hide IsTable, Place, RemovesSlot, Vectored, IsShared, Entries, IsChain, RemoveEntry, InRange, NoneBefore;
      var cur, prev, p := FindHandler(SlotDiff(vector - 1 - base), handler, c);
      if slots[cur].handler == handler {
        RemoveFound(num, vector, handler, cur, prev, c, p);
      } else {
        NothingRemoved(s, c, p, handler);
      }
    }

    method RemoveFound(num: nat, vector: int, handler: nat, cur: nat, prev: int, ghost c: seq<nat>, ghost p: nat)
      requires Valid() && num < |chains| == vtable.Length && chains[num] == c && vector == vtable[num]
      requires IsChain(slots[..], base, c) && p < |c| && cur == c[p] && prev == (if p == 0 then -1 else c[p - 1])
      requires cur < slots.Length && slots[cur].handler == handler && NoneBefore(slots[..], c, p, handler)
      modifies this, slots, vtable
      ensures Valid() && |chains| == vtable.Length
      ensures EntriesOf(num) == RemoveEntry(old(EntriesOf(num)), handler)
      ensures forall n :: 0 <= n < |chains| && n != num ==>
                EntriesOf(n) == old(EntriesOf(n)) && vtable[n] == old(vtable[n])
      ensures vtable[num] == if chains[num] == [] then unhandled else old(vtable[num])
    {
      hide IsTable, RemovesSlot, IsShared, Entries, IsChain, RemoveEntry, NoneBefore;
      ghost var s, vt := slots[..], vtable[..];
      var x, newVector;
      ghost var d;
      x, newVector, d := Unchain(cur, prev, vector, c, p);
      ChainRemoved(s, slots[..], base, vt, freeHead, chains, free, num, x, d, p, newVector, handler);
      freeHead := x;
      vtable[num] := newVector;
      assert vtable[..] == vt[num := newVector];
      chains := chains[num := d];
      free := [x] + free;
    }

    /** The vector of an interrupt without a chain. */
    method SetVector(num: nat, vector: int)
      requires Valid() && num < vtable.Length && chains[num] == [] && !IsShared(base, slots.Length, vector)
      modifies vtable
      ensures Valid() && vtable[..] == old(vtable[..])[num := vector]
    {
      ghost var vt := vtable[..];
      assert IsTable(slots[..], base, vt, freeHead, chains, free);
      vtable[num] := vector;
      assert vtable[..] == vt[num := vector];
      assert chains[num := chains[num]] == chains;
      TableAfterChange(slots[..], slots[..], base, vt, freeHead, chains, free, num, [], vector, freeHead, free);
    }

    /** The walk to the first slot with a handler; without one it ends at the last slot. */
    method FindHandler(existing: nat, handler: nat, ghost c: seq<nat>) returns (cur: nat, prev: int, ghost p: nat)
      requires IsChain(slots[..], base, c) && c != [] && existing == c[0]
      ensures p < |c| && cur == c[p] && cur < slots.Length
      ensures NoneBefore(slots[..], c, p, handler)
      ensures slots[cur].handler == handler ==> prev == if p == 0 then -1 else c[p - 1]
      ensures slots[cur].handler != handler ==> p == |c| - 1
    {
      cur, prev, p := existing, -1, 0;
      while slots[cur].handler != handler
        invariant p < |c| && cur == c[p] && prev == if p == 0 then -1 else c[p - 1]
        invariant forall k :: 0 <= k < p ==> slots[c[k]].handler != handler
        decreases |c| - p
      {
        assert Place(slots[..], base, c[p], p == 0, NextOf(c, p));
        prev := cur;
        if slots[cur].link < 0 {
          break;
        }
        cur, p := slots[cur].link, p + 1;
      }
    }

    /** The slot at place p gives up its handler; the result is the slot to free and the vector. */
    method Unchain(cur: nat, prev: int, vector: int, ghost c: seq<nat>, ghost p: nat)
      returns (x: nat, newVector: int, ghost d: seq<nat>)
      requires IsChain(slots[..], base, c) && p < |c| && cur == c[p] && prev == (if p == 0 then -1 else c[p - 1])
      requires cur < slots.Length
      modifies slots
      ensures RemovesSlot(old(slots[..]), slots[..], base, c, freeHead, x, d, p)
      ensures newVector == if d == [] then unhandled else vector
    {
      ghost var s := slots[..];
      hide IsChain, Place, MovedDownAt, TailCut, RemovesSlot, NextCode, OthersSame;
      ChainLink(s, base, c, p);
      if slots[cur].link >= 0 {
        x := slots[cur].link;
        CopyDown(cur, x, c, p);
        d := c[..p + 1] + c[p + 2..];
        MovedDownRemoves(s, slots[..], base, c, p, freeHead);
        return x, vector, d;
      }
      x := cur;
      CutTail(cur, prev, c);
      d := c[..p];
      TailCutRemoves(s, slots[..], base, c, freeHead);
      newVector := if prev >= 0 then vector else unhandled;
    }

    /** The last slot of a chain is physically unlinked and goes to the free list. */
    method CutTail(cur: nat, prev: int, ghost c: seq<nat>)
      requires IsChain(slots[..], base, c) && c != [] && cur == c[|c| - 1]
      requires prev == if |c| == 1 then -1 else c[|c| - 2]
      modifies slots
      ensures TailCut(old(slots[..]), slots[..], c)
      ensures OthersSame(old(slots[..]), slots[..], c)
      ensures slots[cur].link == freeHead
    {
      ghost var s := slots[..];
      ChainSlots(s, base, c);
      hide IsChain, TailCut, OthersSame;
      if prev >= 0 {
        slots[prev] := slots[prev].(link := -1, inst3 := POP_R0_PC);
      }
      slots[cur] := slots[cur].(link := freeHead);
      TailIsCut(s, slots[..], c);
    }

    /** The slot at place p takes over what its successor x holds, and x goes to the free list. */
    method CopyDown(cur: nat, x: nat, ghost c: seq<nat>, ghost p: nat)
      requires IsChain(slots[..], base, c) && p + 1 < |c| && cur == c[p] && x == c[p + 1]
      modifies slots
      ensures MovedDownAt(old(slots[..]), slots[..], base, c, p)
      ensures OthersSame(old(slots[..]), slots[..], c)
      ensures slots[x].link == freeHead
    {
      ghost var s := slots[..];
      LinkFacts(s, base, c, p + 1);
      assert cur < slots.Length && x < slots.Length && cur != x;
      hide IsChain, NextCode, MovedDownAt, OthersSame, InRange, Distinct, NextOf;
      var gone := slots[x];
      var inst3 := Retarget(x, cur, c, p + 1);
      slots[cur] := slots[cur].(handler := gone.handler, priority := gone.priority, link := gone.link, inst3 := inst3);
      slots[x] := slots[x].(link := freeHead);
      CopiedDown(s, slots[..], base, c, p, inst3);
    }
  }

  /** No slot before place p has the handler. */
  ghost predicate NoneBefore(s: seq<Slot>, c: seq<nat>, p: nat, handler: nat) {
    p <= |c| && forall k :: 0 <= k < p ==> c[k] < |s| && s[c[k]].handler != handler
  }

  lemma RemovedEntries(s: seq<Slot>, t: seq<Slot>, base: int, c: seq<nat>, head: int, x: nat, d: seq<nat>, p: nat,
                       handler: nat)
    requires RemovesSlot(s, t, base, c, head, x, d, p) && c[p] < |s| && s[c[p]].handler == handler
    requires NoneBefore(s, c, p, handler)
    ensures Entries(t, d) == RemoveEntry(Entries(s, c), handler)
  {
    hide IsChain;
    RemoveAtPlace(Entries(s, c), handler, p);
  }

  lemma ChainRemoved(s: seq<Slot>, t: seq<Slot>, base: int, vtable: seq<int>, head: int, chains: seq<seq<nat>>,
                     free: seq<nat>, num: nat, x: nat, d: seq<nat>, p: nat, vector: int, handler: nat)
    requires IsTable(s, base, vtable, head, chains, free) && num < |chains|
    requires RemovesSlot(s, t, base, chains[num], head, x, d, p)
    requires if d == [] then !IsShared(base, |s|, vector) else vector == vtable[num]
    requires chains[num][p] < |s| && s[chains[num][p]].handler == handler
    requires NoneBefore(s, chains[num], p, handler)
    ensures IsTable(t, base, vtable[num := vector], x, chains[num := d], [x] + free)
    ensures forall n :: 0 <= n < |chains| ==>
              Entries(t, chains[num := d][n])
              == if n == num then RemoveEntry(Entries(s, chains[n]), handler) else Entries(s, chains[n])
  {
    hide IsChain, IsTable, Entries, RemoveEntry;
    TableAfterRemove(s, t, base, vtable, head, chains, free, num, x, d, p, vector);
    RemovedEntries(s, t, base, chains[num], head, x, d, p, handler);
  }

  lemma NothingRemoved(s: seq<Slot>, c: seq<nat>, p: nat, handler: nat)
    requires p == |c| - 1 && c[p] < |s| && NoneBefore(s, c, p, handler) && s[c[p]].handler != handler
    ensures RemoveEntry(Entries(s, c), handler) == Entries(s, c)
  {
    RemoveAbsent(Entries(s, c), handler);
  }
}

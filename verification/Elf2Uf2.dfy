/**
 * The conversion of an ELF32 executable to UF2 blocks: the entry point tells a flash binary from a RAM
 * binary, flash binaries are padded to whole erase sectors below their last page, and every page
 * becomes one block.
 */
module Elf2Uf2 {
  import opened ElfPages

  const UF2_MAGIC_START0: nat := 0x0A32_4655
  const UF2_MAGIC_START1: nat := 0x9E5D_5157
  const UF2_MAGIC_END: nat := 0x0AB1_6F30
  const UF2_FLAG_FAMILY_ID_PRESENT: nat := 0x2000
  const RP2040_FAMILY_ID: nat := 0xe48b_ff56

  datatype Block = Block(magicStart0: nat, magicStart1: nat, flags: nat, targetAddr: nat, payloadSize: nat,
                         blockNo: nat, numBlocks: nat, familyId: nat, data: seq<byte>, magicEnd: nat)

  // What kind of binary it is.

  /** is_address_initialized: the first range that holds the address decides. */
  predicate IsAddressInitialized(ranges: seq<Range>, addr: nat) {
    ranges != [] &&
    if ranges[0].from <= addr < ranges[0].to then ranges[0].kind == Contents
    else IsAddressInitialized(ranges[1..], addr)
  }

  /** Whether an entry maps the entry point, as determine_binary_type computes it. */
  predicate MapsEntryPoint(e: Entry, entryPoint: nat) {
    e.Loads() && e.Mapped() != 0 && e.vaddr <= entryPoint < Add32(e.vaddr, e.Mapped())
  }

  /** The physical address of the entry point, from an entry that maps it. */
  function EffectiveEntry(e: Entry, entryPoint: nat): nat {
    (entryPoint + e.paddr - e.vaddr) % TWO_32
  }

  /** determine_binary_type: whether the entry point is in RAM. */
  function RamStyle(entries: seq<Entry>, entryPoint: nat): Result<bool> {
    if entries == [] then Err(ERROR_INCOMPATIBLE)
    else
      var here := EffectiveEntry(entries[0], entryPoint);
      if MapsEntryPoint(entries[0], entryPoint) && IsAddressInitialized(RAM_RANGES, here) then Ok(true)
      else if MapsEntryPoint(entries[0], entryPoint) && IsAddressInitialized(FLASH_RANGES, here) then Ok(false)
      else RamStyle(entries[1..], entryPoint)
  }

  function RangesFor(ram: bool): seq<Range> { if ram then RAM_RANGES else FLASH_RANGES }

  /** What the binary loads. */
  function Image(entries: seq<Entry>, ram: bool): seq<Segment> { Loads(RangesFor(ram), entries) }

  // What the device accepts, in its addresses.

  predicate Within(addr: nat, size: nat, from: nat, to: nat) { from <= addr && addr + size <= to }

  lemma FirstOfThree(ranges: seq<Range>, addr: nat, size: nat, kind: RangeType, uninitialized: bool)
    requires |ranges| == 3
    ensures IsIn(ranges, addr, size, kind)
            <==> if HeldBy(ranges[0], addr, size) then ranges[0].kind == kind
                 else if HeldBy(ranges[1], addr, size) then ranges[1].kind == kind
                 else HeldBy(ranges[2], addr, size) && ranges[2].kind == kind
    ensures MayBeAt(ranges, addr, size, uninitialized)
            <==> if HeldBy(ranges[0], addr, size) then ranges[0].kind != NoContents || uninitialized
                 else if HeldBy(ranges[1], addr, size) then ranges[1].kind != NoContents || uninitialized
                 else HeldBy(ranges[2], addr, size) && (ranges[2].kind != NoContents || uninitialized)
  {
    hide HeldBy;
    var k := if HeldBy(ranges[0], addr, size) then 0 else if HeldBy(ranges[1], addr, size) then 1 else 2;
    if HeldBy(ranges[k], addr, size) {
      assert FirstHolding(ranges, addr, size, k);
    }
  }

  lemma HeldWithin(r: Range, addr: nat, size: nat)
    requires addr + size < 0x1_0000_0000
    ensures HeldBy(r, addr, size) <==> Within(addr, size, r.from, r.to)
  {
  }

  predicate InFlash(addr: nat, size: nat) { Within(addr, size, 0x1000_0000, 0x1500_0000) }

  predicate InRam(addr: nat, size: nat) {
    Within(addr, size, 0x2000_0000, 0x2004_2000) || Within(addr, size, 0x1500_0000, 0x1500_4000)
  }

  predicate InRom(addr: nat, size: nat) { Within(addr, size, 0, 0x4000) }

  /** Where the segments of a flash binary may be. */
  lemma FlashPlaces(addr: nat, size: nat)
    requires addr + size < 0x1_0000_0000
    ensures MayBeAt(FLASH_RANGES, addr, size, false) <==> InFlash(addr, size)
    ensures MayBeAt(FLASH_RANGES, addr, size, true)
            <==> || InFlash(addr, size) || Within(addr, size, 0x2000_0000, 0x2004_2000)
                 || Within(addr, size, 0x2100_0000, 0x2104_0000)
    ensures IsIn(FLASH_RANGES, addr, size, Contents) <==> InFlash(addr, size)
    ensures !IsIn(FLASH_RANGES, addr, size, Ignore)
  {
    FirstOfThree(FLASH_RANGES, addr, size, Contents, false);
    FirstOfThree(FLASH_RANGES, addr, size, Ignore, true);
    HeldWithin(FLASH_RANGES[0], addr, size);
    HeldWithin(FLASH_RANGES[1], addr, size);
    HeldWithin(FLASH_RANGES[2], addr, size);
    hide HeldBy, MayBeAt, IsIn;
  }

  /** Where the segments of a RAM binary may be. */
  lemma RamPlaces(addr: nat, size: nat, uninitialized: bool)
    requires addr + size < 0x1_0000_0000
    ensures MayBeAt(RAM_RANGES, addr, size, uninitialized) <==> InRam(addr, size) || InRom(addr, size)
    ensures IsIn(RAM_RANGES, addr, size, Contents) <==> InRam(addr, size)
    ensures IsIn(RAM_RANGES, addr, size, Ignore) <==> InRom(addr, size)
  {
    FirstOfThree(RAM_RANGES, addr, size, Contents, uninitialized);
    FirstOfThree(RAM_RANGES, addr, size, Ignore, uninitialized);
    HeldWithin(RAM_RANGES[0], addr, size);
    HeldWithin(RAM_RANGES[1], addr, size);
    HeldWithin(RAM_RANGES[2], addr, size);
    hide HeldBy, MayBeAt, IsIn;
  }

  /**
   * A flash binary may have contents in flash only, and other memory in flash and in RAM.
   */
  lemma FlashEntrySuitsIff(e: Entry)
    requires e.paddr + e.memsz < 0x1_0000_0000
    ensures Suits(FLASH_RANGES, e)
            <==> (e.kind == 1 && e.memsz != 0 ==>
                    && (e.filez != 0 ==> InFlash(e.paddr, SizeInFile(e)))
                    && (e.filez < e.memsz ==>
                          || InFlash(e.paddr + e.filez, e.memsz - e.filez)
                          || Within(e.paddr + e.filez, e.memsz - e.filez, 0x2000_0000, 0x2004_2000)
                          || Within(e.paddr + e.filez, e.memsz - e.filez, 0x2100_0000, 0x2104_0000)))
  {
    FlashPlaces(e.paddr, SizeInFile(e));
    if e.filez < e.memsz {
      FlashPlaces(e.paddr + e.filez, e.memsz - e.filez);
    }
    hide MayBeAt, IsIn, InFlash, Within;
  }

  /**
   * A RAM binary may have contents in main RAM and in the cache as SRAM, and in the ROM, which is ignored
   * with all that such an entry says.
   */
  lemma RamEntrySuitsIff(e: Entry)
    requires e.paddr + e.memsz < 0x1_0000_0000
    ensures Suits(RAM_RANGES, e)
            <==> (e.kind == 1 && e.memsz != 0 ==>
                    || (e.filez != 0 && InRom(e.paddr, SizeInFile(e)))
                    || (&& (e.filez != 0 ==> InRam(e.paddr, SizeInFile(e)))
                        && (e.filez < e.memsz ==>
                              || InRam(e.paddr + e.filez, e.memsz - e.filez)
                              || InRom(e.paddr + e.filez, e.memsz - e.filez))))
  {
    RamPlaces(e.paddr, SizeInFile(e), false);
    if e.filez < e.memsz {
      RamPlaces(e.paddr + e.filez, e.memsz - e.filez, true);
    }
    hide MayBeAt, IsIn, InRam, InRom, Within;
  }

  /** What an accepted binary loads: whatever is in the file, but for what a RAM binary has in ROM. */
  lemma AcceptedIsLoadedIff(ram: bool, e: Entry)
    requires Suits(RangesFor(ram), e) && e.paddr + SizeInFile(e) < 0x1_0000_0000
    ensures IsLoaded(RangesFor(ram), e)
            <==> e.kind == 1 && e.memsz != 0 && e.filez != 0 && !(ram && InRom(e.paddr, SizeInFile(e)))
  {
    FlashPlaces(e.paddr, SizeInFile(e));
    RamPlaces(e.paddr, SizeInFile(e), false);
    RamIsNotRom(e.paddr, SizeInFile(e));
    hide MayBeAt, IsIn, InRam, InRom, Within;
  }

  lemma RamIsNotRom(addr: nat, size: nat)
    ensures !(InRam(addr, size) && InRom(addr, size))
  {
  }

  predicate InMainRam(p: int) { MAIN_RAM_START <= p < MAIN_RAM_END }

  predicate InXipSram(p: int) { XIP_SRAM_START <= p < XIP_SRAM_END }

  // Where the loaded segments are.

  predicate Inside(seg: Segment, r: Range) { r.from <= seg.addr && seg.addr + seg.size <= r.to && r.kind == Contents }

  ghost predicate AllInside(segs: seq<Segment>, ranges: seq<Range>) {
    forall k :: 0 <= k < |segs| ==> segs[k].size > 0 && exists r :: r in ranges && Inside(segs[k], r)
  }

  lemma LoadIsInside(e: Entry, ram: bool)
    requires NonWrapping([e])
    ensures AllInside(LoadOf(RangesFor(ram), e), RangesFor(ram))
  {
    assert [e][0].Words();
    var ranges := RangesFor(ram);
    if LoadOf(ranges, e) != [] {
      FoundRangeHoldsIffNoWrap(ranges, e.paddr, e.Mapped(), false);
      var r := CheckAddressRange(ranges, e.paddr, e.Mapped(), false).value;
      assert r in ranges && Inside(LoadOf(ranges, e)[0], r);
    }
  }

  /** Every loaded segment lies whole in a range that may have contents. */
  lemma {:induction false} LoadsAreInside(entries: seq<Entry>, ram: bool)
    requires NonWrapping(entries)
    ensures AllInside(Image(entries, ram), RangesFor(ram))
  {
    if entries != [] {
      var last := |entries| - 1;
      LoadsAreInside(entries[..last], ram);
      assert NonWrapping([entries[last]]);
      LoadIsInside(entries[last], ram);
    }
  }

  lemma {:induction false} LoadIsInImage(entries: seq<Entry>, ranges: seq<Range>, i: nat, k: nat)
    requires i < |entries| && k < |LoadOf(ranges, entries[i])|
    ensures LoadOf(ranges, entries[i])[k] in Loads(ranges, entries)
  {
    var last := |entries| - 1;
    if i < last {
      LoadIsInImage(entries[..last], ranges, i, k);
    }
  }

  lemma {:induction false} RamStyleDecides(entries: seq<Entry>, entryPoint: nat) returns (i: nat)
    requires RamStyle(entries, entryPoint).Ok?
    ensures i < |entries| && MapsEntryPoint(entries[i], entryPoint)
    ensures IsAddressInitialized(RangesFor(RamStyle(entries, entryPoint).value), EffectiveEntry(entries[i], entryPoint))
  {
    var here := EffectiveEntry(entries[0], entryPoint);
    if MapsEntryPoint(entries[0], entryPoint) && IsAddressInitialized(RAM_RANGES, here) {
      i := 0;
    } else if MapsEntryPoint(entries[0], entryPoint) && IsAddressInitialized(FLASH_RANGES, here) {
      i := 0;
    } else {
      i := RamStyleDecides(entries[1..], entryPoint);
      i := i + 1;
    }
  }

  /** The entry point is in the contents of an entry, at an address of RAM or of flash. */
  predicate StartsIn(e: Entry, entryPoint: nat, ram: bool) {
    && e.kind == 1 && e.memsz != 0 && e.filez != 0
    && e.vaddr <= entryPoint < (e.vaddr + SizeInFile(e)) % 0x1_0000_0000
    && var pc := (entryPoint + e.paddr - e.vaddr) % 0x1_0000_0000;
       if ram then 0x2000_0000 <= pc < 0x2004_2000 || 0x1500_0000 <= pc < 0x1500_4000
       else 0x1000_0000 <= pc < 0x1500_0000
  }

  /** The first entry that the entry point is in, in RAM or in flash, says what kind of binary it is. */
  lemma {:induction false} RamStyleIff(entries: seq<Entry>, entryPoint: nat, ram: bool)
    ensures RamStyle(entries, entryPoint) == Ok(ram) <==> exists i :: StartsFirst(entries, entryPoint, ram, i)
    ensures RamStyle(entries, entryPoint).Err? <==>
              forall i :: 0 <= i < |entries| ==>
                !StartsIn(entries[i], entryPoint, true) && !StartsIn(entries[i], entryPoint, false)
  {
    if entries != [] {
      StartsInIff(entries[0], entryPoint);
      hide StartsIn, MapsEntryPoint, IsAddressInitialized, EffectiveEntry;
      if StartsIn(entries[0], entryPoint, true) || StartsIn(entries[0], entryPoint, false) {
        assert StartsIn(entries[0], entryPoint, ram) ==> StartsFirst(entries, entryPoint, ram, 0);
      } else {
        RamStyleIff(entries[1..], entryPoint, ram);
        forall i ensures StartsFirst(entries, entryPoint, ram, i)
                         <==> StartsFirst(entries[1..], entryPoint, ram, i - 1) {
          StartsLater(entries, entryPoint, ram, i);
        }
        if i :| StartsFirst(entries[1..], entryPoint, ram, i) {
          assert StartsFirst(entries, entryPoint, ram, i + 1);
        }
        forall i | 0 < i < |entries| ensures entries[i] == entries[1..][i - 1] {
        }
      }
    }
  }

  /** Entry i is the first that the entry point is in, and says this kind. */
  ghost predicate StartsFirst(entries: seq<Entry>, entryPoint: nat, ram: bool, i: int) {
    && 0 <= i < |entries| && StartsIn(entries[i], entryPoint, ram)
    && forall j :: 0 <= j < i ==> !StartsIn(entries[j], entryPoint, true) && !StartsIn(entries[j], entryPoint, false)
  }

  lemma StartsLater(entries: seq<Entry>, entryPoint: nat, ram: bool, i: int)
    requires entries != []
    requires !StartsIn(entries[0], entryPoint, true) && !StartsIn(entries[0], entryPoint, false)
    ensures StartsFirst(entries, entryPoint, ram, i) <==> StartsFirst(entries[1..], entryPoint, ram, i - 1)
  {
    hide StartsIn;
    var rest := entries[1..];
    assert forall j :: 0 <= j < |rest| ==> rest[j] == entries[j + 1];
    if StartsFirst(rest, entryPoint, ram, i - 1) {
      forall j | 0 < j < i ensures !StartsIn(entries[j], entryPoint, true) && !StartsIn(entries[j], entryPoint, false) {
        assert entries[j] == rest[j - 1];
      }
    }
  }

  lemma StartsInIff(e: Entry, entryPoint: nat)
    ensures StartsIn(e, entryPoint, true)
            <==> MapsEntryPoint(e, entryPoint) && IsAddressInitialized(RAM_RANGES, EffectiveEntry(e, entryPoint))
    ensures StartsIn(e, entryPoint, false)
            <==> MapsEntryPoint(e, entryPoint) && IsAddressInitialized(FLASH_RANGES, EffectiveEntry(e, entryPoint))
    ensures !(StartsIn(e, entryPoint, true) && StartsIn(e, entryPoint, false))
  {
    InitializedIff(EffectiveEntry(e, entryPoint));
    hide IsAddressInitialized;
  }

  lemma InitializedIff(a: nat)
    ensures IsAddressInitialized(RAM_RANGES, a) <==> 0x2000_0000 <= a < 0x2004_2000 || 0x1500_0000 <= a < 0x1500_4000
    ensures IsAddressInitialized(FLASH_RANGES, a) <==> 0x1000_0000 <= a < 0x1500_0000
  {
    InitializedByThree(RAM_RANGES, a);
    InitializedByThree(FLASH_RANGES, a);
    hide IsAddressInitialized;
  }

  lemma InitializedByThree(ranges: seq<Range>, a: nat)
    requires |ranges| == 3
    ensures IsAddressInitialized(ranges, a)
            <==> if ranges[0].from <= a < ranges[0].to then ranges[0].kind == Contents
                 else if ranges[1].from <= a < ranges[1].to then ranges[1].kind == Contents
                 else ranges[2].from <= a < ranges[2].to && ranges[2].kind == Contents
  {
    var r1, r2 := ranges[1..], ranges[1..][1..];
    assert r1[0] == ranges[1] && r2 == [ranges[2]] && r2[1..] == [];
    assert IsAddressInitialized(r2, a) <==> ranges[2].from <= a < ranges[2].to && ranges[2].kind == Contents;
  }

  lemma InitializedRange(ram: bool, a: nat, r: Range)
    requires IsAddressInitialized(RangesFor(ram), a) && r in RangesFor(ram) && r.from <= a < r.to
    ensures r.kind == Contents
  {
    var ranges := RangesFor(ram);
    assert ranges[1..][1..] == ranges[2..];
    assert ranges[0] == RangesFor(ram)[0] && r in [ranges[0], ranges[1], ranges[2]];
    if !(ranges[0].from <= a < ranges[0].to) {
      assert IsAddressInitialized(ranges[1..], a);
      if !(ranges[1].from <= a < ranges[1].to) {
        assert IsAddressInitialized(ranges[2..], a);
      }
    }
  }

  /**
   * When the kind of binary is determined and the entries are accepted, the physical entry point lies
   * in a loaded segment: there is always a page to write.
   */
  lemma EntryPointIsLoaded(entries: seq<Entry>, entryPoint: nat) returns (pc: nat)
    requires NonWrapping(entries) && entryPoint < TWO_32
    requires RamStyle(entries, entryPoint).Ok?
    requires EntriesAccepted(RangesFor(RamStyle(entries, entryPoint).value), entries)
    ensures Touched(Image(entries, RamStyle(entries, entryPoint).value), pc - pc % PAGE_SIZE)
    ensures exists i :: 0 <= i < |entries| && MapsEntryPoint(entries[i], entryPoint)
                        && pc == EffectiveEntry(entries[i], entryPoint)
  {
    var ram := RamStyle(entries, entryPoint).value;
    var i := RamStyleDecides(entries, entryPoint);
    var e := entries[i];
    pc := EffectiveEntry(e, entryPoint);
    EntryAcceptedIff(RangesFor(ram), e);
    EntryIsLoaded(e, ram, entryPoint);
    LoadIsInImage(entries, RangesFor(ram), i, 0);
    hide LoadOf, EntryError, EffectiveEntry, RamStyle, RangesFor;
    var segs := Image(entries, ram);
    var k :| 0 <= k < |segs| && segs[k] == LoadOf(RangesFor(ram), e)[0];
    PageOfOverlaps(segs[k], pc);
  }

  lemma EntryIsLoaded(e: Entry, ram: bool, entryPoint: nat)
    requires e.Words() && e.paddr + e.Mapped() < TWO_32 && entryPoint < TWO_32
    requires MapsEntryPoint(e, entryPoint) && IsAddressInitialized(RangesFor(ram), EffectiveEntry(e, entryPoint))
    requires EntryError(RangesFor(ram), e).Ok?
    ensures |LoadOf(RangesFor(ram), e)| == 1 && Covers(LoadOf(RangesFor(ram), e)[0], EffectiveEntry(e, entryPoint))
  {
    var pc := EffectiveEntry(e, entryPoint);
    assert pc == e.paddr + (entryPoint - e.vaddr);
    hide EffectiveEntry;
    var ranges := RangesFor(ram);
    var r := CheckAddressRange(ranges, e.paddr, e.Mapped(), false);
    FoundRangeHoldsIffNoWrap(ranges, e.paddr, e.Mapped(), false);
    InitializedRange(ram, pc, r.value);
  }

  lemma PageOfOverlaps(seg: Segment, a: nat)
    requires Covers(seg, a)
    ensures Overlaps(seg, a - a % PAGE_SIZE)
  {
  }

  // Pages in ascending order.

  ghost predicate IsAscending(s: seq<nat>) {
    forall i, j :: 0 <= i < j < |s| ==> s[i] < s[j]
  }

  lemma {:induction false} LeastExists(s: set<nat>) returns (p: nat)
    requires s != {}
    ensures p in s && forall q :: q in s ==> p <= q
    decreases |s|
  {
    p :| p in s;
    if s != {p} {
      assert s == s - {p} + {p};
      var r := LeastExists(s - {p});
      p := if r < p then r else p;
    }
  }

  /** The keys of an ordered map or the elements of an ordered set, in the order they are visited. */
  method Ascending(keys: set<nat>) returns (s: seq<nat>)
    ensures IsAscending(s) && |s| == |keys|
    ensures forall p :: p in s <==> p in keys
  {
    s := [];
    var rest := keys;
    while rest != {}
      invariant rest <= keys && |s| + |rest| == |keys|
      invariant IsAscending(s) && forall p :: p in s <==> p in keys - rest
      invariant forall k, q :: 0 <= k < |s| && q in rest ==> s[k] < q
    {
      ghost var least := LeastExists(rest);
      var p :| p in rest && forall q :: q in rest ==> p <= q;
      s := s + [p];
      rest := rest - {p};
    }
  }

  lemma LastIsGreatest(s: seq<nat>)
    requires IsAscending(s) && s != []
    ensures s[|s| - 1] in s && forall q :: q in s ==> q <= s[|s| - 1]
  {
    forall k | 0 <= k < |s| ensures s[k] <= s[|s| - 1] {
      if k < |s| - 1 {
        assert s[k] < s[|s| - 1];
      }
    }
  }

  // The entry point of a RAM binary.

  ghost predicate IsFirstRamPage(keys: set<nat>, p: int) {
    p in keys && InMainRam(p) && forall q :: q in keys && InMainRam(q) ==> p <= q
  }

  /** What the loop over the pages has seen so far: the first page of main RAM, in Thumb state, or nothing. */
  ghost predicate ExpectsFirst(seen: set<nat>, expected: nat) {
    expected > 0 &&
    if expected == 0xffff_ffff then forall q :: q in seen ==> !InMainRam(q)
    else IsFirstRamPage(seen, expected - 1)
  }

  lemma ExpectsMore(seen: set<nat>, expected: nat, p: nat)
    requires ExpectsFirst(seen, expected) && IsPage(p)
    requires forall q :: q in seen ==> q < p && IsPage(q)
    ensures ExpectsFirst(seen + {p}, if InMainRam(p) && p < expected then p + 1 else expected)
  {
  }

  /** A RAM binary has to start, in Thumb state, at the beginning of its lowest page of main RAM. */
  method CheckRamEntry(pages: Pages, entryPoint: nat) returns (rc: int)
    requires forall p :: p in pages ==> IsPage(p)
    ensures rc == 0 <==> IsFirstRamPage(pages.Keys, entryPoint - 1)
    ensures rc != 0 ==> rc == ERROR_INCOMPATIBLE
  {
    var order := Ascending(pages.Keys);
    var expectedMainRam: nat, expectedXipSram: nat := 0xffff_ffff, 0xffff_ffff;
    ghost var seen: set<nat> := {};
    var i := 0;
    assert ExpectsFirst(seen, expectedMainRam);
    hide IsPage, ExpectsFirst;
    while i < |order|
      invariant i <= |order|
      invariant seen <= pages.Keys && forall k :: 0 <= k < i ==> order[k] in seen
      invariant forall q, k :: q in seen && i <= k < |order| ==> q < order[k]
      invariant ExpectsFirst(seen, expectedMainRam)
      invariant expectedXipSram == 0xffff_ffff || (expectedXipSram > 0 && InXipSram(expectedXipSram - 1))
    {
      var p := order[i];
      assert p in order;
      ExpectsMore(seen, expectedMainRam, p);
      if InMainRam(p) && p < expectedMainRam {
        expectedMainRam := p + 1;
      } else if InXipSram(p) && p < expectedXipSram {
        expectedXipSram := p + 1;
      }
      seen := seen + {p};
      i := i + 1;
    }
    assert forall q :: q in order ==> q in seen;
    assert seen == pages.Keys;
    rc := CompareEntry(seen, expectedMainRam, expectedXipSram, entryPoint);
  }

  method CompareEntry(ghost seen: set<nat>, expectedMainRam: nat, expectedXipSram: nat, entryPoint: nat)
    returns (rc: int)
    requires ExpectsFirst(seen, expectedMainRam)
    requires expectedXipSram == 0xffff_ffff || (expectedXipSram > 0 && InXipSram(expectedXipSram - 1))
    ensures rc == 0 <==> IsFirstRamPage(seen, entryPoint - 1)
    ensures rc != 0 ==> rc == ERROR_INCOMPATIBLE
  {
    var expected := if expectedMainRam != 0xffff_ffff then expectedMainRam else expectedXipSram;
    rc := if entryPoint == expectedXipSram then ERROR_INCOMPATIBLE
          else if entryPoint != expected then ERROR_INCOMPATIBLE
          else 0;
  }

  // Padding of flash sectors.

  function Sector(p: nat): nat { p / FLASH_SECTOR_ERASE_SIZE }

  /** A page of a touched sector below the last page present. */
  ghost predicate IsPadding(keys: set<nat>, p: nat) {
    && IsPage(p)
    && (exists q :: q in keys && Sector(q) == Sector(p))
    && (exists q :: q in keys && p < q)
  }

  /** The pages of the sectors that lie below the last page are there, and those added are empty. */
  ghost predicate Filled(pages0: Pages, pages: Pages, lastPage: nat, sectors: set<nat>) {
    && (forall p: nat :: p in pages <==> p in pages0 || (IsPage(p) && p < lastPage && Sector(p) in sectors))
    && (forall p :: p in pages ==> pages[p] == FragmentsOf(pages0, p))
  }

  predicate Aligned(page: nat) { page % PAGE_SIZE == 0 }

  /** Of one sector, the pages from `from` up to `upTo` have been looked at. */
  ghost predicate FilledTo(pages0: Pages, pages: Pages, lastPage: nat, from: nat, upTo: nat) {
    && (forall p: nat :: p in pages <==> p in pages0 || (IsPage(p) && p < lastPage && from <= p < upTo))
    && (forall p :: p in pages ==> pages[p] == FragmentsOf(pages0, p))
  }

  lemma FilledOnePage(pages0: Pages, pages: Pages, pages': Pages, lastPage: nat, from: nat, page: nat)
    requires FilledTo(pages0, pages, lastPage, from, page)
    requires from <= page && Aligned(page) && lastPage < FLASH_END
    requires pages' == if page < lastPage && page !in pages then pages[page := []] else pages
    ensures FilledTo(pages0, pages', lastPage, from, page + PAGE_SIZE)
  {
    OnlyPage(page, lastPage);
    hide IsPage;
    forall p: nat ensures p in pages' <==> p in pages0 || (IsPage(p) && p < lastPage && from <= p < page + PAGE_SIZE) {
    }
  }

  lemma OnlyPage(page: nat, lastPage: nat)
    requires Aligned(page) && lastPage < FLASH_END
    ensures forall p: nat :: IsPage(p) && page <= p < page + PAGE_SIZE ==> p == page
    ensures page < lastPage ==> IsPage(page)
  {
  }

  lemma WholeSectorFilled(pages0: Pages, pages: Pages, lastPage: nat, sector: nat)
    requires FilledTo(pages0, pages, lastPage, sector * FLASH_SECTOR_ERASE_SIZE, (sector + 1) * FLASH_SECTOR_ERASE_SIZE)
    ensures Filled(pages0, pages, lastPage, {sector})
  {
    hide IsPage;
  }

  lemma PagesOfSector(sector: nat, n: nat)
    ensures Aligned(sector * FLASH_SECTOR_ERASE_SIZE + n * 256)
    ensures (sector + 1) * FLASH_SECTOR_ERASE_SIZE == sector * FLASH_SECTOR_ERASE_SIZE + 4096
  {
  }

  /** The inner loop of the padding: the pages of one sector. */
  method PadSector(pages0: Pages, sector: nat, lastPage: nat) returns (pages: Pages)
    requires lastPage < FLASH_END
    ensures Filled(pages0, pages, lastPage, {sector})
  {
    pages := pages0;
    var page, end := sector * FLASH_SECTOR_ERASE_SIZE, (sector + 1) * FLASH_SECTOR_ERASE_SIZE;
    ghost var first := page;
    PagesOfSector(sector, 0);
    assert FilledTo(pages0, pages, lastPage, first, page);
    hide FilledTo, Filled, Aligned;
    ghost var n := 0;
    while page < end
      invariant 0 <= n <= 16 && page == first + n * 256
      invariant FilledTo(pages0, pages, lastPage, first, page)
    {
      ghost var before := pages;
      if page < lastPage && page !in pages {
        pages := pages[page := []];
      }
      PagesOfSector(sector, n);
      FilledOnePage(pages0, before, pages, lastPage, first, page);
      page := page + PAGE_SIZE;
      n := n + 1;
    }
    WholeSectorFilled(pages0, pages, lastPage, sector);
  }

  lemma FilledMore(pages0: Pages, pages: Pages, pages': Pages, lastPage: nat, sectors: set<nat>, sector: nat)
    requires Filled(pages0, pages, lastPage, sectors) && Filled(pages, pages', lastPage, {sector})
    ensures Filled(pages0, pages', lastPage, sectors + {sector})
  {
    hide IsPage, Sector;
  }

  lemma FilledAll(pages0: Pages, pages: Pages, lastPage: nat, sectors: set<nat>)
    requires lastPage in pages0 && forall q :: q in pages0 ==> q <= lastPage
    requires forall s :: s in sectors <==> exists q :: q in pages0 && Sector(q) == s
    requires Filled(pages0, pages, lastPage, sectors)
    ensures forall p: nat :: p in pages <==> p in pages0 || IsPadding(pages0.Keys, p)
  {
    hide IsPage, Sector;
    forall p: nat ensures IsPadding(pages0.Keys, p) <==> IsPage(p) && p < lastPage && Sector(p) in sectors {
      if p < lastPage {
        assert lastPage in pages0.Keys && p < lastPage;
      }
    }
  }

  /** The outer loop of the padding. */
  method PadEach(pages0: Pages, sectors: seq<nat>, lastPage: nat) returns (pages: Pages)
    requires lastPage < FLASH_END
    ensures Filled(pages0, pages, lastPage, set s | s in sectors)
  {
    pages := pages0;
    ghost var done: set<nat> := {};
    assert Filled(pages0, pages, lastPage, done);
    hide Filled;
    var i := 0;
    while i < |sectors|
      invariant i <= |sectors|
      invariant forall k :: 0 <= k < i ==> sectors[k] in done
      invariant forall s :: s in done ==> s in sectors
      invariant Filled(pages0, pages, lastPage, done)
    {
      var more := PadSector(pages, sectors[i], lastPage);
      FilledMore(pages0, pages, more, lastPage, done, sectors[i]);
      pages := more;
      done := done + {sectors[i]};
      i := i + 1;
    }
    assert done == set s | s in sectors;
  }

  /** Fills the touched sectors with empty pages up to the last page present. */
  method PadSectors(pages0: Pages) returns (pages: Pages)
    requires pages0 != map[] && forall p :: p in pages0 ==> IsPage(p) && p < FLASH_END
    ensures forall p: nat :: p in pages <==> p in pages0 || IsPadding(pages0.Keys, p)
    ensures forall p :: p in pages ==> pages[p] == FragmentsOf(pages0, p)
  {
    hide Sector, IsPage, IsAscending, Filled, IsPadding;
    var order := Ascending(pages0.Keys);
    LastIsGreatest(order);
    var lastPage := order[|order| - 1];
    assert lastPage in pages0.Keys;
    var sectors := Ascending(set p | p in pages0 :: Sector(p));
    pages := PadEach(pages0, sectors, lastPage);
    FilledAll(pages0, pages, lastPage, set s | s in sectors);
    FilledKeeps(pages0, pages, lastPage, set s | s in sectors);
  }

  lemma FilledKeeps(pages0: Pages, pages: Pages, lastPage: nat, sectors: set<nat>)
    requires Filled(pages0, pages, lastPage, sectors)
    ensures forall p :: p in pages ==> pages[p] == FragmentsOf(pages0, p)
  {
  }

  // Blocks.

  ghost predicate HeaderOk(b: Block, i: nat, n: nat) {
    && b.magicStart0 == 0x0A32_4655 && b.magicStart1 == 0x9E5D_5157 && b.magicEnd == 0x0AB1_6F30
    && b.flags == 0x2000 && b.familyId == 0xe48b_ff56
    && b.payloadSize == 256 && b.blockNo == i && b.numBlocks == n
  }

  ghost predicate Numbered(blocks: seq<Block>, n: nat) {
    && (forall i :: 0 <= i < |blocks| ==> HeaderOk(blocks[i], i, n))
    && (forall i, j :: 0 <= i < j < |blocks| ==> blocks[i].targetAddr < blocks[j].targetAddr)
  }

  /** The payload is the page in memory, and the rest of the data is zero. */
  ghost predicate Holds(b: Block, file: seq<byte>, segs: seq<Segment>) {
    && |b.data| == BLOCK_DATA
    && (forall j :: 0 <= j < PAGE_SIZE ==> b.data[j] == ByteAt(file, segs, b.targetAddr + j))
    && (forall j :: PAGE_SIZE <= j < BLOCK_DATA ==> b.data[j] == 0)
  }

  ghost predicate HasBlock(blocks: seq<Block>, p: nat) {
    exists i :: 0 <= i < |blocks| && blocks[i].targetAddr == p
  }

  lemma {:induction false} PaintedBeyondPage(file: seq<byte>, frags: seq<Fragment>, j: nat, base: byte)
    requires Fits(frags) && j >= PAGE_SIZE
    ensures Painted(file, frags, j, base) == base
  {
    if frags != [] {
      assert frags[|frags| - 1].pageOffset + frags[|frags| - 1].bytes <= PAGE_SIZE;
      assert Fits(frags[..|frags| - 1]);
      PaintedBeyondPage(file, frags[..|frags| - 1], j, base);
    }
  }

  /** The data of the block of one page. */
  method RealizeBlock(file: seq<byte>, frags: seq<Fragment>, ghost segs: seq<Segment>, ghost p: nat, data: array<byte>)
    returns (rc: int)
    requires data.Length == BLOCK_DATA && Fits(frags)
    requires forall j: nat :: j < PAGE_SIZE ==> Painted(file, frags, j, 0) == ByteAt(file, segs, p + j)
    modifies data
    ensures rc == 0 <==> FragmentsReadable(file, frags)
    ensures rc != 0 ==> rc == ERROR_READ_FAILED
    ensures rc == 0 ==> forall j :: 0 <= j < PAGE_SIZE ==> data[j] == ByteAt(file, segs, p + j)
    ensures rc == 0 ==> forall j :: PAGE_SIZE <= j < BLOCK_DATA ==> data[j] == 0
  {
    forall j | 0 <= j < data.Length {
      data[j] := 0;
    }
    rc := RealizePage(file, frags, data);
    forall j: nat | PAGE_SIZE <= j ensures Painted(file, frags, j, 0) == 0 {
      PaintedBeyondPage(file, frags, j, 0);
    }
  }

  lemma PageIsPainted(file: seq<byte>, pages: Pages, segs: seq<Segment>, p: nat)
    requires PagesFit(pages) && PagesPainted(file, pages, segs) && p in pages
    ensures forall j: nat :: j < PAGE_SIZE ==> Painted(file, pages[p], j, 0) == ByteAt(file, segs, p + j)
  {
    assert FragmentsOf(pages, p) == pages[p] && IsPage(p);
  }

  method WriteBlock(file: seq<byte>, pages: Pages, ghost segs: seq<Segment>, p: nat, blockNo: nat, data: array<byte>)
    returns (rc: int, block: Block)
    requires PagesFit(pages) && PagesPainted(file, pages, segs) && p in pages && data.Length == BLOCK_DATA
    modifies data
    ensures rc == 0 <==> FragmentsReadable(file, pages[p])
    ensures rc != 0 ==> rc == ERROR_READ_FAILED
    ensures rc == 0 ==> HeaderOk(block, blockNo, |pages|) && block.targetAddr == p && Holds(block, file, segs)
  {
    PageIsPainted(file, pages, segs, p);
    hide PagesPainted, Painted, ByteAt, FragmentsReadable, Fits;
    rc := RealizeBlock(file, pages[p], segs, p, data);
    block := Block(UF2_MAGIC_START0, UF2_MAGIC_START1, UF2_FLAG_FAMILY_ID_PRESENT, p, PAGE_SIZE, blockNo, |pages|,
                   RP2040_FAMILY_ID, data[..], UF2_MAGIC_END);
  }

  /** One block for every page, in the order of their addresses; stops at the first page that cannot be read. */
  method WriteBlocks(file: seq<byte>, pages: Pages, ghost segs: seq<Segment>) returns (rc: int, blocks: seq<Block>)
    requires PagesFit(pages) && PagesPainted(file, pages, segs)
    ensures rc == 0 <==> PagesReadable(file, pages)
    ensures rc != 0 ==> rc == ERROR_READ_FAILED
    ensures rc == 0 ==> |blocks| == |pages|
    ensures Numbered(blocks, |pages|)
    ensures forall i :: 0 <= i < |blocks| ==> blocks[i].targetAddr in pages && Holds(blocks[i], file, segs)
    ensures rc == 0 ==> forall p :: p in pages ==> HasBlock(blocks, p)
  {
    hide PagesFit, PagesPainted, FragmentsReadable, Holds, HeaderOk;
    blocks := [];
    var order := Ascending(pages.Keys);
    var data := new byte[BLOCK_DATA];
    while |blocks| < |order|
      invariant |blocks| <= |order|
      invariant forall k :: 0 <= k < |blocks| ==> blocks[k].targetAddr == order[k] && Holds(blocks[k], file, segs)
      invariant forall k :: 0 <= k < |blocks| ==> HeaderOk(blocks[k], k, |pages|)
      invariant forall k :: 0 <= k < |blocks| ==> FragmentsReadable(file, pages[order[k]])
    {
      var p: nat := order[|blocks|];
      assert p in order;
      var block: Block;
      rc, block := WriteBlock(file, pages, segs, p, |blocks|, data);
      if rc != 0 {
        return;
      }
      blocks := blocks + [block];
    }
    return 0, blocks;
  }

  // The whole conversion.

  ghost predicate TouchedPage(segs: seq<Segment>, p: nat) { IsPage(p) && Touched(segs, p) }

  /** The lowest page of main RAM that the segments touch. */
  ghost predicate IsFirstTouchedRamPage(segs: seq<Segment>, p: int) {
    && p >= 0 && InMainRam(p) && TouchedPage(segs, p)
    && forall q: nat :: TouchedPage(segs, q) && InMainRam(q) ==> p <= q
  }

  /** A page below the last touched page, in a touched sector. */
  ghost predicate PaddingPage(segs: seq<Segment>, p: nat) {
    && IsPage(p)
    && (exists q: nat :: TouchedPage(segs, q) && Sector(q) == Sector(p))
    && (exists q: nat :: TouchedPage(segs, q) && p < q)
  }

  /** When a file can be converted. */
  ghost predicate Convertible(file: seq<byte>, entries: seq<Entry>, entryPoint: nat) {
    && RamStyle(entries, entryPoint).Ok?
    && var ram := RamStyle(entries, entryPoint).value;
    && var segs := Image(entries, ram);
    && EntriesAccepted(RangesFor(ram), entries)
    && (exists p: nat :: TouchedPage(segs, p))
    && (ram ==> IsFirstTouchedRamPage(segs, entryPoint - 1))
    && SegmentsReadable(file, segs)
  }

  /** The blocks describe the memory image, and no page besides those it needs. */
  ghost predicate Describes(blocks: seq<Block>, file: seq<byte>, segs: seq<Segment>, ram: bool) {
    && Numbered(blocks, |blocks|)
    && (forall i :: 0 <= i < |blocks| ==> IsPage(blocks[i].targetAddr) && Holds(blocks[i], file, segs))
    && (forall p: nat :: HasBlock(blocks, p) <==> TouchedPage(segs, p) || (!ram && PaddingPage(segs, p)))
  }

  /** Touched pages of a flash binary are in flash: sector arithmetic on them does not wrap. */
  lemma TouchedPagesAreInFlash(segs: seq<Segment>, p: nat)
    requires AllInside(segs, FLASH_RANGES) && TouchedPage(segs, p)
    ensures p < FLASH_END
  {
    var k :| 0 <= k < |segs| && Overlaps(segs[k], p);
    var r :| r in FLASH_RANGES && Inside(segs[k], r);
  }

  /** The keys of the page map are the touched pages. */
  ghost predicate KeysAreTouched(keys: set<nat>, segs: seq<Segment>) {
    forall p: nat :: p in keys <==> TouchedPage(segs, p)
  }

  lemma MatchingKeys(file: seq<byte>, pages: Pages, segs: seq<Segment>)
    requires PagesMatch(file, pages, segs)
    ensures KeysAreTouched(pages.Keys, segs)
    ensures forall p :: p in pages ==> IsPage(p)
  {
  }

  lemma PaddingOfKeys(keys: set<nat>, segs: seq<Segment>, p: nat)
    requires KeysAreTouched(keys, segs)
    ensures IsPadding(keys, p) <==> PaddingPage(segs, p)
  {
    if IsPadding(keys, p) {
      var q :| q in keys && Sector(q) == Sector(p);
      var r :| r in keys && p < r;
      assert TouchedPage(segs, q) && TouchedPage(segs, r);
    }
  }

  lemma FirstOfKeys(keys: set<nat>, segs: seq<Segment>, p: int)
    requires KeysAreTouched(keys, segs)
    ensures IsFirstRamPage(keys, p) <==> IsFirstTouchedRamPage(segs, p)
  {
  }

  /** Padding and writing: from pages that match the segments to blocks that describe them. */
  method PadAndWrite(file: seq<byte>, pages0: Pages, ghost segs: seq<Segment>, ram: bool)
    returns (rc: int, blocks: seq<Block>)
    requires PagesMatch(file, pages0, segs) && pages0 != map[]
    requires !ram ==> AllInside(segs, FLASH_RANGES)
    ensures rc == 0 <==> SegmentsReadable(file, segs)
    ensures rc == 0 ==> Describes(blocks, file, segs, ram)
  {
    hide Painted, ByteAt, Fits, Touched, AllInside, FragmentsReadable, SegmentsReadable, Holds, IsPage;
    MatchingKeys(file, pages0, segs);
    var pages := pages0;
    if !ram {
      forall p: nat | p in pages0 ensures IsPage(p) && p < FLASH_END {
        TouchedPagesAreInFlash(segs, p);
      }
      pages := PadSectors(pages0);
      forall p: nat ensures IsPadding(pages0.Keys, p) <==> PaddingPage(segs, p) {
        PaddingOfKeys(pages0.Keys, segs, p);
      }
    }
    PaddedMatch(file, pages0, pages, segs);
    rc, blocks := WriteBlocks(file, pages, segs);
  }

  /** Pages added empty change neither what the pages hold nor whether they can be read. */
  lemma PaddedMatch(file: seq<byte>, pages0: Pages, pages: Pages, segs: seq<Segment>)
    requires PagesMatch(file, pages0, segs)
    requires forall p :: p in pages0 ==> p in pages
    requires forall p :: p in pages ==> IsPage(p) && pages[p] == FragmentsOf(pages0, p)
    ensures PagesFit(pages) && PagesPainted(file, pages, segs)
    ensures PagesReadable(file, pages) <==> SegmentsReadable(file, segs)
  {
    hide Painted, ByteAt, Touched, SegmentsReadable;
    assert forall p :: FragmentsOf(pages, p) == FragmentsOf(pages0, p);
    assert Fits([]) && FragmentsReadable(file, []);
    forall p | p in pages && p !in pages0 ensures pages[p] == [] {
    }
    if PagesReadable(file, pages) {
      assert forall p :: p in pages0 ==> pages0[p] == pages[p];
    }
  }

  /**
   * elf2uf2, after the headers have been read: succeeds exactly on the convertible files, and the
   * blocks then describe the memory image of the loaded segments.
   */
  method Convert(file: seq<byte>, entries: seq<Entry>, entryPoint: nat) returns (rc: int, blocks: seq<Block>)
    requires NonWrapping(entries) && entryPoint < TWO_32
    ensures rc == 0 <==> Convertible(file, entries, entryPoint)
    ensures rc == 0 ==>
      var ram := RamStyle(entries, entryPoint).value;
      Describes(blocks, file, Image(entries, ram), ram)
  {
    hide PagesMatch, SegmentsReadable, Describes, TouchedPage, IsFirstTouchedRamPage, EntriesAccepted;
    blocks := [];
    var ramStyle := RamStyle(entries, entryPoint);
    if ramStyle.Err? {
      return ERROR_INCOMPATIBLE, [];
    }
    var checked := CheckEntries(file, entries, RangesFor(ramStyle.value));
    if checked.Err? {
      return checked.code, [];
    }
    var pages := checked.value;
    ghost var segs := Image(entries, ramStyle.value);
    MatchingKeys(file, pages, segs);
    if pages == map[] {
      assert forall p: nat :: p !in pages.Keys;
      return ERROR_INCOMPATIBLE, [];
    }
    var some :| some in pages;
    assert TouchedPage(segs, some);
    if ramStyle.value {
      rc := CheckRamEntry(pages, entryPoint);
      FirstOfKeys(pages.Keys, segs, entryPoint - 1);
      if rc != 0 {
        return rc, [];
      }
    }
    LoadsAreInside(entries, ramStyle.value);
    rc, blocks := PadAndWrite(file, pages, segs, ramStyle.value);
  }
}

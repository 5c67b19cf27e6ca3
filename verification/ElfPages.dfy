/**
 * The pages of an ELF32 executable: load segments that suit the address ranges of the device are cut
 * into fragments of 256 byte pages, and the fragments of a page are read from the file over a buffer.
 */
module ElfPages {

  type byte = b: nat | b < 256

  datatype Result<T> = Ok(value: T) | Err(code: int)

  const ERROR_INCOMPATIBLE: int := -3
  const ERROR_READ_FAILED: int := -4
  const TWO_32: nat := 0x1_0000_0000
  const PAGE_SIZE: nat := 256
  const FLASH_SECTOR_ERASE_SIZE: nat := 4096
  const PT_LOAD: nat := 1
  const BLOCK_DATA: nat := 476

  const MAIN_RAM_START: nat := 0x2000_0000
  const MAIN_RAM_END: nat := 0x2004_2000
  const FLASH_START: nat := 0x1000_0000
  const FLASH_END: nat := 0x1500_0000
  const XIP_SRAM_START: nat := 0x1500_0000
  const XIP_SRAM_END: nat := 0x1500_4000
  const MAIN_RAM_BANKED_START: nat := 0x2100_0000
  const MAIN_RAM_BANKED_END: nat := 0x2104_0000
  const ROM_START: nat := 0
  const ROM_END: nat := 0x4000

  datatype RangeType = Contents | NoContents | Ignore
  datatype Range = Range(from: nat, to: nat, kind: RangeType)

  const FLASH_RANGES: seq<Range> := [
    Range(FLASH_START, FLASH_END, Contents),
    Range(MAIN_RAM_START, MAIN_RAM_END, NoContents),
    Range(MAIN_RAM_BANKED_START, MAIN_RAM_BANKED_END, NoContents)]

  const RAM_RANGES: seq<Range> := [
    Range(MAIN_RAM_START, MAIN_RAM_END, Contents),
    Range(XIP_SRAM_START, XIP_SRAM_END, Contents),
    Range(ROM_START, ROM_END, Ignore)]

  /** A program header entry; every field is a 32 bit word. */
  datatype Entry = Entry(kind: nat, offset: nat, vaddr: nat, paddr: nat, filez: nat, memsz: nat) {
    predicate Words() {
      offset < TWO_32 && vaddr < TWO_32 && paddr < TWO_32 && filez < TWO_32 && memsz < TWO_32
    }
    function Mapped(): nat { if filez < memsz then filez else memsz }
    predicate Loads() { kind == PT_LOAD && memsz != 0 }
  }

  datatype Fragment = Fragment(fileOffset: nat, pageOffset: nat, bytes: nat)

  type Pages = map<nat, seq<Fragment>>

  /** Bytes of the file from `offset` that belong at `addr` onwards. */
  datatype Segment = Segment(addr: nat, size: nat, offset: nat)

  // Address ranges.

  /** The sum of two words, cut to a word. */
  function Add32(a: nat, b: nat): nat { (a + b) % TWO_32 }

  predicate InRange(r: Range, addr: nat, size: nat) {
    r.from <= addr && r.to >= Add32(addr, size)
  }

  /** check_address_range: the first range that holds the segment decides. */
  function CheckAddressRange(ranges: seq<Range>, addr: nat, size: nat, uninitialized: bool): Result<Range> {
    if ranges == [] then Err(ERROR_INCOMPATIBLE)
    else if InRange(ranges[0], addr, size) then
      if ranges[0].kind == NoContents && !uninitialized then Err(ERROR_INCOMPATIBLE) else Ok(ranges[0])
    else CheckAddressRange(ranges[1..], addr, size, uninitialized)
  }

  /** A range holds a segment whose end is reckoned in 32 bits. */
  predicate HeldBy(r: Range, addr: nat, size: nat) {
    r.from <= addr && (addr + size) % 0x1_0000_0000 <= r.to
  }

  /** Range k is the first to hold a segment. */
  ghost predicate FirstHolding(ranges: seq<Range>, addr: nat, size: nat, k: nat) {
    k < |ranges| && HeldBy(ranges[k], addr, size) && forall j :: 0 <= j < k ==> !HeldBy(ranges[j], addr, size)
  }

  lemma FirstHoldingIsUnique(ranges: seq<Range>, addr: nat, size: nat, k: nat, j: nat)
    requires FirstHolding(ranges, addr, size, k) && FirstHolding(ranges, addr, size, j)
    ensures k == j
  {
  }

  /** A segment is accepted exactly if a range holds it, and the first that does may be so used. */
  lemma {:induction false} RangeFoundIff(ranges: seq<Range>, addr: nat, size: nat, uninitialized: bool)
    ensures var r := CheckAddressRange(ranges, addr, size, uninitialized);
            && (r.Ok? <==> exists k: nat ::
                  FirstHolding(ranges, addr, size, k) && (ranges[k].kind != NoContents || uninitialized))
            && forall k: nat :: r.Ok? && FirstHolding(ranges, addr, size, k) ==> ranges[k] == r.value
  {
    if ranges != [] {
      if HeldBy(ranges[0], addr, size) {
        assert FirstHolding(ranges, addr, size, 0);
      } else {
        RangeFoundIff(ranges[1..], addr, size, uninitialized);
        forall k: nat ensures FirstHolding(ranges, addr, size, k)
                              <==> k > 0 && FirstHolding(ranges[1..], addr, size, k - 1) {
          LaterHolding(ranges, addr, size, k);
        }
        if k: nat :| FirstHolding(ranges[1..], addr, size, k) && (ranges[1..][k].kind != NoContents || uninitialized) {
          assert FirstHolding(ranges, addr, size, k + 1);
        }
      }
    }
  }

  lemma LaterHolding(ranges: seq<Range>, addr: nat, size: nat, k: nat)
    requires ranges != [] && !HeldBy(ranges[0], addr, size)
    ensures FirstHolding(ranges, addr, size, k) <==> k > 0 && FirstHolding(ranges[1..], addr, size, k - 1)
  {
    hide HeldBy;
    if FirstHolding(ranges, addr, size, k) {
      assert k > 0;
      forall j | 0 <= j < k - 1 ensures !HeldBy(ranges[1..][j], addr, size) {
        assert !HeldBy(ranges[j + 1], addr, size);
      }
    } else if k > 0 && FirstHolding(ranges[1..], addr, size, k - 1) {
      forall j | 0 < j < k ensures !HeldBy(ranges[j], addr, size) {
        assert !HeldBy(ranges[1..][j - 1], addr, size);
      }
    }
  }

  /**
   * A range that is found holds the whole segment exactly when the end address of the segment does
   * not wrap.
   */
  lemma {:induction false} FoundRangeHoldsIffNoWrap(ranges: seq<Range>, addr: nat, size: nat, uninitialized: bool)
    requires addr < TWO_32 && 0 < size < TWO_32
    requires forall k :: 0 <= k < |ranges| ==> ranges[k].to < TWO_32
    ensures var r := CheckAddressRange(ranges, addr, size, uninitialized);
            r.Ok? ==> r.value in ranges && (r.value.from <= addr && addr + size <= r.value.to <==> addr + size < TWO_32)
  {
    if ranges != [] && !InRange(ranges[0], addr, size) {
      FoundRangeHoldsIffNoWrap(ranges[1..], addr, size, uninitialized);
    }
  }

  /** A segment that starts in flash and runs past the end of the address space is accepted as flash. */
  lemma WrappingSegmentIsAccepted()
    ensures CheckAddressRange(FLASH_RANGES, FLASH_START, 0xf000_0000, false) == Ok(FLASH_RANGES[0])
  {
  }

  // What the segments put in memory.

  function FileByte(file: seq<byte>, i: nat): byte {
    if i < |file| then file[i] else 0
  }

  /** The byte at an address: from the last segment that covers it, or zero. */
  function ByteAt(file: seq<byte>, segs: seq<Segment>, a: nat): byte {
    if segs == [] then 0
    else
      var last := segs[|segs| - 1];
      if last.addr <= a < last.addr + last.size then FileByte(file, last.offset + (a - last.addr))
      else ByteAt(file, segs[..|segs| - 1], a)
  }

  predicate Covers(seg: Segment, a: nat) { seg.addr <= a < seg.addr + seg.size }

  /** No address is in two segments. */
  ghost predicate NonOverlapping(segs: seq<Segment>) {
    forall a: nat, i, j :: 0 <= i < j < |segs| ==> !(Covers(segs[i], a) && Covers(segs[j], a))
  }

  /** Segments that do not overlap all end up whole in memory, whatever their order. */
  lemma {:induction false} ImageIsEachSegment(file: seq<byte>, segs: seq<Segment>, k: nat, a: nat)
    requires NonOverlapping(segs) && k < |segs| && Covers(segs[k], a)
    ensures ByteAt(file, segs, a) == FileByte(file, segs[k].offset + (a - segs[k].addr))
  {
    var last := |segs| - 1;
    if k < last {
      assert !(Covers(segs[k], a) && Covers(segs[last], a));
      forall b: nat, i, j | 0 <= i < j < last ensures !(Covers(segs[i], b) && Covers(segs[j], b)) {
      }
      ImageIsEachSegment(file, segs[..last], k, a);
    }
  }

  /** Memory that no segment covers is zero. */
  lemma {:induction false} ImageIsZeroElsewhere(file: seq<byte>, segs: seq<Segment>, a: nat)
    requires forall k :: 0 <= k < |segs| ==> !Covers(segs[k], a)
    ensures ByteAt(file, segs, a) == 0
  {
    if segs != [] {
      var last := |segs| - 1;
      assert !Covers(segs[last], a);
      ImageIsZeroElsewhere(file, segs[..last], a);
    }
  }

  predicate Overlaps(seg: Segment, page: nat) {
    seg.size > 0 && seg.addr < page + PAGE_SIZE && page < seg.addr + seg.size
  }

  ghost predicate Touched(segs: seq<Segment>, page: nat) {
    exists k :: 0 <= k < |segs| && Overlaps(segs[k], page)
  }

  predicate SegmentReadable(file: seq<byte>, seg: Segment) {
    seg.size == 0 || seg.offset + seg.size <= |file|
  }

  ghost predicate SegmentsReadable(file: seq<byte>, segs: seq<Segment>) {
    forall k :: 0 <= k < |segs| ==> SegmentReadable(file, segs[k])
  }

  /** What one entry loads, if its contents go to a range with contents. */
  function LoadOf(ranges: seq<Range>, e: Entry): seq<Segment> {
    if e.Loads() && e.Mapped() != 0 then
      match CheckAddressRange(ranges, e.paddr, e.Mapped(), false)
      case Ok(r) => if r.kind == Contents then [Segment(e.paddr, e.Mapped(), e.offset)] else []
      case Err(_) => []
    else []
  }

  function Loads(ranges: seq<Range>, entries: seq<Entry>): seq<Segment> {
    if entries == [] then []
    else Loads(ranges, entries[..|entries| - 1]) + LoadOf(ranges, entries[|entries| - 1])
  }

  /** The error, if any, for which an entry is refused. */
  function EntryError(ranges: seq<Range>, e: Entry): Result<()> {
    if !e.Loads() then Ok(())
    else
      var contents := if e.Mapped() != 0 then CheckAddressRange(ranges, e.paddr, e.Mapped(), false)
                      else Ok(Range(0, 0, Contents));
      if contents.Err? then Err(contents.code)
      else if contents.value.kind != Contents || e.memsz <= e.filez then Ok(())
      else
        var rest := CheckAddressRange(ranges, Add32(e.paddr, e.filez), e.memsz - e.filez, true);
        if rest.Err? then Err(rest.code) else Ok(())
  }

  /** Some range holds a segment, and the first that does may be so used. */
  ghost predicate MayBeAt(ranges: seq<Range>, addr: nat, size: nat, uninitialized: bool) {
    exists k: nat :: FirstHolding(ranges, addr, size, k) && (ranges[k].kind != NoContents || uninitialized)
  }

  /** The first range that holds a segment is of a kind. */
  ghost predicate IsIn(ranges: seq<Range>, addr: nat, size: nat, kind: RangeType) {
    exists k: nat :: FirstHolding(ranges, addr, size, k) && ranges[k].kind == kind
  }

  function SizeInFile(e: Entry): nat { if e.filez < e.memsz then e.filez else e.memsz }

  /**
   * An entry that is not loaded suits every device. The contents of any other have to be in memory that may
   * have contents, and its other memory, unless the contents are ignored, in any memory of the device.
   */
  ghost predicate Suits(ranges: seq<Range>, e: Entry) {
    e.kind == 1 && e.memsz != 0 ==>
      && (e.filez != 0 ==> MayBeAt(ranges, e.paddr, SizeInFile(e), false))
      && (e.filez < e.memsz && !(e.filez != 0 && IsIn(ranges, e.paddr, SizeInFile(e), Ignore)) ==>
            MayBeAt(ranges, (e.paddr + e.filez) % 0x1_0000_0000, e.memsz - e.filez, true))
  }

  ghost predicate EntriesAccepted(ranges: seq<Range>, entries: seq<Entry>) {
    forall k :: 0 <= k < |entries| ==> Suits(ranges, entries[k])
  }

  lemma RangeDecides(ranges: seq<Range>, addr: nat, size: nat, uninitialized: bool)
    ensures var r := CheckAddressRange(ranges, addr, size, uninitialized);
            && (r.Ok? <==> MayBeAt(ranges, addr, size, uninitialized))
            && (r.Ok? ==> forall kind :: IsIn(ranges, addr, size, kind) <==> r.value.kind == kind)
            && (r.Ok? && !uninitialized ==> r.value.kind != NoContents)
  {
    RangeFoundIff(ranges, addr, size, uninitialized);
    if k: nat :| FirstHolding(ranges, addr, size, k) && (ranges[k].kind != NoContents || uninitialized) {
      forall j: nat | FirstHolding(ranges, addr, size, j) ensures j == k {
        FirstHoldingIsUnique(ranges, addr, size, j, k);
      }
    }
    hide FirstHolding, CheckAddressRange;
  }

  /** An entry is refused exactly if it does not suit the ranges. */
  lemma EntryAcceptedIff(ranges: seq<Range>, e: Entry)
    ensures EntryError(ranges, e).Ok? <==> Suits(ranges, e)
  {
    hide MayBeAt, IsIn, CheckAddressRange, EntryError, Suits;
    if !e.Loads() {
      NotLoadedSuits(ranges, e);
    } else {
      RangeDecides(ranges, e.paddr, SizeInFile(e), false);
      if e.filez < e.memsz {
        RangeDecides(ranges, Add32(e.paddr, e.filez), e.memsz - e.filez, true);
        PartiallyInFile(ranges, e);
      } else {
        WhollyInFile(ranges, e);
      }
    }
  }

  lemma NotLoadedSuits(ranges: seq<Range>, e: Entry)
    requires !e.Loads()
    ensures EntryError(ranges, e).Ok? && Suits(ranges, e)
  {
  }

  lemma WhollyInFile(ranges: seq<Range>, e: Entry)
    requires e.Loads() && e.filez >= e.memsz
    requires CheckAddressRange(ranges, e.paddr, e.memsz, false).Ok? <==> MayBeAt(ranges, e.paddr, e.memsz, false)
    ensures EntryError(ranges, e).Ok? <==> Suits(ranges, e)
  {
    hide MayBeAt, CheckAddressRange;
  }

  lemma PartiallyInFile(ranges: seq<Range>, e: Entry)
    requires e.Loads() && e.filez < e.memsz
    requires var r := CheckAddressRange(ranges, e.paddr, e.filez, false);
             && (r.Ok? <==> MayBeAt(ranges, e.paddr, e.filez, false))
             && (r.Ok? ==> r.value.kind != NoContents)
             && (r.Ok? ==> (IsIn(ranges, e.paddr, e.filez, Ignore) <==> r.value.kind == Ignore))
    requires CheckAddressRange(ranges, Add32(e.paddr, e.filez), e.memsz - e.filez, true).Ok?
             <==> MayBeAt(ranges, Add32(e.paddr, e.filez), e.memsz - e.filez, true)
    ensures EntryError(ranges, e).Ok? <==> Suits(ranges, e)
  {
    hide MayBeAt, IsIn, CheckAddressRange;
  }

  /** The end address of a loaded segment is a word, and its file offsets do not wrap. */
  ghost predicate NonWrapping(entries: seq<Entry>) {
    forall k :: 0 <= k < |entries| ==>
      && entries[k].Words()
      && (entries[k].Loads() ==>
            entries[k].paddr + entries[k].Mapped() < TWO_32 && entries[k].offset + entries[k].Mapped() <= TWO_32)
  }

  /** The contents of an entry belong in the image. */
  ghost predicate IsLoaded(ranges: seq<Range>, e: Entry) {
    e.kind == 1 && e.memsz != 0 && e.filez != 0 && IsIn(ranges, e.paddr, SizeInFile(e), Contents)
  }

  lemma LoadOfIs(ranges: seq<Range>, e: Entry)
    ensures LoadOf(ranges, e) == if IsLoaded(ranges, e) then [Segment(e.paddr, SizeInFile(e), e.offset)] else []
  {
    RangeDecides(ranges, e.paddr, SizeInFile(e), false);
    if IsIn(ranges, e.paddr, SizeInFile(e), Contents) {
      assert MayBeAt(ranges, e.paddr, SizeInFile(e), false);
    }
    hide MayBeAt, IsIn, CheckAddressRange;
  }

  predicate InFilePart(e: Entry, a: nat) { e.paddr <= a < e.paddr + SizeInFile(e) }

  /** A byte of the image comes from the file, where the last entry to load it says. */
  lemma {:induction false} ImageByte(file: seq<byte>, ranges: seq<Range>, entries: seq<Entry>, i: nat, a: nat)
    requires i < |entries| && IsLoaded(ranges, entries[i]) && InFilePart(entries[i], a)
    requires forall j :: i < j < |entries| ==> !(IsLoaded(ranges, entries[j]) && InFilePart(entries[j], a))
    ensures var at := entries[i].offset + (a - entries[i].paddr);
            ByteAt(file, Loads(ranges, entries), a) == if at < |file| then file[at] else 0
  {
    hide IsLoaded, LoadOf;
    var last := |entries| - 1;
    var e, before := entries[last], Loads(ranges, entries[..last]);
    LoadOfIs(ranges, e);
    if IsLoaded(ranges, e) {
      assert (before + [Segment(e.paddr, SizeInFile(e), e.offset)])[..|before|] == before;
    } else {
      assert before + [] == before;
    }
    if i < last {
      assert !(IsLoaded(ranges, e) && InFilePart(e, a));
      ImageByte(file, ranges, entries[..last], i, a);
    }
  }

  /** Memory that no entry loads is zero in the image. */
  lemma {:induction false} ImageZero(file: seq<byte>, ranges: seq<Range>, entries: seq<Entry>, a: nat)
    requires forall j :: 0 <= j < |entries| ==> !(IsLoaded(ranges, entries[j]) && InFilePart(entries[j], a))
    ensures ByteAt(file, Loads(ranges, entries), a) == 0
  {
    hide IsLoaded, LoadOf;
    if entries != [] {
      var last := |entries| - 1;
      var e, before := entries[last], Loads(ranges, entries[..last]);
      LoadOfIs(ranges, e);
      assert !(IsLoaded(ranges, e) && InFilePart(e, a));
      if IsLoaded(ranges, e) {
        assert (before + [Segment(e.paddr, SizeInFile(e), e.offset)])[..|before|] == before;
      } else {
        assert before + [] == before;
      }
      ImageZero(file, ranges, entries[..last], a);
    }
  }

  // What the fragments of a page put in it.

  /** The byte at an offset of a page that held `base`: from the last fragment that covers it. */
  function Painted(file: seq<byte>, frags: seq<Fragment>, j: nat, base: byte): byte {
    if frags == [] then base
    else
      var last := frags[|frags| - 1];
      if last.pageOffset <= j < last.pageOffset + last.bytes
      then FileByte(file, last.fileOffset + (j - last.pageOffset))
      else Painted(file, frags[..|frags| - 1], j, base)
  }

  function FragmentsOf(pages: Pages, page: nat): seq<Fragment> {
    if page in pages then pages[page] else []
  }

  predicate IsPage(p: nat) { p % PAGE_SIZE == 0 && p < TWO_32 }

  ghost predicate Fits(frags: seq<Fragment>) {
    forall k :: 0 <= k < |frags| ==> 0 < frags[k].bytes && frags[k].pageOffset + frags[k].bytes <= PAGE_SIZE
  }

  ghost predicate FragmentsReadable(file: seq<byte>, frags: seq<Fragment>) {
    forall k :: 0 <= k < |frags| ==> frags[k].fileOffset + frags[k].bytes <= |file|
  }

  ghost predicate PagesReadable(file: seq<byte>, pages: Pages) {
    forall p :: p in pages ==> FragmentsReadable(file, pages[p])
  }

  ghost predicate PagesFit(pages: Pages) {
    forall p :: p in pages ==> IsPage(p) && Fits(pages[p])
  }

  ghost predicate PagesTouched(pages: Pages, segs: seq<Segment>) {
    forall p: nat :: IsPage(p) ==> (p in pages <==> Touched(segs, p))
  }

  ghost predicate PagesPainted(file: seq<byte>, pages: Pages, segs: seq<Segment>) {
    forall p: nat, j: nat :: IsPage(p) && j < PAGE_SIZE ==>
      Painted(file, FragmentsOf(pages, p), j, 0) == ByteAt(file, segs, p + j)
  }

  /** The pages are those the segments touch, and hold what the segments put there. */
  ghost predicate PagesMatch(file: seq<byte>, pages: Pages, segs: seq<Segment>) {
    && PagesFit(pages)
    && PagesTouched(pages, segs)
    && PagesPainted(file, pages, segs)
    && (PagesReadable(file, pages) <==> SegmentsReadable(file, segs))
  }

  function Append(pages: Pages, page: nat, f: Fragment): Pages {
    pages[page := FragmentsOf(pages, page) + [f]]
  }

  /** The next piece of a segment, up to the end of its page, goes to that page. */
  lemma PieceMatches(file: seq<byte>, pages: Pages, segs: seq<Segment>, addr: nat, done: nat, offset: nat, len: nat)
    requires PagesMatch(file, pages, segs + [Segment(addr, done, offset)])
    requires 0 < len && addr + done + len < TWO_32
    requires (addr + done) % PAGE_SIZE + len <= PAGE_SIZE
    ensures var off := (addr + done) % PAGE_SIZE;
            PagesMatch(file, Append(pages, addr + done - off, Fragment(offset + done, off, len)),
                       segs + [Segment(addr, done + len, offset)])
  {
    hide PagesTouched, PagesPainted, PagesReadable, SegmentsReadable, Fits, Touched;
    var off := (addr + done) % PAGE_SIZE;
    var page := addr + done - off;
    PieceFits(pages, page, Fragment(offset + done, off, len));
    PieceTouches(pages, segs, addr, done, offset, len, page);
    PiecePaints(file, pages, segs, addr, done, offset, len, page);
    PieceReadable(file, pages, segs, addr, done, offset, len, page, off);
  }

  lemma PieceFits(pages: Pages, page: nat, f: Fragment)
    requires PagesFit(pages) && IsPage(page) && 0 < f.bytes && f.pageOffset + f.bytes <= PAGE_SIZE
    ensures PagesFit(Append(pages, page, f))
  {
    var frags := FragmentsOf(pages, page);
    assert Fits(frags);
    assert Fits(frags + [f]) by {
      assert forall k :: 0 <= k < |frags| ==> (frags + [f])[k] == frags[k];
    }
  }

  lemma PieceTouches(pages: Pages, segs: seq<Segment>, addr: nat, done: nat, offset: nat, len: nat, page: nat)
    requires PagesTouched(pages, segs + [Segment(addr, done, offset)])
    requires IsPage(page) && 0 < len
    requires page <= addr + done && addr + done + len <= page + PAGE_SIZE
    ensures PagesTouched(Append(pages, page, Fragment(offset + done, addr + done - page, len)),
                         segs + [Segment(addr, done + len, offset)])
  {
    hide Touched, Overlaps;
    forall p: nat | IsPage(p)
      ensures Touched(segs + [Segment(addr, done + len, offset)], p)
              <==> Touched(segs + [Segment(addr, done, offset)], p) || p == page
    {
      TouchedGrows(segs, addr, done, offset, len, page, p);
    }
  }

  lemma PiecePaints(file: seq<byte>, pages: Pages, segs: seq<Segment>, addr: nat, done: nat, offset: nat, len: nat,
                    page: nat)
    requires PagesPainted(file, pages, segs + [Segment(addr, done, offset)])
    requires IsPage(page)
    requires page <= addr + done && addr + done + len <= page + PAGE_SIZE
    ensures PagesPainted(file, Append(pages, page, Fragment(offset + done, addr + done - page, len)),
                         segs + [Segment(addr, done + len, offset)])
  {
    var before, after := segs + [Segment(addr, done, offset)], segs + [Segment(addr, done + len, offset)];
    var f := Fragment(offset + done, addr + done - page, len);
    var pages' := Append(pages, page, f);
    forall p: nat, j: nat | IsPage(p) && j < PAGE_SIZE
      ensures Painted(file, FragmentsOf(pages', p), j, 0) == ByteAt(file, after, p + j)
    {
      hide IsPage;
      assert Painted(file, FragmentsOf(pages, p), j, 0) == ByteAt(file, before, p + j);
      SegmentGrows(file, segs, addr, done, offset, len, p + j);
      if p == page {
        FragmentAdded(file, FragmentsOf(pages, p), f, j);
      } else {
        PagesApart(p, page);
      }
    }
  }

  lemma PagesApart(p: nat, page: nat)
    requires IsPage(p) && IsPage(page) && p != page
    ensures p + PAGE_SIZE <= page || page + PAGE_SIZE <= p
  {
  }

  lemma FragmentAdded(file: seq<byte>, frags: seq<Fragment>, f: Fragment, j: nat)
    ensures Painted(file, frags + [f], j, 0)
            == if f.pageOffset <= j < f.pageOffset + f.bytes then FileByte(file, f.fileOffset + (j - f.pageOffset))
               else Painted(file, frags, j, 0)
  {
    assert (frags + [f])[..|frags|] == frags;
  }

  lemma SegmentGrows(file: seq<byte>, segs: seq<Segment>, addr: nat, done: nat, offset: nat, len: nat, a: nat)
    ensures ByteAt(file, segs + [Segment(addr, done + len, offset)], a)
            == if addr + done <= a < addr + done + len then FileByte(file, offset + (a - addr))
               else ByteAt(file, segs + [Segment(addr, done, offset)], a)
  {
    assert (segs + [Segment(addr, done, offset)])[..|segs|] == segs;
    assert (segs + [Segment(addr, done + len, offset)])[..|segs|] == segs;
  }

  lemma TouchedGrows(segs: seq<Segment>, addr: nat, done: nat, offset: nat, len: nat, page: nat, p: nat)
    requires IsPage(p) && page % PAGE_SIZE == 0 && 0 < len
    requires page <= addr + done && addr + done + len <= page + PAGE_SIZE
    ensures Touched(segs + [Segment(addr, done + len, offset)], p)
            <==> Touched(segs + [Segment(addr, done, offset)], p) || p == page
  {
    var before, after := segs + [Segment(addr, done, offset)], segs + [Segment(addr, done + len, offset)];
    assert forall k :: 0 <= k < |segs| ==> before[k] == after[k];
    assert Overlaps(after[|segs|], p) <==> Overlaps(before[|segs|], p) || p == page;
    if Touched(after, p) {
      var k :| 0 <= k < |after| && Overlaps(after[k], p);
      assert k < |segs| ==> Overlaps(before[k], p);
    }
    if Touched(before, p) {
      var k :| 0 <= k < |before| && Overlaps(before[k], p);
      assert Overlaps(after[k], p);
    }
    if p == page {
      assert Overlaps(after[|segs|], p);
    }
  }

  lemma PieceReadable(file: seq<byte>, pages: Pages, segs: seq<Segment>, addr: nat, done: nat, offset: nat, len: nat,
                      page: nat, off: nat)
    requires PagesReadable(file, pages) <==> SegmentsReadable(file, segs + [Segment(addr, done, offset)])
    requires len > 0
    ensures PagesReadable(file, Append(pages, page, Fragment(offset + done, off, len)))
            <==> SegmentsReadable(file, segs + [Segment(addr, done + len, offset)])
  {
    var f := Fragment(offset + done, off, len);
    var pages' := Append(pages, page, f);
    var before, after := segs + [Segment(addr, done, offset)], segs + [Segment(addr, done + len, offset)];
    var frags := FragmentsOf(pages, page);
    assert FragmentsReadable(file, frags + [f]) <==> FragmentsReadable(file, frags) && f.fileOffset + len <= |file| by {
      assert forall k :: 0 <= k < |frags| ==> (frags + [f])[k] == frags[k];
      assert (frags + [f])[|frags|] == f;
    }
    assert SegmentsReadable(file, before)
           <==> SegmentsReadable(file, segs) && SegmentReadable(file, before[|segs|]) by {
      assert forall k :: 0 <= k < |segs| ==> before[k] == segs[k];
    }
    assert SegmentsReadable(file, after) <==> SegmentsReadable(file, segs) && SegmentReadable(file, after[|segs|]) by {
      assert forall k :: 0 <= k < |segs| ==> after[k] == segs[k];
    }
    assert PagesReadable(file, pages') <==> PagesReadable(file, pages) && FragmentsReadable(file, frags + [f]) by {
      assert pages'[page] == frags + [f];
      assert forall p :: p in pages && p != page ==> pages'[p] == pages[p];
    }
  }

  lemma EmptyPieceMatches(file: seq<byte>, pages: Pages, segs: seq<Segment>, addr: nat, offset: nat)
    ensures PagesMatch(file, pages, segs) <==> PagesMatch(file, pages, segs + [Segment(addr, 0, offset)])
  {
    var seg := Segment(addr, 0, offset);
    var more := segs + [seg];
    assert more[..|segs|] == segs;
    assert forall k :: 0 <= k < |segs| ==> more[k] == segs[k];
    forall p: nat ensures Touched(segs, p) <==> Touched(more, p) {
      assert !Overlaps(seg, p);
      if Touched(segs, p) {
        var k :| 0 <= k < |segs| && Overlaps(segs[k], p);
        assert Overlaps(more[k], p);
      }
    }
    assert forall a: nat :: ByteAt(file, more, a) == ByteAt(file, segs, a);
    assert SegmentsReadable(file, more) <==> SegmentsReadable(file, segs) && SegmentReadable(file, more[|segs|]);
  }

  // The operations.

  /** Cuts the contents of an entry into fragments of pages (the inner loop of check_elf32_ph_entries). */
  method MapSegment(ghost file: seq<byte>, pages0: Pages, ghost segs: seq<Segment>, paddr: nat, mapped: nat,
                    offset: nat)
    returns (pages: Pages)
    requires PagesMatch(file, pages0, segs)
    requires paddr + mapped < TWO_32
    ensures PagesMatch(file, pages, segs + [Segment(paddr, mapped, offset)])
  {
    hide PagesMatch;
    pages := pages0;
    var addr, remaining, fileOffset := paddr, mapped, offset;
    EmptyPieceMatches(file, pages, segs, paddr, offset);
    while remaining != 0
      invariant 0 <= remaining <= mapped
      invariant addr == paddr + (mapped - remaining) && fileOffset == offset + (mapped - remaining)
      invariant PagesMatch(file, pages, segs + [Segment(paddr, mapped - remaining, offset)])
    {
      var off := addr % PAGE_SIZE;
      var len := if remaining < PAGE_SIZE - off then remaining else PAGE_SIZE - off;
      PieceMatches(file, pages, segs, paddr, mapped - remaining, offset, len);
      pages := Append(pages, addr - off, Fragment(fileOffset, off, len));
      addr := addr + len;
      fileOffset := fileOffset + len;
      remaining := remaining - len;
    }
  }

  /**
   * check_elf32_ph_entries: refuses the entries exactly when one of them does not suit the ranges, and
   * otherwise leaves the pages the loaded segments touch, holding what the segments put there.
   */
  method CheckEntries(ghost file: seq<byte>, entries: seq<Entry>, ranges: seq<Range>) returns (rc: Result<Pages>)
    requires NonWrapping(entries)
    ensures rc.Ok? <==> EntriesAccepted(ranges, entries)
    ensures rc.Ok? ==> PagesMatch(file, rc.value, Loads(ranges, entries))
    ensures rc.Err? ==> rc.code == ERROR_INCOMPATIBLE
  {
    hide PagesMatch, CheckAddressRange, EntriesAccepted;
    AcceptedIff(ranges, entries);
    var pages: Pages := map[];
    NoPagesMatch(file);
    var i := 0;
    while i < |entries|
      invariant i <= |entries|
      invariant forall k :: 0 <= k < i ==> EntryError(ranges, entries[k]).Ok?
      invariant PagesMatch(file, pages, Loads(ranges, entries[..i]))
    {
      var e := entries[i];
      ghost var segs := Loads(ranges, entries[..i]);
      assert entries[..i + 1][..i] == entries[..i];
      assert Loads(ranges, entries[..i + 1]) == segs + LoadOf(ranges, e);
      assert segs + [] == segs;
      i := i + 1;
      if e.kind == PT_LOAD && e.memsz != 0 {
        var mapped := if e.filez < e.memsz then e.filez else e.memsz;
        if mapped != 0 {
          var ar := CheckAddressRange(ranges, e.paddr, mapped, false);
          OnlyIncompatible(ranges, e.paddr, mapped, false);
          if ar.Err? {
            return Err(ar.code);
          }
          if ar.value.kind != Contents {
            continue;
          }
          pages := MapSegment(file, pages, segs, e.paddr, mapped, e.offset);
        }
        if e.memsz > e.filez {
          var ar := CheckAddressRange(ranges, Add32(e.paddr, e.filez), e.memsz - e.filez, true);
          OnlyIncompatible(ranges, Add32(e.paddr, e.filez), e.memsz - e.filez, true);
          if ar.Err? {
            return Err(ar.code);
          }
        }
      }
    }
    assert entries[..i] == entries;
    return Ok(pages);
  }

  lemma AcceptedIff(ranges: seq<Range>, entries: seq<Entry>)
    ensures EntriesAccepted(ranges, entries) <==> forall k :: 0 <= k < |entries| ==> EntryError(ranges, entries[k]).Ok?
  {
    hide Suits, EntryError;
    forall k | 0 <= k < |entries| ensures EntryError(ranges, entries[k]).Ok? <==> Suits(ranges, entries[k]) {
      EntryAcceptedIff(ranges, entries[k]);
    }
  }

  lemma NoPagesMatch(file: seq<byte>)
    ensures PagesMatch(file, map[], [])
  {
  }

  lemma {:induction false} OnlyIncompatible(ranges: seq<Range>, addr: nat, size: nat, uninitialized: bool)
    ensures var r := CheckAddressRange(ranges, addr, size, uninitialized);
            (r.Err? ==> r.code == ERROR_INCOMPATIBLE) && (r.Ok? ==> r.value in ranges)
  {
    if ranges != [] {
      OnlyIncompatible(ranges[1..], addr, size, uninitialized);
    }
  }

  /** realize_page: reads the fragments of a page from the file over the buffer. */
  method RealizePage(file: seq<byte>, frags: seq<Fragment>, buf: array<byte>) returns (rc: int)
    requires buf.Length >= PAGE_SIZE && Fits(frags)
    modifies buf
    ensures rc == 0 <==> FragmentsReadable(file, frags)
    ensures rc != 0 ==> rc == ERROR_READ_FAILED
    ensures rc == 0 ==> forall j :: 0 <= j < buf.Length ==> buf[j] == Painted(file, frags, j, old(buf[j]))
  {
    var i := 0;
    while i < |frags|
      invariant i <= |frags|
      invariant forall k :: 0 <= k < i ==> frags[k].fileOffset + frags[k].bytes <= |file|
      invariant forall j :: 0 <= j < buf.Length ==> buf[j] == Painted(file, frags[..i], j, old(buf[j]))
    {
      var frag := frags[i];
      if |file| < frag.fileOffset + frag.bytes {
        return ERROR_READ_FAILED;
      }
      assert frags[..i + 1][..i] == frags[..i];
      forall j | frag.pageOffset <= j < frag.pageOffset + frag.bytes {
        buf[j] := file[frag.fileOffset + (j - frag.pageOffset)];
      }
      i := i + 1;
    }
    assert frags[..i] == frags;
    return 0;
  }
}

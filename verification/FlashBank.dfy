/**
 * Two banks of storage in flash: erasing sets every bit, programming can only clear bits and works on
 * whole pages, and a write of any range is made of whole pages whose other bytes are what they were.
 */
module FlashBank {

  type byte = bv8

  const FLASH_PAGE_SIZE: nat := 256

  /** A byte of a page buffer on the stack, before and after something has been put there. */
  datatype Cell = Undefined | Byte(value: byte)

  // What programming does.

  /** Flash after a range has been programmed: bits can only be cleared. */
  function Programmed(flash: seq<byte>, pos: nat, data: seq<byte>): seq<byte> {
    seq(|flash|, i requires 0 <= i < |flash| => if pos <= i < pos + |data| then flash[i] & data[i - pos] else flash[i])
  }

  function Slice(flash: seq<byte>, pos: nat, size: nat): seq<byte>
    requires pos + size <= |flash|
  {
    flash[pos..pos + size]
  }

  predicate Erased(flash: seq<byte>, pos: nat, size: nat) {
    pos + size <= |flash| && forall i :: pos <= i < pos + size ==> flash[i] == 0xff
  }

  lemma AllOnes(b: byte)
    ensures 0xff & b == b && b & b == b
  {
  }

  /** Data written to an erased range is read back as it was. */
  lemma ErasedReadsBack(flash: seq<byte>, pos: nat, data: seq<byte>)
    requires Erased(flash, pos, |data|)
    ensures Slice(Programmed(flash, pos, data), pos, |data|) == data
  {
    forall i | 0 <= i < |data| ensures Programmed(flash, pos, data)[pos + i] == data[i] {
      assert flash[pos + i] == 0xff;
      AllOnes(data[i]);
    }
  }

  /** A range that reads back the data after programming it had a one wherever the data has one, and only then. */
  lemma ReadsBackIff(flash: seq<byte>, pos: nat, data: seq<byte>)
    requires pos + |data| <= |flash|
    ensures Slice(Programmed(flash, pos, data), pos, |data|) == data
            <==> forall i :: 0 <= i < |data| ==> flash[pos + i] & data[i] == data[i]
  {
    var after := Slice(Programmed(flash, pos, data), pos, |data|);
    forall i | 0 <= i < |data| ensures after[i] == flash[pos + i] & data[i] {
    }
  }

  /** Writing the same data again changes nothing. */
  lemma ProgramTwice(flash: seq<byte>, pos: nat, data: seq<byte>)
    ensures Programmed(Programmed(flash, pos, data), pos, data) == Programmed(flash, pos, data)
  {
    var once := Programmed(flash, pos, data);
    forall i | 0 <= i < |flash| ensures Programmed(once, pos, data)[i] == once[i] {
      if pos <= i < pos + |data| {
        Absorb(flash[i], data[i - pos]);
      }
    }
  }

  lemma Absorb(a: byte, b: byte)
    ensures (a & b) & b == a & b
  {
  }

  /** Two writes to ranges that do not overlap can be made in either order. */
  lemma WritesCommute(flash: seq<byte>, pos1: nat, data1: seq<byte>, pos2: nat, data2: seq<byte>)
    requires pos1 + |data1| <= pos2 || pos2 + |data2| <= pos1
    ensures Programmed(Programmed(flash, pos1, data1), pos2, data2)
            == Programmed(Programmed(flash, pos2, data2), pos1, data1)
  {
  }

  /** Programming a range piece by piece. */
  lemma ProgramNext(flash: seq<byte>, pos: nat, data: seq<byte>, done: nat, more: nat)
    requires done <= more <= |data|
    ensures Programmed(Programmed(flash, pos, data[..done]), pos + done, data[done..more])
            == Programmed(flash, pos, data[..more])
  {
  }

  lemma ProgramNothing(flash: seq<byte>, pos: nat)
    ensures Programmed(flash, pos, []) == flash
  {
  }

  class FlashBanks {
    const flash: array<byte>
    const storage: nat
    const bankSize: nat

    /** The storage lies on page boundaries, in flash, and its size is a word. */
    ghost predicate Valid() {
      storage % 256 == 0 && bankSize % 256 == 0 && storage + 2 * bankSize <= flash.Length < 0x1_0000_0000
    }

    constructor (flash: array<byte>, storage: nat, bankSize: nat)
      ensures this.flash == flash && this.storage == storage && this.bankSize == bankSize
    {
      this.flash := flash;
      this.storage := storage;
      this.bankSize := bankSize;
    }

    /** The arguments that read and write accept. */
    predicate InRange(bank: nat, offset: nat, size: nat) {
      bank <= 1 && offset < bankSize && offset + size <= bankSize
    }

    function Position(bank: nat, offset: nat): nat { storage + bankSize * bank + offset }

    /** What the arguments of an access mean: the second bank comes right behind the first. */
    lemma PlaceOfAccess(bank: nat, offset: nat, size: nat)
      ensures InRange(bank, offset, size)
              <==> (bank == 0 || bank == 1) && offset < bankSize && offset + size <= bankSize
      ensures Position(0, offset) == storage + offset && Position(1, offset) == storage + bankSize + offset
    {
    }

    /** What is written to one bank does not touch the other one, nor what is outside both. */
    lemma BanksApart(was: seq<byte>, bank: nat, offset: nat, data: seq<byte>, i: nat)
      requires Valid() && InRange(bank, offset, |data|) && |was| == flash.Length && i < |was|
      requires i < storage + bankSize * bank || storage + bankSize * bank + bankSize <= i
      ensures Programmed(was, Position(bank, offset), data)[i] == was[i]
    {
      if bank == 1 {
        assert bankSize * bank == bankSize;
      } else {
        assert bankSize * bank == 0;
      }
    }

    method Erase(bank: nat)
      requires Valid() && Position(bank, bankSize) <= flash.Length
      modifies flash
      ensures Erased(flash[..], Position(bank, 0), bankSize)
      ensures forall i :: 0 <= i < flash.Length && !(Position(bank, 0) <= i < Position(bank, bankSize)) ==>
        flash[i] == old(flash[i])
    {
      var start := storage + bankSize * bank;
      forall i | start <= i < start + bankSize {
        flash[i] := 0xff;
      }
    }

    /** Copies a range of a bank into a buffer; a range that does not fit leaves the buffer alone. */
    method Read(bank: nat, offset: nat, buffer: array<byte>)
      requires Valid() && offset + buffer.Length < 0x1_0000_0000 && buffer != flash
      modifies buffer
      ensures if InRange(bank, offset, buffer.Length)
              then Position(bank, offset) + buffer.Length <= flash.Length
                   && buffer[..] == Slice(flash[..], Position(bank, offset), buffer.Length)
              else buffer[..] == old(buffer[..])
    {
      if bank > 1 {
        return;
      }
      if offset >= bankSize {
        return;
      }
      if offset + buffer.Length > bankSize {
        return;
      }
      var start := storage + bankSize * bank + offset;
      assert start + buffer.Length <= flash.Length;
      forall i | 0 <= i < buffer.Length {
        buffer[i] := flash[start + i];
      }
    }

    /** flash_range_program for one page, all of whose bytes have to be defined. */
    method ProgramPage(start: nat, page: seq<Cell>)
      requires start % 256 == 0 && start + 256 <= flash.Length && |page| == 256
      requires forall j :: 0 <= j < 256 ==> page[j].Byte?
      modifies flash
      ensures forall i :: 0 <= i < flash.Length ==>
        flash[i] == if start <= i < start + 256 then old(flash[i]) & page[i - start].value else old(flash[i])
    {
      forall i | start <= i < start + 256 {
        flash[i] := flash[i] & page[i - start].value;
      }
    }

    /** Copies bytes into a page buffer. */
    static method CopyIn(page: array<Cell>, at: nat, source: seq<byte>)
      requires at + |source| <= page.Length
      modifies page
      ensures forall j :: 0 <= j < page.Length ==>
        page[j] == if at <= j < at + |source| then Byte(source[j - at]) else old(page[j])
    {
      forall j | at <= j < at + |source| {
        page[j] := Byte(source[j - at]);
      }
    }

    /** The page buffer for one page of a write: data from `at` on, and what is in flash elsewhere. */
    method FillPage(start: nat, at: nat, data: seq<byte>, isFirst: bool, isLast: bool) returns (page: array<Cell>)
      requires start + 256 <= flash.Length
      requires at + |data| <= 256 && (at > 0 ==> isFirst) && (at + |data| < 256 ==> isLast)
      ensures fresh(page) && page.Length == 256
      ensures forall j :: 0 <= j < 256 ==>
        page[j] == Byte(if at <= j < at + |data| then data[j - at] else flash[start + j])
    {
      page := new Cell[256](_ => Undefined);
      ghost var kept := flash[..];
      if isFirst && at > 0 {
        CopyIn(page, 0, flash[start..start + at]);
        assert flash[..] == kept;
      }
      if isLast && at + |data| < 256 {
        CopyIn(page, at + |data|, flash[start + at + |data|..start + 256]);
        assert flash[..] == kept;
      }
      CopyIn(page, at, data);
      assert flash[..] == kept;
    }

    /** Programs one page of a write. */
    method WritePage(start: nat, at: nat, data: seq<byte>, isFirst: bool, isLast: bool)
      requires start % 256 == 0 && start + 256 <= flash.Length
      requires at + |data| <= 256 && (at > 0 ==> isFirst) && (at + |data| < 256 ==> isLast)
      modifies flash
      ensures flash[..] == Programmed(old(flash[..]), start + at, data)
    {
      ghost var was := flash[..];
      var page := FillPage(start, at, data, isFirst, isLast);
      assert flash[..] == was;
      ghost var cells := page[..];
      ProgramPage(start, page[..]);
      forall i | 0 <= i < flash.Length ensures flash[i] == Programmed(was, start + at, data)[i] {
        if start <= i < start + 256 {
          assert cells[i - start] == Byte(if at <= i - start < at + |data| then data[i - start - at] else was[i]);
          AllOnes(was[i]);
        }
      }
    }

    /** Writes a range of a bank page by page; a range that does not fit leaves the flash alone. */
    method Write(bank: nat, offset0: nat, data: seq<byte>)
      requires Valid() && offset0 + |data| < 0x1_0000_0000
      modifies flash
      ensures flash[..] == if InRange(bank, offset0, |data|)
                           then Programmed(old(flash[..]), Position(bank, offset0), data)
                           else old(flash[..])
    {
      if bank > 1 {
        return;
      }
      if offset0 >= bankSize {
        return;
      }
      if offset0 + |data| > bankSize {
        return;
      }
      if |data| == 0 {
        assert data == [];
        ProgramNothing(flash[..], Position(bank, offset0));
        return;
      }
      hide Programmed;
      var bankStart := storage + bankSize * bank;
      BankFits(bank);
      assert Position(bank, offset0) == bankStart + offset0;
      hide FlashBanks.Position;
      WritePages(bankStart, offset0, data);
    }

    lemma BankFits(bank: nat)
      requires Valid() && bank <= 1
      ensures storage + bankSize * bank + bankSize <= flash.Length
      ensures (storage + bankSize * bank) % 256 == 0
    {
      if bank == 1 {
        assert (storage + bankSize) % 256 == 0;
      }
    }

    lemma PageFits(page: nat, offset0: nat, size: nat)
      requires bankSize % 256 == 0 && 0 < size && offset0 + size <= bankSize
      requires page < (offset0 + size + 255) / 256
      ensures page * 256 + 256 <= bankSize
      ensures page * 256 < offset0 + size
    {
    }

    /** The page loop of a write. */
    method WritePages(bankStart: nat, offset0: nat, data: seq<byte>)
      requires bankStart % 256 == 0 && bankSize % 256 == 0 && bankStart + bankSize <= flash.Length
      requires data != [] && offset0 + |data| <= bankSize
      modifies flash
      ensures flash[..] == Programmed(old(flash[..]), bankStart + offset0, data)
    {
      hide Programmed;
      var firstPage := offset0 / 256;
      var lastPage := (offset0 + |data| + 256 - 1) / 256;
      var offset := offset0 % 256;
      var dataPos, sizeLeft := 0, |data|;
      var page := firstPage;
      assert data[..0] == [];
      ProgramNothing(flash[..], bankStart + offset0);
      while page < lastPage
        invariant firstPage <= page <= lastPage
        invariant dataPos + sizeLeft == |data| && 0 <= dataPos <= |data|
        invariant page == firstPage ==> dataPos == 0 && offset == offset0 % 256
        invariant page > firstPage ==> offset == 0 && (dataPos == |data| || offset0 + dataPos == page * 256)
        invariant page * 256 >= offset0 + |data| ==> sizeLeft == 0
        invariant page > firstPage && page * 256 < offset0 + |data| ==> sizeLeft > 0
        invariant flash[..] == Programmed(old(flash[..]), bankStart + offset0, data[..dataPos])
      {
        PageFits(page, offset0, |data|);
        var sizeToCopy := if sizeLeft < 256 - offset then sizeLeft else 256 - offset;
        assert bankStart + page * 256 + offset == bankStart + offset0 + dataPos;
        WritePage(bankStart + page * 256, offset, data[dataPos..dataPos + sizeToCopy], page == firstPage,
                  page == lastPage - 1);
        ProgramNext(old(flash[..]), bankStart + offset0, data, dataPos, dataPos + sizeToCopy);
        dataPos := dataPos + sizeToCopy;
        sizeLeft := sizeLeft - sizeToCopy;
        offset := 0;
        page := page + 1;
      }
      assert data[..dataPos] == data;
    }
  }
}

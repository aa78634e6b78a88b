/** Erasing pages in main/stm32flash/stm32.c, with the extended erase command (0x44 or 0x45) and
    with the regular one (0x43). */
module Stm32Erase {
  import opened Bootloader
  import opened Stm32Link

  const MAX_PAGES: nat := 0xFFFF
  const MASS_ERASE: nat := 0x10_0000
  const BATCH: nat := 511
  const PAGEERASE_TIMEOUT: nat := 5
  const MASSERASE_TIMEOUT: nat := 35

  type uint32 = n: nat | n < ADDRESS_SPACE witness 0

  /** The sum of two 32-bit numbers. */
  function Sum(a: uint32, b: uint32): uint32 { (a + b) % ADDRESS_SPACE }

  /** The request is dropped without a word, and reported as done. */
  predicate Dropped(spage: uint32, pages: uint32) {
    pages == 0 || spage > 0xFFFF || (pages != 0x10_0000 && Sum(spage, pages) > 0xFFFF)
  }

  /** The check keeps every range of pages below the limit and drops every other, exactly as long
      as the end of the range does not wrap around. */
  lemma DroppedMeans(spage: uint32, pages: uint32)
    requires pages != 0x10_0000
    ensures (Dropped(spage, pages) <==> pages == 0 || spage + pages > 0xFFFF)
      <==> (pages == 0 || spage > 0xFFFF || spage + pages < ADDRESS_SPACE)
  {
  }

  /** The pages a device erases when told to erase n pages from `from` on. */
  function Named(z: Setup, from: nat, n: nat): (s: seq<nat>)
    ensures |s| == n
  {
    CutRange(!z.regular, from, n)
  }

  /** They are the pages meant, unless the command cannot express their numbers. */
  lemma NamedAreMeant(z: Setup, from: nat, n: nat)
    requires n > 0
    ensures Named(z, from, n) == Range(from, n) <==> from + n <= if z.regular then 0x100 else 0x1_0000
  {
    CutRangeMeant(!z.regular, from, n);
  }

  /** How many pages of a batch get into its list: the loop compares with an end of 32 bits. */
  function Listed(spage: uint32, pages: uint32): uint32 { if spage + pages < ADDRESS_SPACE then pages else 0 }

  lemma ListEnd(spage: uint32, pages: uint32)
    ensures Sum(spage, pages) == if spage + pages < ADDRESS_SPACE then spage + pages else spage + pages - ADDRESS_SPACE
  {
  }

  class Eraser {
    const port: Port
    const noMassErase: bool           // F_NO_ME
    const allPages: uint32            // what flash_addr_to_page_ceil says of the whole flash

    constructor (port: Port, noMassErase: bool, allPages: uint32)
      ensures this.port == port && this.noMassErase == noMassErase && this.allPages == allPages
    {
      this.port, this.noMassErase, this.allPages := port, noMassErase, allPages;
    }

    ghost predicate Ready()
      reads port
    {
      port.Valid() && port.inbox == [] && port.device.phase == Command
    }

    /** Appends a page number or a count. */
    method PutPair(buf: array<byte>, at: nat, n: nat, cs0: byte) returns (cs: byte)
      requires at + 1 < buf.Length && cs0 == Checksum(buf[..at])
      modifies buf
      ensures buf[..at + 2] == old(buf[..at]) + PairBytes(n) && cs == Checksum(buf[..at + 2])
    {
      hide Checksum, Byte;
      cs := PutByte(buf, at, Byte(n / 0x100), cs0);
      cs := PutByte(buf, at + 1, Byte(n), cs);
      assert old(buf[..at]) + [Byte(n / 0x100)] + [Byte(n)] == old(buf[..at]) + PairBytes(n);
    }

    /** The page numbers and the checksum, from place `at` of the buffer on. */
    method PutPages(buf: array<byte>, at: nat, spage: uint32, pages: uint32, cs0: byte) returns (i: nat)
      requires at + 2 * pages + 1 <= buf.Length && cs0 == Checksum(buf[..at])
      modifies buf
      ensures i == at + 2 * Listed(spage, pages) + 1
      ensures buf[..i] == Closed(old(buf[..at]) + PageList(spage, Listed(spage, pages)))
    {
      hide Checksum, PairBytes, PageList;
      ghost var front := buf[..at];
      var cs := cs0;
      i := at;
      NoPageList(front, spage);
      ListEnd(spage, pages);
      var end := Sum(spage, pages);
      var pgNum := spage;
      while pgNum < end
        invariant spage <= pgNum <= spage + Listed(spage, pages)
        invariant i == at + 2 * (pgNum - spage)
        invariant buf[..i] == front + PageList(spage, pgNum - spage) && cs == Checksum(buf[..i])
      {
        MorePages(front, spage, pgNum - spage);
        cs := PutPair(buf, i, pgNum, cs);
        i := i + 2;
        pgNum := pgNum + 1;
      }
      buf[i] := cs;
      i := i + 1;
      assert buf[..i] == buf[..i - 1] + [cs];
    }

    /** The page numbers of the regular command, one byte each, and the checksum. */
    method PutNumbers(buf: array<byte>, at: nat, spage: uint32, pages: uint32, cs0: byte) returns (i: nat)
      requires at + pages + 1 <= buf.Length && cs0 == Checksum(buf[..at])
      modifies buf
      ensures i == at + Listed(spage, pages) + 1
      ensures buf[..i] == Closed(old(buf[..at]) + ByteList(spage, Listed(spage, pages)))
    {
      hide Checksum, Byte, ByteList;
      ghost var front := buf[..at];
      var cs := cs0;
      i := at;
      NoByteList(front, spage);
      ListEnd(spage, pages);
      var end := Sum(spage, pages);
      var pgNum := spage;
      while pgNum < end
        invariant spage <= pgNum <= spage + Listed(spage, pages)
        invariant i == at + (pgNum - spage)
        invariant buf[..i] == front + ByteList(spage, pgNum - spage) && cs == Checksum(buf[..i])
      {
        MoreBytes(front, spage, pgNum - spage);
        cs := PutByte(buf, i, Byte(pgNum), cs);
        i := i + 1;
        pgNum := pgNum + 1;
      }
      buf[i] := cs;
      i := i + 1;
      assert buf[..i] == buf[..i - 1] + [cs];
    }

    /** stm32_pages_erase behind the command, for the regular erase command: a batch is erased if
        and only if it has at most 255 pages and its end does not wrap around. */
    method RegularErase(spage: uint32, pages: nat) returns (r: Status)
      requires port.Valid() && port.inbox == [] && port.device.phase == EraseCount
      requires 0 < pages <= BATCH && port.setup.regular
      modifies port
      ensures r == OK ==>
        && pages <= 255 && spage + pages < ADDRESS_SPACE && port.Valid() && port.inbox == []
        && port.device ==
           old(port.device).(phase := Command, erased := old(port.device.erased) + CutRange(false, spage, pages))
      ensures r != OK ==>
        && port.device.mem == old(port.device.mem) && port.device.massErased == old(port.device.massErased)
        && (port.device.erased == old(port.device.erased)
            || port.device.erased == old(port.device.erased) + CutRange(false, spage, pages))
      ensures r == OK || r == UNKNOWN
      ensures port.Calm() ==> (r == OK <==> pages <= 255 && spage + pages < ADDRESS_SPACE)
    {
      hide React, Checksum, Byte, ByteList, CutRange, Closed;
      var buf := new byte[1 + pages + 1];
      ChecksumEmpty();
      assert buf[..0] == [];
      var cs := PutByte(buf, 0, Byte(pages - 1), 0);
      var i := 1;
      ghost var listed := Listed(spage, pages);
      assert buf[..1] == [Byte(pages - 1)];
      if port.setup.countFrame {
        CountChecksum(Byte(pages - 1));
        buf[i] := cs;
        i := i + 1;
        assert buf[..2] == [Byte(pages - 1), Byte(pages - 1)];
        RegularCountTaken(port.setup, port.device, pages);
        r := port.Exchange(buf[..i], 0);
        if r != OK {
          return UNKNOWN;
        }
        cs := 0;
        i := 0;
        assert buf[..0] == [];
        RegularListTaken(port.setup, port.device, if pages < 256 then pages else pages - 256, spage, listed);
        assert [] + ByteList(spage, listed) == ByteList(spage, listed);
      } else {
        RegularTaken(port.setup, port.device, spage, pages, listed);
      }
      i := PutNumbers(buf, i, spage, pages, cs);
      r := port.Exchange(buf[..i], pages * PAGEERASE_TIMEOUT);
      if r != OK {
        return UNKNOWN;
      }
    }

    /** The same for the extended erase command. */
    method ExtendedErase(spage: uint32, pages: nat) returns (r: Status)
      requires port.Valid() && port.inbox == [] && port.device.phase == EraseCount
      requires 0 < pages <= BATCH && !port.setup.regular
      modifies port
      ensures r == OK ==>
        && spage + pages < ADDRESS_SPACE && port.Valid() && port.inbox == []
        && port.device ==
           old(port.device).(phase := Command, erased := old(port.device.erased) + CutRange(true, spage, pages))
      ensures r != OK ==>
        && port.device.mem == old(port.device.mem) && port.device.massErased == old(port.device.massErased)
        && (port.device.erased == old(port.device.erased)
            || port.device.erased == old(port.device.erased) + CutRange(true, spage, pages))
      ensures r == OK || r == UNKNOWN
      ensures port.Calm() ==> (r == OK <==> spage + pages < ADDRESS_SPACE)
    {
      hide React, Checksum, PairBytes, PageList, CutRange;
      var buf := new byte[2 + 2 * pages + 1];
      ChecksumEmpty();
      assert buf[..0] == [];
      var cs := PutPair(buf, 0, pages - 1, 0);
      var i := 2;
      ghost var listed := Listed(spage, pages);
      assert buf[..2] == PairBytes(pages - 1);
      if port.setup.countFrame {
        buf[i] := cs;
        i := i + 1;
        assert buf[..3] == Closed(PairBytes(pages - 1));
        CountTaken(port.setup, port.device, pages);
        r := port.Exchange(buf[..i], 0);
        if r != OK {
          return UNKNOWN;
        }
        cs := 0;
        i := 0;
        assert buf[..0] == [];
        ListTaken(port.setup, port.device, pages, spage, listed);
        assert [] + PageList(spage, listed) == PageList(spage, listed);
      } else {
        EraseTaken(port.setup, port.device, spage, pages, listed);
      }
      i := PutPages(buf, i, spage, pages, cs);
      r := port.Exchange(buf[..i], pages * PAGEERASE_TIMEOUT);
      if r != OK {
        return UNKNOWN;
      }
    }

    /** stm32_pages_erase for one batch. */
    method PagesErase(spage: uint32, pages: nat) returns (r: Status)
      requires Ready() && 0 < pages <= BATCH && port.setup.erase != NONE
      modifies port
      ensures r == OK ==>
        && Ready() && spage + pages < ADDRESS_SPACE
        && port.device == old(port.device).(erased := old(port.device.erased) + Named(port.setup, spage, pages))
      ensures r != OK ==>
        && port.device.mem == old(port.device.mem) && port.device.massErased == old(port.device.massErased)
        && (port.device.erased == old(port.device.erased)
            || port.device.erased == old(port.device.erased) + Named(port.setup, spage, pages))
      ensures r == OK || r == UNKNOWN
      ensures port.Calm() ==> (r == OK <==> spage + pages < ADDRESS_SPACE && (port.setup.regular ==> pages <= 255))
    {
      hide React, CutRange;
      CommandTaken(port.setup, port.device, port.setup.erase);
      r := port.SendCommand(port.setup.erase, 0);
      if r != OK {
        return UNKNOWN;
      }
      if port.setup.regular {
        r := RegularErase(spage, pages);
      } else {
        r := ExtendedErase(spage, pages);
      }
    }

    /** stm32_mass_erase. */
    method MassErase() returns (r: Status)
      requires Ready() && port.setup.erase != NONE
      modifies port
      ensures r == OK ==>
        Ready() && port.device == old(port.device).(massErased := old(port.device.massErased) + 1)
      ensures port.device.erased == old(port.device.erased) && port.device.mem == old(port.device.mem)
      ensures port.Calm() ==> r == OK
    {
      hide React;
      CommandTaken(port.setup, port.device, port.setup.erase);
      r := port.SendCommand(port.setup.erase, 0);
      if r != OK {
        return UNKNOWN;
      }
      if port.setup.regular {
        RegularMassEraseTaken(port.setup, port.device);
        r := port.SendCommand(0xFF, MASSERASE_TIMEOUT);
        return;
      }
      var buf: seq<byte> := [0xFF, 0xFF, 0x00];
      MassEraseTaken(port.setup, port.device);
      r := port.Exchange(buf, MASSERASE_TIMEOUT);
      if r != OK {
        return UNKNOWN;
      }
    }

    /** Of the pages named from spage on, at most `pages`, the first so many have been erased in
        order, and no other. */
    ghost predicate Partly(before: seq<nat>, spage: nat, pages: nat)
      reads this, port
    {
      exists done: nat | done <= pages :: port.device.erased == before + Named(port.setup, spage, done)
    }

    /** The batches of stm32_erase_memory: each page of the range once, in order, and no other, as
        far as page numbers reach; the batch whose end wraps around fails. */
    method EraseBatches(spage0: uint32, pages0: uint32) returns (r: Status)
      requires Ready() && port.setup.erase != NONE
      modifies port
      ensures r == OK ==>
        && Ready() && (pages0 > 0 ==> spage0 + pages0 < ADDRESS_SPACE)
        && port.device == old(port.device).(erased := old(port.device.erased) + Named(port.setup, spage0, pages0))
      ensures port.device.mem == old(port.device.mem) && port.device.massErased == old(port.device.massErased)
      ensures Partly(old(port.device.erased), spage0, pages0)
      ensures port.Calm() ==>
        (r == OK <==>
          (pages0 > 0 ==> spage0 + pages0 < ADDRESS_SPACE) && (port.setup.regular ==> pages0 <= 255))
    {
      hide Named;
      var spage: uint32, pages: uint32 := spage0, pages0;
      ghost var before := port.device.erased;
      NothingNamed(port.setup, before, spage0);
      while pages > 0
        invariant spage0 <= spage && spage + pages == spage0 + pages0
        invariant Ready() && (spage != spage0 ==> pages0 > 0)
        invariant port.Calm() && port.setup.regular && spage != spage0 ==> pages0 <= 255
        invariant port.device == old(port.device).(erased := before + Named(port.setup, spage0, spage - spage0))
      {
        var n := if pages <= BATCH then pages else BATCH;
        MoreNamed(port.setup, before, spage0, spage - spage0, n);
        r := PagesErase(spage, n);
        if r != OK {
          return;
        }
        spage := Sum(spage, n);
        pages := pages - n;
      }
      r := OK;
    }

    /** How many pages stm32_erase_memory sets out to erase one by one. */
    function Count(pages: uint32): uint32 { if pages == 0x10_0000 then allPages else pages }

    /** stm32_erase_memory, for every start and every count: dropped, refused, a mass erase, or the
        pages of the range.  A range whose end wraps around is not always dropped, but never
        reported as erased. */
    method EraseMemory(spage: uint32, pages: uint32) returns (r: Status)
      requires Ready()
      modifies port
      ensures Dropped(spage, pages) ==> r == OK && unchanged(port)
      ensures !Dropped(spage, pages) && port.setup.erase == NONE ==> r == NO_CMD && unchanged(port)
      ensures r == OK && !Dropped(spage, pages) ==>
        && Ready()
        && if pages == 0x10_0000 && !noMassErase then
             port.device == old(port.device).(massErased := old(port.device.massErased) + 1)
           else
             && (Count(pages) > 0 ==> spage + Count(pages) < ADDRESS_SPACE)
             && port.device ==
                old(port.device).(erased := old(port.device.erased) + Named(port.setup, spage, Count(pages)))
      ensures port.device.mem == old(port.device.mem)
      ensures r != OK ==> Partly(old(port.device.erased), spage, Count(pages))
      ensures port.Calm() && !Dropped(spage, pages) ==>
        (r == OK <==>
          && port.setup.erase != NONE
          && ((pages == 0x10_0000 && !noMassErase)
              || ((Count(pages) > 0 ==> spage + Count(pages) < ADDRESS_SPACE)
                  && (port.setup.regular ==> Count(pages) <= 255))))
    {
      hide Named;
      if pages == 0 || spage > MAX_PAGES || (pages != MASS_ERASE && Sum(spage, pages) > MAX_PAGES) {
        return OK;
      }
      NothingNamed(port.setup, port.device.erased, spage);
      if port.setup.erase == NONE {
        return NO_CMD;
      }
      var count := pages;
      if pages == MASS_ERASE {
        if !noMassErase {
          r := MassErase();
          return;
        }
        count := allPages;
      }
      r := EraseBatches(spage, count);
    }
  }

  /** A range that is not dropped, and does not wrap around, is erased as it was meant by the
      extended command. */
  lemma RangeAsMeant(z: Setup, spage: uint32, pages: uint32)
    requires !Dropped(spage, pages) && pages != 0x10_0000
    ensures !z.regular && spage + pages < ADDRESS_SPACE ==> Named(z, spage, pages) == Range(spage, pages)
  {
    NamedAreMeant(z, spage, pages);
  }

  lemma NoPageList(front: seq<byte>, spage: nat)
    ensures front + PageList(spage, 0) == front
  {
  }

  lemma MorePages(front: seq<byte>, spage: nat, n: nat)
    ensures front + PageList(spage, n) + PairBytes(spage + n) == front + PageList(spage, n + 1)
  {
    hide PairBytes;
  }

  lemma NoByteList(front: seq<byte>, spage: nat)
    ensures front + ByteList(spage, 0) == front
  {
  }

  lemma MoreBytes(front: seq<byte>, spage: nat, n: nat)
    ensures front + ByteList(spage, n) + [Byte(spage + n)] == front + ByteList(spage, n + 1)
  {
    hide Byte;
  }

  lemma NothingNamed(z: Setup, before: seq<nat>, spage: nat)
    ensures before + Named(z, spage, 0) == before
  {
  }

  lemma MoreNamed(z: Setup, before: seq<nat>, spage: nat, done: nat, n: nat)
    ensures before + Named(z, spage, done) + Named(z, spage + done, n) == before + Named(z, spage, done + n)
  {
    assert Named(z, spage, done) + Named(z, spage + done, n) == Named(z, spage, done + n);
  }
}

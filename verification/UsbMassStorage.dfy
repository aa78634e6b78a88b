/** The bulk-only transport machine of libopencm3/lib/usb/usb_msc.c, for the commands that do not
    write. */
module UsbMassStorage {
  import opened Arithmetic
  import opened MscProtocol
  import opened MscLayout

  datatype Event = CBW_VALID | NEED_STATUS

  /** Endpoint sizes that take a whole command block wrapper and divide a block. */
  predicate SizeFits(size: nat) {
    size == 32 || size == 64 || size == 128
  }

  predicate OnPacket(n: nat, size: nat)
    requires SizeFits(size)
  {
    n % size == 0
  }

  function BlocksBegun(n: nat): nat { (n + BLOCK - 1) / BLOCK }

  /** Commands whose handlers look at the event. */
  predicate Settled(cb: seq<byte>)
    requires |cb| == 16
  {
    Known(cb) && cb[0] !in {TEST_UNIT_READY, SEND_DIAGNOSTIC}
  }

  lemma ChunkFits(n: nat, size: nat)
    requires SizeFits(size) && OnPacket(n, size)
    ensures n % BLOCK + size <= BLOCK && OnPacket(n + size, size)
  {
    Fits32(n);
    Fits64(n);
    Fits128(n);
  }

  lemma Fits32(n: nat)
    ensures n % 32 == 0 ==> n % 512 + 32 <= 512 && (n + 32) % 32 == 0
  {
    if n % 32 == 0 {
      var k := n / 32;
      assert n == 32 * k && n % 512 == 32 * (k % 16);
    }
  }

  lemma Fits64(n: nat)
    ensures n % 64 == 0 ==> n % 512 + 64 <= 512 && (n + 64) % 64 == 0
  {
    if n % 64 == 0 {
      var k := n / 64;
      assert n == 64 * k && n % 512 == 64 * (k % 8);
    }
  }

  lemma Fits128(n: nat)
    ensures n % 128 == 0 ==> n % 512 + 128 <= 512 && (n + 128) % 128 == 0
  {
    if n % 128 == 0 {
      var k := n / 128;
      assert n == 128 * k && n % 512 == 128 * (k % 4);
    }
  }

  lemma WithinBlock(n: nat, len: nat)
    requires 0 < len && n % BLOCK + len <= BLOCK
    ensures BlocksBegun(n + len) == n / BLOCK + 1
  {
  }

  predicate Whole(packets: seq<seq<byte>>, size: nat) {
    forall i | 0 <= i < |packets| :: |packets[i]| == size
  }

  /** The packets so far and the next one. */
  lemma OnePacketMore(sent: seq<seq<byte>>, reply: seq<byte>, from: nat, to: nat, size: nat)
    requires size > 0 && Chunked(sent, size) && Whole(sent, size) && from < |reply| && Join(sent) == reply[..from]
    requires to == from + Min(size, |reply| - from)
    ensures
      var more := sent + [reply[from..to]];
      Chunked(more, size) && Join(more) == reply[..to] && (to < |reply| ==> Whole(more, size))
  {
    var p := reply[from..to];
    JoinAppend(sent, p);
    assert reply[..to] == reply[..from] + p;
  }

  lemma FrontPart(s: seq<byte>, front: nat, at: nat, n: nat)
    requires at + n <= front <= |s|
    ensures s[..front][at..at + n] == s[at..at + n]
  {
  }

  lemma SettledSense(sense: Sense, cb: seq<byte>)
    requires |cb| == 16
    ensures SenseAfter(SenseAfter(sense, cb), cb) == SenseAfter(sense, cb)
  {
  }

  lemma BlockLeft(unit: Device, sense: Sense, stale: Block, cb: seq<byte>)
    requires |cb| == 16
    ensures
      var wanted := Wanted(cb);
      wanted.count > 0 ==>
        StaleAfter(unit, sense, stale, cb) == BlockAt(unit.disk, wanted.lba, wanted.count - 1)
  {
  }

  lemma UnknownReply(unit: Device, sense: Sense, stale: Block, cb: seq<byte>)
    requires |cb| == 16
    ensures !Known(cb) ==> Reply(unit, sense, stale, cb) == []
  {
  }

  /** A reply without blocks is the front of what its handler leaves in the buffer. */
  lemma ReplyInBuffer(unit: Device, sense: Sense, stale: Block, cb: seq<byte>)
    requires |cb| == 16 && Wanted(cb).count == 0
    ensures
      var reply := Reply(unit, sense, stale, cb);
      |reply| <= BLOCK && StaleAfter(unit, sense, stale, cb)[..|reply|] == reply
  {
    hide SenseData, Capacity, InquiryData;
  }

  /** Characters over the front of a run of spaces make a text field. */
  lemma FieldOverSpaces(before: seq<byte>, after: seq<byte>, at: nat, s: seq<byte>, n: nat)
    requires |before| == |after| && at + n <= |before| && before[at..at + n] == Spaces(n)
    requires var len := Min(|s|, n); after[at..at + len] == s[..len] && after[at + len..] == before[at + len..]
    ensures after[at..at + n] == Field(s, n) && after[at + n..] == before[at + n..]
  {
    var len := Min(|s|, n);
    forall i | 0 <= i < n ensures after[at..at + n][i] == Field(s, n)[i] {
      if i < len {
        assert after[at + i] == after[at..at + len][i];
      } else {
        assert after[at + i] == after[at + len..][i - len] && before[at + i] == before[at..at + n][i];
      }
    }
    assert after[at + n..] == after[at + len..][n - len..] && before[at + n..] == before[at + len..][n - len..];
  }

  class MassStorage {
    // The descriptor set up by usb_msc_init.
    const size: nat                   // ep_out_size
    const unit: Device                // read_block, block_count and the identification strings
    // struct usb_msc_trans
    var cbw: Cbw
    var cbwCnt: nat
    var bytesToWrite: nat
    var byteCount: nat
    var lbaStart: nat
    var blockCount: nat
    var currentBlock: nat
    const msdBuf: array<byte>
    var csw: seq<byte>
    var cswValid: bool
    var cswSent: nat
    var sense: Sense
    // What the outside sees: packets written to the IN endpoint, calls to the storage driver.
    var written: seq<seq<byte>>
    var calls: seq<Call>

    constructor (size: nat, unit: Device)
      requires SizeFits(size)
      ensures Idle() && fresh(msdBuf) && written == [] && calls == [] && sense == GOOD
      ensures this.size == size && this.unit == unit && Handed() == Memory(GOOD, seq(BLOCK, _ => 0))
    {
      this.size := size;
      this.unit := unit;
      cbw := seq(CBW_SIZE, _ => 0);
      cbwCnt := 0;
      bytesToWrite, byteCount := 0, 0;
      lbaStart, blockCount, currentBlock := 0xFFFF_FFFF, 0, 0;
      msdBuf := new byte[512](_ => 0);
      csw := seq(CSW_SIZE, _ => 0);
      cswValid, cswSent := false, 0;
      sense := GOOD;
      written, calls := [], [];
    }

    ghost predicate Valid()
      reads this
    {
      SizeFits(size) && msdBuf.Length == BLOCK && |csw| == CSW_SIZE
    }

    /** The machine as usb_msc_init leaves it, ready for a command. */
    ghost predicate Idle()
      reads this
    {
      && Valid()
      && cbwCnt == 0 && bytesToWrite == 0 && byteCount == 0
      && lbaStart == 0xFFFF_FFFF && blockCount == 0 && currentBlock == 0
      && !cswValid && cswSent == 0
    }

    /** In the data stage of `reply`: byteCount bytes of it are written, the buffer holds the block
        (or the answer) the next byte comes from. */
    ghost predicate Sending(reply: seq<byte>)
      reads this, msdBuf
    {
      && Valid() && cbwCnt == CBW_SIZE && !cswValid && cswSent == 0
      && bytesToWrite == |reply| && byteCount <= |reply|
      && (byteCount < |reply| ==> OnPacket(byteCount, size))
      && lbaStart < TWO_32
      && if blockCount > 0 then
           && reply == Stream(unit.disk, lbaStart, blockCount)
           && currentBlock == BlocksBegun(byteCount)
           && (byteCount > 0 ==> msdBuf[..] == BlockAt(unit.disk, lbaStart, currentBlock - 1))
         else
           |reply| <= BLOCK && msdBuf[..|reply|] == reply && currentBlock == 0
    }

    /** The calls a read makes until n of its blocks are begun. */
    ghost function CallsBegun(): seq<Call>
      reads this
    {
      if blockCount == 0 || currentBlock == 0 then [] else [Lock] + ReadCalls(lbaStart, currentBlock)
    }

    method ScsiRequestSense(event: Event)
      requires Valid()
      modifies `bytesToWrite, msdBuf
      ensures event == CBW_VALID ==>
        bytesToWrite == cbw[19] && msdBuf[..] == SenseData(sense) + old(msdBuf[18..])
      ensures event == NEED_STATUS ==> unchanged(`bytesToWrite, msdBuf)
    {
      if event == CBW_VALID {
        bytesToWrite := cbw[19];
        var data := SenseData(sense);
        forall i | 0 <= i < 18 {
          msdBuf[i] := data[i];
        }
      }
    }

    method ScsiReadCapacity(event: Event)
      requires Valid()
      modifies `bytesToWrite, `sense, msdBuf
      ensures event == CBW_VALID ==>
        bytesToWrite == 8 && msdBuf[..] == Capacity(unit.last) + old(msdBuf[8..]) && sense == GOOD
      ensures event == NEED_STATUS ==> unchanged(`bytesToWrite, `sense, msdBuf)
    {
      if event == CBW_VALID {
        var data := Capacity(unit.last);
        forall i | 0 <= i < 8 {
          msdBuf[i] := data[i];
        }
        bytesToWrite := 8;
        sense := GOOD;
      }
    }

    method ScsiModeSense6(event: Event)
      requires Valid()
      modifies `bytesToWrite, `csw, msdBuf
      ensures event == CBW_VALID ==>
        bytesToWrite == 4 && msdBuf[..] == [3, 0, 0] + old(msdBuf[3..]) && csw == old(csw)[8 := 4]
      ensures event == NEED_STATUS ==> unchanged(`bytesToWrite, `csw, msdBuf)
    {
      if event == CBW_VALID {
        bytesToWrite := 4;
        msdBuf[0] := 3;
        msdBuf[1] := 0;
        msdBuf[2] := 0;
        csw := csw[8 := 4];
      }
    }

    /** memcpy into the block buffer. */
    method Fill(at: nat, s: seq<byte>)
      requires msdBuf.Length == BLOCK && at + |s| <= BLOCK
      modifies msdBuf
      ensures msdBuf[at..at + |s|] == s
      ensures msdBuf[..at] == old(msdBuf[..at]) && msdBuf[at + |s|..] == old(msdBuf[at + |s|..])
    {
      forall i | 0 <= i < |s| {
        msdBuf[at + i] := s[i];
      }
    }

    /** A text over the spaces of the response. */
    method FillField(at: nat, s: seq<byte>, n: nat)
      requires msdBuf.Length == BLOCK && at + n <= BLOCK && msdBuf[at..at + n] == Spaces(n)
      modifies msdBuf
      ensures msdBuf[at..at + n] == Field(s, n)
      ensures msdBuf[..at] == old(msdBuf[..at]) && msdBuf[at + n..] == old(msdBuf[at + n..])
    {
      hide Spaces, Field;
      var len := Min(|s|, n);
      ghost var before := msdBuf[..];
      assert before[at..at + n] == msdBuf[at..at + n];
      Fill(at, s[..len]);
      FieldOverSpaces(before, msdBuf[..], at, s, n);
      assert msdBuf[at..at + n] == msdBuf[..][at..at + n];
    }

    method ScsiInquiry(event: Event)
      requires Valid()
      modifies `bytesToWrite, `sense, `csw, msdBuf
      ensures event == CBW_VALID && PlainInquiry(Command(cbw)) ==>
        && bytesToWrite == 36 && msdBuf[..] == InquiryData(unit) + old(msdBuf[36..])
        && sense == GOOD && csw == old(csw)[8 := 36]
      ensures event == NEED_STATUS || cbw[16] % 2 != 0 ==> unchanged(`bytesToWrite, `sense, `csw, msdBuf)
    {
      hide Spaces, Field;
      if event == CBW_VALID {
        var evpd := cbw[16] % 2;
        if evpd == 0 {
          bytesToWrite := 36;
          SpacesSplit();
          ghost var before := msdBuf[36..];
          ghost var header: seq<byte> := [0x00, 0x80, 0x04, 0x02, 0x20, 0x00, 0x00, 0x00];
          Fill(0, [0x00, 0x80, 0x04, 0x02, 0x20, 0x00, 0x00, 0x00] + Spaces(28));
          ResponseParts(header, Spaces(28), msdBuf[..]);
          assert msdBuf[..8] == header && msdBuf[8..16] == msdBuf[..][8..16] == Spaces(8);
          assert msdBuf[16..32] == msdBuf[..][16..32] && msdBuf[32..36] == msdBuf[..][32..36];
          FillResponse(header);
          ghost var whole := msdBuf[..];
          assert whole == whole[..36] + whole[36..];
          assert whole[..36] == InquiryData(unit) && whole[36..] == before;
          csw := csw[8 := 36];
          sense := GOOD;
        }
      }
    }

    /** The three identification strings. */
    method FillResponse(ghost header: seq<byte>)
      requires msdBuf.Length == BLOCK && |header| == 8 && msdBuf[..8] == header
      requires msdBuf[8..16] == Spaces(8) && msdBuf[16..32] == Spaces(16) && msdBuf[32..36] == Spaces(4)
      modifies msdBuf
      ensures msdBuf[..36] == header + Field(unit.vendor, 8) + Field(unit.product, 16) + Field(unit.revision, 4)
      ensures msdBuf[36..] == old(msdBuf[36..])
    {
      hide Spaces, Field;
      ghost var rest := msdBuf[16..];
      assert rest[..16] == Spaces(16) && rest[16..20] == Spaces(4);
      FillField(8, unit.vendor, 8);
      assert msdBuf[16..32] == rest[..16] && msdBuf[32..36] == rest[16..20];
      ghost var front := header + Field(unit.vendor, 8);
      assert msdBuf[..16] == front;
      FillField(16, unit.product, 16);
      assert msdBuf[32..36] == msdBuf[32..][..4] == rest[16..][..4];
      assert msdBuf[..32] == front + Field(unit.product, 16);
      ghost var more := msdBuf[..32];
      FillField(32, unit.revision, 4);
      assert msdBuf[..36] == more + Field(unit.revision, 4);
    }

    lemma ResponseParts(header: seq<byte>, spaces: seq<byte>, buf: seq<byte>)
      requires |header| == 8 && |spaces| == 28 && |buf| >= 36 && buf[..36] == header + spaces
      ensures buf[..8] == header && buf[8..16] == spaces[..8]
      ensures buf[16..32] == spaces[8..24] && buf[32..36] == spaces[24..]
    {
      assert buf[8..16] == buf[..36][8..16] && buf[16..32] == buf[..36][16..32] && buf[32..36] == buf[..36][32..36];
    }

    lemma SpacesSplit()
      ensures Spaces(28)[..8] == Spaces(8) && Spaces(28)[8..24] == Spaces(16) && Spaces(28)[24..] == Spaces(4)
    {
    }

    method ScsiRead6(event: Event)
      modifies `bytesToWrite, `lbaStart, `blockCount, `currentBlock, `sense
      ensures event == CBW_VALID ==>
        && lbaStart == 0x100 * cbw[17] as int + cbw[18] && blockCount == cbw[19]
        && bytesToWrite == BLOCK * blockCount && currentBlock == 0 && sense == GOOD
        && lbaStart < TWO_32
      ensures event == CBW_VALID && Command(cbw)[0] == READ_6 ==> Extent(lbaStart, blockCount) == Wanted(Command(cbw))
      ensures event == NEED_STATUS ==> unchanged(this)
    {
      if event == CBW_VALID {
        var cb := Command(cbw);
        lbaStart := Be16(cb[2], cb[3]);
        blockCount := cb[4];
        currentBlock := 0;
        bytesToWrite := blockCount * BLOCK;
        sense := GOOD;
      }
    }

    method ScsiRead10(event: Event)
      modifies `bytesToWrite, `lbaStart, `blockCount, `sense
      ensures event == CBW_VALID ==>
        && lbaStart == 0x1_0000 * Be16(cbw[17], cbw[18]) + Be16(cbw[19], cbw[20])
        && blockCount == Be16(cbw[22], cbw[23])
        && bytesToWrite == BLOCK * blockCount && sense == GOOD
        && lbaStart < TWO_32
      ensures event == CBW_VALID && Command(cbw)[0] == READ_10 ==> Extent(lbaStart, blockCount) == Wanted(Command(cbw))
      ensures event == NEED_STATUS ==> unchanged(this)
    {
      if event == CBW_VALID {
        var cb := Command(cbw);
        lbaStart := 0x1_0000 * Be16(cb[2], cb[3]) + Be16(cb[4], cb[5]);
        blockCount := Be16(cb[7], cb[8]);
        bytesToWrite := blockCount * BLOCK;
        sense := GOOD;
      }
    }

    /** scsi_command: sets up the status, the reply and the sense of a command; run again before
        the status is sent, it changes nothing but the sense of commands without data. */
    method ScsiCommand(event: Event)
      requires Valid() && Covered(Command(cbw))
      requires event == NEED_STATUS ==> csw == Csw(cbw) && (!Known(Command(cbw)) ==> bytesToWrite == 0)
      requires event == CBW_VALID ==> currentBlock == 0 && blockCount == 0 && lbaStart < TWO_32
      modifies `bytesToWrite, `byteCount, `lbaStart, `blockCount, `currentBlock, `csw, `cswSent, `sense, msdBuf
      ensures csw == Csw(cbw) && currentBlock == old(currentBlock)
      ensures event == CBW_VALID ==>
        var cb := Command(cbw);
        var reply := Reply(unit, old(sense), old(msdBuf[..]), cb);
        && byteCount == 0 && cswSent == 0 && bytesToWrite == |reply|
        && sense == SenseAfter(old(sense), cb)
        && blockCount == Wanted(cb).count
        && (blockCount > 0 ==> lbaStart == Wanted(cb).lba)
        && lbaStart < TWO_32
        && (blockCount == 0 ==> msdBuf[..] == StaleAfter(unit, old(sense), old(msdBuf[..]), cb))
      ensures event == NEED_STATUS ==>
        && unchanged(`bytesToWrite, `byteCount, `lbaStart, `blockCount, `cswSent, msdBuf)
        && sense == if Settled(Command(cbw)) then old(sense) else SenseAfter(old(sense), Command(cbw))
    {
      hide Stream, BlockAt, InquiryData, SenseData, Capacity, CswOf, Tag;
      var cb := Command(cbw);
      ghost var tag := Tag(cbw);
      CswUpdated(tag, 0, 0, 4);
      CswUpdated(tag, 0, 0, 36);
      CswUpdated(tag, 0, 0, 1);
      CswUpdated(tag, 0, 1, 1);
      assert !Reads(cb) ==> Wanted(cb) == Extent(0, 0);
      hide Be16, Wanted;
      if event == CBW_VALID {
        cswSent := 0;
        csw := CswOf(Tag(cbw), 0, 0);
        bytesToWrite := 0;
        byteCount := 0;
      }
      if cb[0] == TEST_UNIT_READY || cb[0] == SEND_DIAGNOSTIC {
        sense := GOOD;
      } else if cb[0] == REQUEST_SENSE {
        ScsiRequestSense(event);
      } else if cb[0] == MODE_SENSE_6 {
        ScsiModeSense6(event);
      } else if cb[0] == READ_6 {
        ScsiRead6(event);
      } else if cb[0] == INQUIRY {
        ScsiInquiry(event);
      } else if cb[0] == READ_CAPACITY {
        ScsiReadCapacity(event);
      } else if cb[0] == READ_10 {
        ScsiRead10(event);
      } else {
        sense := INVALID_OPCODE;
        bytesToWrite := 0;
        csw := csw[12 := 1];
      }
    }

    method WritePacket(p: seq<byte>)
      modifies `written
      ensures written == old(written) + [p]
    {
      written := written + [p];
    }

    /** The driver's read_block. */
    method ReadBlockInto(lba: nat)
      requires msdBuf.Length == BLOCK
      modifies `calls, msdBuf
      ensures calls == old(calls) + [ReadBlock(lba)]
      ensures msdBuf[..] == unit.disk(lba)
    {
      calls := calls + [ReadBlock(lba)];
      var block := unit.disk(lba);
      forall i | 0 <= i < BLOCK {
        msdBuf[i] := block[i];
      }
    }

    /** Fetches the next block when a packet begins one. */
    method FetchBlock(ghost reply: seq<byte>)
      requires Sending(reply) && byteCount < bytesToWrite
      modifies `currentBlock, `calls, msdBuf
      ensures 0 < blockCount ==>
        currentBlock == byteCount / BLOCK + 1 && msdBuf[..] == BlockAt(unit.disk, lbaStart, byteCount / BLOCK)
      ensures blockCount == 0 ==> unchanged(msdBuf, `currentBlock)
      ensures calls == if 0 < blockCount && byteCount % BLOCK == 0
                       then old(calls) + [ReadBlock((lbaStart + old(currentBlock)) % TWO_32)] else old(calls)
      ensures currentBlock == if 0 < blockCount && byteCount % BLOCK == 0
                       then old(currentBlock) + 1 else old(currentBlock)
    {
      hide Stream;
      if 0 < blockCount {
        if byteCount % BLOCK == 0 {
          ReadBlockInto((lbaStart + currentBlock) % TWO_32);
          currentBlock := currentBlock + 1;
        }
      }
    }

    /** The next packet of the data stage. */
    method SendData(ghost reply: seq<byte>)
      requires Sending(reply) && byteCount < bytesToWrite
      modifies `byteCount, `currentBlock, `calls, `written, msdBuf
      ensures Sending(reply)
      ensures byteCount == old(byteCount) + Min(size, |reply| - old(byteCount))
      ensures written == old(written) + [reply[old(byteCount)..byteCount]]
      ensures calls == if 0 < blockCount && old(byteCount) % BLOCK == 0
                       then old(calls) + [ReadBlock((lbaStart + old(currentBlock)) % TWO_32)] else old(calls)
      ensures currentBlock == if 0 < blockCount && old(byteCount) % BLOCK == 0
                       then old(currentBlock) + 1 else old(currentBlock)
      ensures blockCount == 0 ==> unchanged(msdBuf)
    {
      hide Stream, BlockAt, OnPacket, BlocksBegun;
      FetchBlock(reply);
      var left := bytesToWrite - byteCount;
      var maxLen := Min(size, left);
      var at := byteCount % BLOCK;
      ChunkFits(byteCount, size);
      WithinBlock(byteCount, maxLen);
      NextBytes(reply, maxLen);
      hide *;
      WritePacket(msdBuf[at..at + maxLen]);
      byteCount := byteCount + maxLen;
      StillSending(reply, byteCount - maxLen, maxLen);
    }

    lemma StillSending(reply: seq<byte>, from: nat, n: nat)
      requires Valid() && cbwCnt == CBW_SIZE && !cswValid && cswSent == 0 && bytesToWrite == |reply|
      requires from < |reply| && n == Min(size, |reply| - from) && byteCount == from + n
      requires lbaStart < TWO_32 && OnPacket(from + size, size)
      requires if 0 < blockCount then
          && reply == Stream(unit.disk, lbaStart, blockCount) && currentBlock == BlocksBegun(from + n)
          && currentBlock == from / BLOCK + 1 && msdBuf[..] == BlockAt(unit.disk, lbaStart, from / BLOCK)
        else |reply| <= BLOCK && msdBuf[..|reply|] == reply && currentBlock == 0
      ensures Sending(reply)
    {
      hide Stream, BlockAt, OnPacket, BlocksBegun;
    }

    /** Where the next bytes of the reply are in the buffer. */
    lemma NextBytes(reply: seq<byte>, n: nat)
      requires Valid() && byteCount % BLOCK + n <= BLOCK && byteCount + n <= |reply| && byteCount < |reply|
      requires 0 < blockCount ==>
        && reply == Stream(unit.disk, lbaStart, blockCount)
        && msdBuf[..] == BlockAt(unit.disk, lbaStart, byteCount / BLOCK)
      requires blockCount == 0 ==> |reply| <= BLOCK && msdBuf[..|reply|] == reply
      ensures msdBuf[byteCount % BLOCK..byteCount % BLOCK + n] == reply[byteCount..byteCount + n]
    {
      hide BlockAt;
      var at, i := byteCount % BLOCK, byteCount / BLOCK;
      if 0 < blockCount {
        StreamAt(unit.disk, lbaStart, blockCount, i, at, n);
        assert msdBuf[at..at + n] == msdBuf[..][at..at + n];
      } else {
        assert at == byteCount && msdBuf[..][..|reply|] == reply;
        FrontPart(msdBuf[..], |reply|, at, n);
        assert msdBuf[at..at + n] == msdBuf[..][at..at + n];
      }
    }

    /** The next packet of the status. */
    method SendStatus()
      requires Valid() && cswSent < CSW_SIZE
      modifies `cswSent, `written
      ensures cswSent == old(cswSent) + Min(size, CSW_SIZE - old(cswSent))
      ensures written == old(written) + [csw[old(cswSent)..cswSent]]
    {
      var maxLen := Min(size, CSW_SIZE - cswSent);
      WritePacket(csw[cswSent..cswSent + maxLen]);
      cswSent := cswSent + maxLen;
    }

    /** Command w is in its data stage; `base` are the calls made before it. */
    ghost predicate Busy(w: Cbw, reply: seq<byte>, base: seq<Call>)
      reads this, msdBuf
    {
      && cbw == w && Covered(Command(w)) && csw == Csw(w) && Sending(reply)
      && (Known(Command(w)) || reply == [])
      && SenseAfter(sense, Command(w)) == sense
      && calls == base + CallsBegun()
      && blockCount == Wanted(Command(w)).count && (blockCount > 0 ==> lbaStart == Wanted(Command(w)).lba)
    }

    /** `after` is what the buffer holds in the end: it holds it already, unless blocks are read. */
    ghost predicate Left(w: Cbw, after: Block)
      reads this, msdBuf
    {
      var wanted := Wanted(Command(w));
      if wanted.count > 0 then after == BlockAt(unit.disk, wanted.lba, wanted.count - 1) else msdBuf[..] == after
    }

    /** The status of w is in the IN endpoint and nothing else is left to do. */
    ghost predicate Answered(w: Cbw, base: seq<Call>)
      reads this
    {
      && Valid() && cbw == w && Covered(Command(w)) && cswValid && cswSent == CSW_SIZE
      && byteCount == bytesToWrite && currentBlock == 0 && calls == base + Calls(Command(w))
    }

    /** The end of both callbacks: writes the status unless it is out already. */
    method PutStatus(ghost w: Cbw) returns (sent: bool)
      requires Valid() && cbw == w && Covered(Command(w))
      requires (cswValid && cswSent == CSW_SIZE) || (!cswValid && cswSent == 0)
      requires !cswValid ==>
        && csw == Csw(w) && SenseAfter(sense, Command(w)) == sense && (!Known(Command(w)) ==> bytesToWrite == 0)
      modifies `bytesToWrite, `byteCount, `lbaStart, `blockCount, `currentBlock, `csw, `cswValid, `cswSent,
               `sense, `written, msdBuf
      ensures unchanged(`bytesToWrite, `byteCount, `lbaStart, `blockCount, `currentBlock, `sense, msdBuf)
      ensures Valid() && cswValid && cswSent == CSW_SIZE && sent == !old(cswValid)
      ensures written == if sent then old(written) + [Csw(w)] else old(written)
    {
      hide Stream, Wanted, Known, Csw;
      if !cswValid {
        ScsiCommand(NEED_STATUS);
        cswValid := true;
      }
      sent := cswSent < CSW_SIZE;
      if sent {
        SendStatus();
        assert csw[0..CSW_SIZE] == csw;
      }
    }

    /** The command block wrapper arrives in one packet. */
    method TakeCommand(packet: Cbw)
      requires Idle() && Covered(Command(packet))
      modifies this, msdBuf
      ensures unchanged(`written, `calls)
      ensures Busy(packet, Reply(unit, old(sense), old(msdBuf[..]), Command(packet)), calls)
      ensures sense == SenseAfter(old(sense), Command(packet)) && byteCount == 0
      ensures Left(packet, StaleAfter(unit, old(sense), old(msdBuf[..]), Command(packet)))
    {
      hide Stream, Csw, Covered, Command;
      ghost var reply := Reply(unit, sense, msdBuf[..], Command(packet));
      SettledSense(sense, Command(packet));
      UnknownReply(unit, sense, msdBuf[..], Command(packet));
      assert OnPacket(0, size);
      if Wanted(Command(packet)).count == 0 {
        ReplyInBuffer(unit, sense, msdBuf[..], Command(packet));
      }
      BlockLeft(unit, sense, msdBuf[..], Command(packet));
      hide StaleAfter, Reply, Known, SenseAfter, Wanted, OnPacket, SizeFits;
      var left := CBW_SIZE - cbwCnt;
      if 0 < left {
        var maxLen := Min(size, left);
        var len := Min(maxLen, |packet|);
        assert packet[..len] == packet;
        cbw := cbw[..cbwCnt] + packet[..len] + cbw[cbwCnt + len..];
        assert cbw == packet;
        cbwCnt := cbwCnt + len;
        if cbwCnt == CBW_SIZE {
          ScsiCommand(CBW_VALID);
        }
      }
      assert calls + [] == calls;
    }

    /** The first packet of the data stage; for blocks the lock is taken before it. */
    method FirstData(ghost w: Cbw, ghost reply: seq<byte>, ghost base: seq<Call>)
      requires Busy(w, reply, base) && calls == base && byteCount == 0 < bytesToWrite
      modifies `byteCount, `currentBlock, `calls, `written, msdBuf
      ensures Busy(w, reply, base) && byteCount == Min(size, |reply|)
      ensures written == old(written) + [reply[..byteCount]]
      ensures blockCount == 0 ==> unchanged(msdBuf)
    {
      hide Stream, Wanted, Known, Csw, OnPacket, SizeFits, Command, SenseAfter, Covered;
      if 0 < blockCount && byteCount == 0 {
        calls := calls + [Lock];
      }
      SendData(reply);
      assert reply[0..byteCount] == reply[..byteCount];
    }

    /** msc_data_rx_cb with the host's command in the OUT endpoint: the first packet of the data
        stage, or the status if there is no data. */
    method RxCb(packet: Cbw)
      requires Idle() && Covered(Command(packet))
      modifies this, msdBuf
      ensures
        var reply := Reply(unit, old(sense), old(msdBuf[..]), Command(packet));
        && sense == SenseAfter(old(sense), Command(packet))
        && if reply == [] then Answered(packet, old(calls)) && written == old(written) + [Csw(packet)]
           else
             && Busy(packet, reply, old(calls)) && byteCount == Min(size, |reply|)
             && written == old(written) + [reply[..byteCount]]
      ensures
        var after := StaleAfter(unit, old(sense), old(msdBuf[..]), Command(packet));
        Left(packet, after) && (cswValid ==> msdBuf[..] == after)
    {
      hide Stream, Wanted, Known, Csw, Reply, SenseAfter, Command, Covered, CallsBegun, OnPacket, SizeFits;
      hide StaleAfter, BlockAt;
      ghost var reply := Reply(unit, sense, msdBuf[..], Command(packet));
      TakeCommand(packet);
      if byteCount < bytesToWrite {
        FirstData(packet, reply, calls);
      } else {
        if 0 < blockCount {
          if currentBlock == blockCount {
            // The source writes a block here; no command that reads gets this far.
            assert false;
          }
        }
        var _ := PutStatus(packet);
      }
    }

    /** One more packet of the data stage. */
    method Advance(ghost w: Cbw, ghost reply: seq<byte>, ghost base: seq<Call>)
      requires Busy(w, reply, base) && 0 < byteCount < bytesToWrite
      modifies `byteCount, `currentBlock, `calls, `written, msdBuf
      ensures Busy(w, reply, base)
      ensures byteCount == old(byteCount) + Min(size, |reply| - old(byteCount))
      ensures written == old(written) + [reply[old(byteCount)..byteCount]]
      ensures blockCount == 0 ==> unchanged(msdBuf)
    {
      hide Stream, Wanted, Known, Csw, OnPacket, SizeFits, Command;
      SendData(reply);
    }

    /** At the end of the data stage all blocks are read; releasing the lock completes the calls. */
    method Release(ghost w: Cbw, ghost reply: seq<byte>, ghost base: seq<Call>)
      requires (Busy(w, reply, base) && byteCount == bytesToWrite) || Answered(w, base)
      modifies `currentBlock, `calls
      ensures currentBlock == 0 && calls == base + Calls(Command(w))
    {
      hide Wanted, Known, Csw, OnPacket, SizeFits, Command;
      if 0 < blockCount {
        if currentBlock == blockCount {
          currentBlock := 0;
          calls := calls + [Unlock];
        }
      }
    }

    method EndTransaction()
      requires Valid()
      modifies `cbwCnt, `bytesToWrite, `byteCount, `lbaStart, `blockCount, `currentBlock, `cswValid, `cswSent
      ensures Idle()
    {
      lbaStart, blockCount, currentBlock := 0xFFFF_FFFF, 0, 0;
      cbwCnt := 0;
      bytesToWrite, byteCount := 0, 0;
      cswSent, cswValid := 0, false;
    }

    /** The callback without data left: the status, or back to idle once it is taken. */
    method Finish(ghost w: Cbw, ghost reply: seq<byte>, ghost base: seq<Call>)
      requires (Busy(w, reply, base) && byteCount == bytesToWrite) || Answered(w, base)
      modifies this, msdBuf
      ensures sense == old(sense) && unchanged(msdBuf)
      ensures old(Answered(w, base)) ==> Idle() && written == old(written) && calls == base + Calls(Command(w))
      ensures !old(Answered(w, base)) ==> Answered(w, base) && written == old(written) + [Csw(w)]
    {
      hide Stream, Wanted, Known, Csw, OnPacket, SizeFits, Calls, Covered, Command, ReadCalls, SenseAfter, BlockAt;
      Release(w, reply, base);
      var sent := PutStatus(w);
      if !sent && cswSent == CSW_SIZE {
        EndTransaction();
      }
    }

    /** msc_data_tx_cb, run when the host has taken a packet: more data, then the status, then
        back to idle. */
    method TxCb(ghost w: Cbw, ghost reply: seq<byte>, ghost base: seq<Call>)
      requires (Busy(w, reply, base) && 0 < byteCount) || Answered(w, base)
      modifies this, msdBuf
      ensures sense == old(sense)
      ensures old(Answered(w, base)) ==> Idle() && written == old(written) && calls == base + Calls(Command(w))
      ensures !old(Answered(w, base)) && old(byteCount) < |reply| ==>
        && Busy(w, reply, base) && byteCount == old(byteCount) + Min(size, |reply| - old(byteCount))
        && written == old(written) + [reply[old(byteCount)..byteCount]]
      ensures !old(Answered(w, base)) && old(byteCount) == |reply| ==>
        Answered(w, base) && written == old(written) + [Csw(w)]
      ensures old(cswValid || byteCount == |reply|) || Wanted(Command(w)).count == 0 ==> unchanged(msdBuf)
    {
      hide Stream, Wanted, Known, Csw, OnPacket, SizeFits, Calls, Covered, Command, SenseAfter;
      if byteCount < bytesToWrite {
        Advance(w, reply, base);
      } else {
        Finish(w, reply, base);
      }
    }

    /** A packet of command w waits in the IN endpoint; `sent` are the data packets so far. */
    ghost predicate Waiting(w: Cbw, reply: seq<byte>, base: seq<Call>, before: seq<seq<byte>>, sent: seq<seq<byte>>,
                            after: Block)
      reads this, msdBuf
    {
      Chunked(sent, size) && Left(w, after) &&
      if cswValid then
        && Answered(w, base) && Join(sent) == reply && written == before + sent + [Csw(w)]
        && msdBuf[..] == after
      else
        && Busy(w, reply, base) && 0 < byteCount && Join(sent) == reply[..byteCount] && written == before + sent
        && (byteCount < |reply| ==> Whole(sent, size))
    }

    ghost function Remaining(reply: seq<byte>): nat
      reads this
    {
      if cswValid || byteCount > |reply| then 0 else |reply| - byteCount + 1
    }

    lemma WaitingSize(w: Cbw, reply: seq<byte>, base: seq<Call>, before: seq<seq<byte>>, sent: seq<seq<byte>>,
                      after: Block)
      requires Waiting(w, reply, base, before, sent, after)
      ensures size >= 32 && (!cswValid ==> byteCount <= |reply| && !Answered(w, base))
    {
    }

    lemma StageTells(w: Cbw, reply: seq<byte>, base: seq<Call>)
      ensures (Busy(w, reply, base) ==> !cswValid) && (Answered(w, base) ==> cswValid)
    {
    }

    /** At the end of the data stage the buffer holds what it is to hold. */
    lemma BufferAtEnd(w: Cbw, reply: seq<byte>, base: seq<Call>, after: Block)
      requires Busy(w, reply, base) && 0 < byteCount == |reply| && Left(w, after)
      ensures msdBuf[..] == after
    {
      hide Stream, BlockAt, Known, Csw, Command, SenseAfter, Wanted;
    }

    /** The host takes the packet that waits. */
    method Take(ghost w: Cbw, ghost reply: seq<byte>, ghost base: seq<Call>, ghost before: seq<seq<byte>>,
                ghost sent: seq<seq<byte>>, ghost after: Block) returns (ghost sent': seq<seq<byte>>)
      requires Waiting(w, reply, base, before, sent, after)
      modifies this, msdBuf
      ensures sense == old(sense)
      ensures old(cswValid) ==>
        && Idle() && calls == base + Calls(Command(w)) && written == old(written) && sent' == sent
        && msdBuf[..] == after
      ensures !old(cswValid) ==>
        && Waiting(w, reply, base, before, sent', after) && Remaining(reply) < old(Remaining(reply))
        && |written| == |old(written)| + 1
    {
      hide Stream, Wanted, Known, Csw, OnPacket, SizeFits, Calls, Covered, Command, SenseAfter, Answered, Busy, Idle;
      hide Chunked, Whole, Join, BlockAt, Valid, Sending, CallsBegun, ReadCalls, BlocksBegun;
      WaitingSize(w, reply, base, before, sent, after);
      sent' := sent;
      ghost var from, data := byteCount, !cswValid;
      if data && from == |reply| {
        BufferAtEnd(w, reply, base, after);
      }
      TxCb(w, reply, base);
      StageTells(w, reply, base);
      if data && from < |reply| {
        ghost var p := reply[from..byteCount];
        OnePacketMore(sent, reply, from, byteCount, size);
        sent' := sent + [p];
        assert before + sent + [p] == before + sent';
      } else if data {
        assert reply[..from] == reply;
      }
    }

    ghost predicate Ended(w: Cbw, reply: seq<byte>, before: seq<seq<byte>>, sent: seq<seq<byte>>)
      reads this
    {
      Chunked(sent, size) && Join(sent) == reply && written == before + sent + [Csw(w)]
    }

    lemma WaitingEnds(w: Cbw, reply: seq<byte>, base: seq<Call>, before: seq<seq<byte>>, sent: seq<seq<byte>>,
                      after: Block)
      requires Waiting(w, reply, base, before, sent, after)
      ensures cswValid ==> Ended(w, reply, before, sent)
    {
    }

    lemma EndedData(w: Cbw, reply: seq<byte>, before: seq<seq<byte>>, sent: seq<seq<byte>>)
      requires Ended(w, reply, before, sent)
      ensures |written| > |before| && written[|before|..|written| - 1] == sent && written[|written| - 1] == Csw(w)
      ensures Chunked(sent, size) && Join(sent) == reply
    {
    }

    /** The host sends the command; the device answers with a first packet. */
    method Send(w: Cbw, ghost reply: seq<byte>, ghost after: Block) returns (ghost sent: seq<seq<byte>>)
      requires Idle() && Covered(Command(w)) && reply == Reply(unit, sense, msdBuf[..], Command(w))
      requires after == StaleAfter(unit, sense, msdBuf[..], Command(w))
      modifies this, msdBuf
      ensures Waiting(w, reply, old(calls), old(written), sent, after) && |written| == |old(written)| + 1
      ensures sense == SenseAfter(old(sense), Command(w))
    {
      assert size >= 32;
      hide Stream, Wanted, Known, Csw, OnPacket, SizeFits, Calls, Covered, Command, SenseAfter, Reply, StaleAfter;
      hide BlockAt;
      RxCb(w);
      sent := [];
      if reply != [] {
        JoinAppend(sent, reply[..byteCount]);
        sent := [reply[..byteCount]];
      }
    }

    /** A whole command: the host sends the wrapper and then takes packets until the device has
        none, each taken packet running msc_data_tx_cb. */
    method Transaction(w: Cbw) returns (data: seq<seq<byte>>, status: seq<byte>)
      requires Idle() && Covered(Command(w))
      modifies this, msdBuf
      ensures Idle()
      ensures Chunked(data, size) && Join(data) == Reply(unit, old(sense), old(msdBuf[..]), Command(w))
      ensures status == Csw(w) && StatusFor(w, status) && written == old(written) + data + [status]
      ensures sense == SenseAfter(old(sense), Command(w)) && calls == old(calls) + Calls(Command(w))
      ensures msdBuf[..] == StaleAfter(unit, old(sense), old(msdBuf[..]), Command(w))
    {
      StatusLayout(w);
      var start := |written|;
      ghost var before, base := written, calls;
      ghost var reply := Reply(unit, sense, msdBuf[..], Command(w));
      ghost var after := StaleAfter(unit, sense, msdBuf[..], Command(w));
      hide *;
      ghost var sent := Send(w, reply, after);
      var taken := start;
      while taken < |written|
        invariant start <= taken <= |written| <= taken + 1
        invariant sense == SenseAfter(old(sense), Command(w))
        invariant taken < |written| ==> Waiting(w, reply, base, before, sent, after)
        invariant taken == |written| ==>
          && Idle() && calls == base + Calls(Command(w)) && Ended(w, reply, before, sent)
          && msdBuf[..] == after
        decreases |written| - taken, Remaining(reply)
      {
        WaitingEnds(w, reply, base, before, sent, after);
        taken := taken + 1;
        sent := Take(w, reply, base, before, sent, after);
      }
      EndedData(w, reply, before, sent);
      data, status := written[start..|written| - 1], written[|written| - 1];
    }

    /** What the commands so far have left for the next one. */
    ghost function Handed(): Memory
      requires Valid()
      reads this, msdBuf
    {
      Memory(sense, msdBuf[..])
    }

    /** Any sequence of commands: every command is answered by exactly its data and its status, with
        the sense and the buffer the commands before it left, and nothing else is written; the
        storage driver sees the reads one after the other. */
    method Session(commands: seq<Cbw>) returns (data: seq<seq<seq<byte>>>, status: seq<seq<byte>>)
      requires Idle() && forall w | w in commands :: Covered(Command(w))
      modifies this, msdBuf
      ensures Idle() && AllAnswered(commands, data, status, unit, old(Handed()), size)
      ensures |status| == |commands| && forall i | 0 <= i < |commands| :: StatusFor(commands[i], status[i])
      ensures written == old(written) + Wire(data, status)
      ensures Handed() == HandedOn(unit, old(Handed()), commands)
      ensures calls == old(calls) + AllCalls(commands)
    {
      ghost var m: Memory := Handed();
      ghost var base, before := calls, written;
      hide *;
      data, status := [], [];
      NothingAsked(base, before, unit, m, size);
      ghost var begun := commands[..0];
      for i := 0 to |commands|
        invariant Idle() && Valid() && begun == commands[..i]
        invariant AllAnswered(begun, data, status, unit, m, size) && |data| == |status|
        invariant written == before + Wire(data, status)
        invariant Handed() == HandedOn(unit, m, begun)
        invariant calls == base + AllCalls(begun)
      {
        var d, s := Next(commands[i], HandedOn(unit, m, begun));
        NextAnswer(begun, data, status, commands[i], d, s, unit, m, size);
        NextWire(before, data, status, d, s);
        NextHandedOn(begun, commands[i], unit, m);
        NextCalls(base, begun, commands[i]);
        data, status, begun := data + [d], status + [s], begun + [commands[i]];
      }
      assert begun == commands;
      EachHasItsStatus(commands, data, status, unit, m, size);
    }

    /** One transaction, told in what it finds and what it leaves. */
    method Next(w: Cbw, ghost m: Memory) returns (d: seq<seq<byte>>, s: seq<byte>)
      requires Idle() && Valid() && Covered(Command(w)) && Handed() == m
      modifies this, msdBuf
      ensures Idle() && Valid() && Answers(w, d, s, unit, m, size)
      ensures Handed() == MemoryAfter(unit, m, Command(w))
      ensures written == old(written) + d + [s] && calls == old(calls) + Calls(Command(w))
    {
      hide Reply, SenseAfter, StaleAfter, Csw, Calls, Chunked, Join;
      d, s := Transaction(w);
    }
  }

  /** What a sequence of commands hands on. */
  function HandedOn(d: Device, m: Memory, commands: seq<Cbw>): Memory {
    if commands == [] then m
    else MemoryAfter(d, HandedOn(d, m, commands[..|commands| - 1]), Command(commands[|commands| - 1]))
  }

  /** What the host sees of a command that finds memory m. */
  predicate Answers(w: Cbw, data: seq<seq<byte>>, status: seq<byte>, d: Device, m: Memory, size: nat) {
    status == Csw(w) && Chunked(data, size) && Join(data) == Reply(d, m.sense, m.stale, Command(w))
  }

  predicate AllAnswered(commands: seq<Cbw>, data: seq<seq<seq<byte>>>, status: seq<seq<byte>>,
                        d: Device, m: Memory, size: nat)
  {
    && |data| == |status| == |commands|
    && forall i | 0 <= i < |commands| ::
         Answers(commands[i], data[i], status[i], d, HandedOn(d, m, commands[..i]), size)
  }

  lemma EachHasItsStatus(commands: seq<Cbw>, data: seq<seq<seq<byte>>>, status: seq<seq<byte>>,
                         d: Device, m: Memory, size: nat)
    requires AllAnswered(commands, data, status, d, m, size)
    ensures |status| == |commands| && forall i | 0 <= i < |commands| :: StatusFor(commands[i], status[i])
  {
    hide Csw, Reply, Join, Chunked, HandedOn, StatusFor;
    forall i | 0 <= i < |commands| ensures StatusFor(commands[i], status[i]) {
      StatusLayout(commands[i]);
      assert Answers(commands[i], data[i], status[i], d, HandedOn(d, m, commands[..i]), size);
    }
  }

  /** The packets on the wire: of each command the data, then the status. */
  function Wire(data: seq<seq<seq<byte>>>, status: seq<seq<byte>>): seq<seq<byte>>
    requires |data| == |status|
  {
    if data == [] then []
    else Wire(data[..|data| - 1], status[..|data| - 1]) + data[|data| - 1] + [status[|data| - 1]]
  }

  function AllCalls(commands: seq<Cbw>): seq<Call> {
    if commands == [] then []
    else AllCalls(commands[..|commands| - 1]) + Calls(Command(commands[|commands| - 1]))
  }

  lemma NothingAsked(base: seq<Call>, before: seq<seq<byte>>, d: Device, m: Memory, size: nat)
    ensures AllAnswered([], [], [], d, m, size) && base == base + AllCalls([])
    ensures before == before + Wire([], []) && HandedOn(d, m, []) == m
  {
  }

  /** One more command: the answers so far stay as they are. */
  lemma NextAnswer(commands: seq<Cbw>, data: seq<seq<seq<byte>>>, status: seq<seq<byte>>,
                   w: Cbw, p: seq<seq<byte>>, s: seq<byte>, d: Device, m: Memory, size: nat)
    requires AllAnswered(commands, data, status, d, m, size) && Answers(w, p, s, d, HandedOn(d, m, commands), size)
    ensures AllAnswered(commands + [w], data + [p], status + [s], d, m, size)
  {
    hide Answers, HandedOn;
    var n := |commands|;
    var commands', data', status' := commands + [w], data + [p], status + [s];
    assert commands'[..n] == commands;
    forall i | 0 <= i < n + 1
      ensures Answers(commands'[i], data'[i], status'[i], d, HandedOn(d, m, commands'[..i]), size)
    {
      if i < n {
        assert commands'[..i] == commands[..i];
      }
    }
  }

  lemma NextWire(before: seq<seq<byte>>, data: seq<seq<seq<byte>>>, status: seq<seq<byte>>,
                 p: seq<seq<byte>>, s: seq<byte>)
    requires |data| == |status|
    ensures before + Wire(data, status) + p + [s] == before + Wire(data + [p], status + [s])
  {
    assert (data + [p])[..|data|] == data && (status + [s])[..|data|] == status;
    assert Wire(data + [p], status + [s]) == Wire(data, status) + p + [s];
  }

  lemma NextHandedOn(commands: seq<Cbw>, w: Cbw, d: Device, m: Memory)
    ensures MemoryAfter(d, HandedOn(d, m, commands), Command(w)) == HandedOn(d, m, commands + [w])
  {
    hide MemoryAfter;
    assert (commands + [w])[..|commands|] == commands;
  }

  lemma NextCalls(base: seq<Call>, commands: seq<Cbw>, w: Cbw)
    ensures base + AllCalls(commands) + Calls(Command(w)) == base + AllCalls(commands + [w])
  {
    hide Calls;
    assert (commands + [w])[..|commands|] == commands;
  }

  /** A host that wants m blocks takes the data of a read of `count` blocks, neither more nor
      less, and finds the status behind it, exactly when m is count. */
  lemma ReadInStep(data: seq<seq<byte>>, status: seq<byte>, size: nat, count: nat, m: nat)
    requires SizeFits(size) && Chunked(data, size) && |Join(data)| == BLOCK * count && |status| == CSW_SIZE
    ensures HostTakes(data + [status], size, BLOCK * m) == |data| <==> m == count
  {
    HostInStep(data, status, size, BLOCK * m);
    hide HostTakes, Join;
    if data != [] {
      LastIsShort(data, size);
      BlocksAreFull(size, count);
    } else {
      JoinNothing();
    }
  }

  lemma JoinNothing()
    ensures Join([]) == []
  {
  }

  lemma BlocksAreFull(size: nat, count: nat)
    requires SizeFits(size) && size > 0
    ensures BLOCK * count % size == 0
  {
    if size == 32 {
      assert BLOCK * count == 32 * (16 * count);
    } else if size == 64 {
      assert BLOCK * count == 64 * (8 * count);
    } else {
      assert BLOCK * count == 128 * (4 * count);
    }
  }

  /** So a host that follows SBC stays in step through a read exactly when the command does not
      use the zero length of READ(6). */
  lemma StandardHostInStep(w: Cbw, data: seq<seq<byte>>, size: nat, d: Device, m: Memory)
    requires SizeFits(size) && Reads(Command(w)) && Answers(w, data, Csw(w), d, m, size)
    ensures
      (HostTakes(data + [Csw(w)], size, BLOCK * Required(Command(w)).count) == |data|) <==>
      (Command(w)[0] == READ_6 ==> Command(w)[4] != 0)
  {
    ReadInStep(data, Csw(w), size, Wanted(Command(w)).count, Required(Command(w)).count);
  }
}

/** What the host reads off the wire, byte by byte: the layouts of sections 5.1 and 5.2 of the USB
    Mass Storage Class Bulk-Only Transport 1.0 and of the SPC-3 and SBC-2 replies, in the bytes of
    the wrapper and of the answer alone. */
module MscLayout {
  import opened MscProtocol

  /** A status that belongs to wrapper w and says whether its command is one of the eight known. */
  predicate StatusFor(w: Cbw, s: seq<byte>) {
    && |s| == 13
    && s[0] == 0x55 && s[1] == 0x53 && s[2] == 0x42 && s[3] == 0x53
    && s[4] == w[4] && s[5] == w[5] && s[6] == w[6] && s[7] == w[7]
    && s[12] == if w[15] in {0x00, 0x03, 0x08, 0x12, 0x1A, 0x1D, 0x25, 0x28} then 0 else 1
  }

  /** The residue is in bytes 8 to 11, least significant first. */
  lemma StatusLayout(w: Cbw)
    ensures StatusFor(w, Csw(w))
    ensures Csw(w)[8] == (if w[15] == 0x12 && w[16] % 2 == 0 then 36 else if w[15] == 0x1A then 4 else 0)
    ensures Csw(w)[9] == Csw(w)[10] == Csw(w)[11] == 0
  {
  }

  /** Byte j of block i of a read is byte j of block lba + i of the storage. */
  ghost predicate BlocksFrom(disk: Disk, lba: nat, count: nat, s: seq<byte>) {
    && |s| == 512 * count
    && forall i, j | 0 <= i < count && 0 <= j < 512 :: ByteOf(s, i, j) == disk((lba + i) % 0x1_0000_0000)[j]
  }

  function ByteOf(s: seq<byte>, i: nat, j: nat): int { if 512 * i + j < |s| then s[512 * i + j] else -1 }

  lemma StreamBlocks(disk: Disk, lba: nat, count: nat)
    ensures BlocksFrom(disk, lba, count, Stream(disk, lba, count))
  {
    hide Stream;
    var s := Stream(disk, lba, count);
    forall i, j | 0 <= i < count && 0 <= j < 512 ensures ByteOf(s, i, j) == disk((lba + i) % 0x1_0000_0000)[j] {
      InsideBlock(i, count, j);
      StreamAt(disk, lba, count, i, j, 1);
      assert s[512 * i + j..512 * i + j + 1][0] == s[512 * i + j];
      assert BlockAt(disk, lba, i)[j..j + 1][0] == BlockAt(disk, lba, i)[j];
    }
  }

  lemma InsideBlock(i: nat, count: nat, j: nat)
    requires i < count && j < 512
    ensures 512 * i + j < 512 * count
  {
  }

  /** READ(10): four bytes of address and two of count, most significant first. */
  lemma Read10Layout(d: Device, sense: Sense, stale: Block, w: Cbw)
    requires w[15] == 0x28
    ensures
      var lba := 0x100_0000 * (w[17] as int) + 0x1_0000 * (w[18] as int) + 0x100 * (w[19] as int) + (w[20] as int);
      BlocksFrom(d.disk, lba, 0x100 * (w[22] as int) + (w[23] as int), Reply(d, sense, stale, Command(w)))
  {
    var wanted := Wanted(Command(w));
    StreamBlocks(d.disk, wanted.lba, wanted.count);
  }

  /** READ(6): two bytes of address and one of count. */
  lemma Read6Layout(d: Device, sense: Sense, stale: Block, w: Cbw)
    requires w[15] == 0x08
    ensures BlocksFrom(d.disk, 0x100 * (w[17] as int) + (w[18] as int), w[19], Reply(d, sense, stale, Command(w)))
  {
    var wanted := Wanted(Command(w));
    StreamBlocks(d.disk, wanted.lba, wanted.count);
  }

  /** The calls a read makes: the lock, every block once in ascending order, and the unlock. */
  predicate CallsAround(c: seq<Call>, lba: nat, count: nat) {
    if count == 0 then c == []
    else
      && |c| == count + 2 && c[0] == Lock && c[count + 1] == Unlock
      && forall i | 0 < i <= count :: c[i] == ReadBlock((lba + i - 1) % 0x1_0000_0000)
  }

  /** READ(10) and READ(6) make these calls for the address and count above, other commands none. */
  lemma CallsLayout(w: Cbw)
    ensures
      var lba := if w[15] == 0x28 then Be32(w[17], w[18], w[19], w[20]) else 0x100 * (w[17] as int) + (w[18] as int);
      var count :=
        if w[15] == 0x28 then 0x100 * (w[22] as int) + (w[23] as int) else if w[15] == 0x08 then w[19] else 0;
      CallsAround(Calls(Command(w)), lba, count)
  {
    hide CallsAround;
    var wanted := Wanted(Command(w));
    CallsInOrder(wanted.lba, wanted.count);
    NoCalls();
  }

  lemma NoCalls()
    ensures forall lba :: CallsAround([], lba, 0)
  {
  }

  lemma CallsInOrder(lba: nat, count: nat)
    ensures count > 0 ==> CallsAround([Lock] + ReadCalls(lba, count) + [Unlock], lba, count)
  {
    ReadCallsAt(lba, count);
  }

  lemma {:induction false} ReadCallsAt(lba: nat, count: nat)
    ensures forall i | 0 <= i < count :: ReadCalls(lba, count)[i] == ReadBlock((lba + i) % 0x1_0000_0000)
  {
    if count > 0 {
      ReadCallsAt(lba, count - 1);
    }
  }

  function Be32(a: byte, b: byte, c: byte, d: byte): int {
    0x100_0000 * (a as int) + 0x1_0000 * (b as int) + 0x100 * (c as int) + (d as int)
  }

  /** READ CAPACITY: the last block and the block length. */
  lemma CapacityLayout(d: Device, sense: Sense, stale: Block, w: Cbw)
    requires w[15] == 0x25 && d.last < 0x1_0000_0000
    ensures var r := Reply(d, sense, stale, Command(w));
      && |r| == 8
      && Be32(r[0], r[1], r[2], r[3]) == d.last
      && Be32(r[4], r[5], r[6], r[7]) == 512
  {
    Digits(d.last);
  }

  lemma Digits(n: nat)
    requires n < 0x1_0000_0000
    ensures 0x100_0000 * (n / 0x100_0000 % 0x100) + 0x1_0000 * (n / 0x1_0000 % 0x100) + 0x100 * (n / 0x100 % 0x100)
            + n % 0x100 == n
  {
    var b := n / 0x100;
    var c := b / 0x100;
    assert n / 0x1_0000 == c && n / 0x100_0000 == c / 0x100 && c / 0x100 < 0x100;
  }

  /** The i-th character of a text field: blank behind the end of the text. */
  function CharOf(text: seq<byte>, i: nat): byte { if i < |text| then text[i] else 0x20 }

  /** INQUIRY: a removable disk, response data format 2, and the three texts in their places.  The
      additional length is one more than the 31 bytes behind it. */
  lemma InquiryLayout(d: Device, sense: Sense, stale: Block, w: Cbw)
    requires w[15] == 0x12 && w[16] % 2 == 0
    ensures var r := Reply(d, sense, stale, Command(w));
      && |r| == 36
      && r[0] == 0x00 && r[1] == 0x80 && r[2] == 0x04 && r[3] == 0x02 && r[5] == r[6] == r[7] == 0
      && r[4] as int == (|r| - 5) + 1
      && (forall i | 0 <= i < 8 :: r[8 + i] == CharOf(d.vendor, i))
      && (forall i | 0 <= i < 16 :: r[16 + i] == CharOf(d.product, i))
      && (forall i | 0 <= i < 4 :: r[32 + i] == CharOf(d.revision, i))
  {
    FieldChars(d.vendor, 8);
    FieldChars(d.product, 16);
    FieldChars(d.revision, 4);
    hide Field;
  }

  lemma FieldChars(text: seq<byte>, n: nat)
    ensures |Field(text, n)| == n && forall i | 0 <= i < n :: Field(text, n)[i] == CharOf(text, i)
  {
  }

  /** REQUEST SENSE: fixed format, sense key in byte 2, code and qualifier in bytes 12 and 13; cut
      to the allocation length. */
  lemma SenseLayout(d: Device, sense: Sense, stale: Block, w: Cbw)
    requires w[15] == 0x03
    ensures var r := Reply(d, sense, stale, Command(w));
      && |r| == w[19]
      && forall i | 0 <= i < |r| && i < 18 ::
           r[i] == if i == 0 then 0x70 else if i == 2 then sense.key else if i == 7 then 10
                   else if i == 12 then sense.asc else if i == 13 then sense.ascq else 0
  {
  }

  /** What a sense request behind a command reports: the command passed, was unknown, or left the
      sense as it was. */
  lemma SenseKept(sense: Sense, w: Cbw)
    ensures SenseAfter(sense, Command(w)) ==
      if w[15] in {0x03, 0x1A} || (w[15] == 0x12 && w[16] % 2 == 1) then sense
      else if w[15] in {0x00, 0x08, 0x12, 0x1D, 0x25, 0x28} then Sense(0, 0, 0)
      else Sense(5, 0x20, 0)
    ensures Covered(Command(w)) <==> w[15] !in {0x04, 0x0A, 0x2A}
  {
  }
}

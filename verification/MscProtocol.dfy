/** What a mass storage command asks for and what the host makes of the answer: the vocabulary
    of sections 5 and 6 of the USB Mass Storage Class Bulk-Only Transport 1.0, for the commands
    of libopencm3/lib/usb/usb_msc.c that read. */
module MscProtocol {

  type byte = b: int | 0 <= b < 256 witness 0

  const BLOCK: nat := 512
  const TWO_32: nat := 0x1_0000_0000

  function Be16(hi: byte, lo: byte): (n: nat)
    ensures n < 0x1_0000
  {
    0x100 * (hi as int) + lo
  }

  type Block = s: seq<byte> | |s| == BLOCK witness seq(BLOCK, _ => 0)

  /** What read_block leaves in the buffer, whatever it returns: its result is ignored. */
  type Disk = nat -> Block

  /** What usb_msc_init is told: the storage, its last block, and the strings for INQUIRY. */
  datatype Device = Device(disk: Disk, last: nat, vendor: seq<byte>, product: seq<byte>, revision: seq<byte>)

  datatype Sense = Sense(key: byte, asc: byte, ascq: byte)

  const GOOD := Sense(0x00, 0x00, 0x00)
  const INVALID_OPCODE := Sense(0x05, 0x20, 0x00)

  const TEST_UNIT_READY: byte := 0x00
  const REQUEST_SENSE: byte := 0x03
  const FORMAT_UNIT: byte := 0x04
  const READ_6: byte := 0x08
  const WRITE_6: byte := 0x0A
  const INQUIRY: byte := 0x12
  const MODE_SENSE_6: byte := 0x1A
  const SEND_DIAGNOSTIC: byte := 0x1D
  const READ_CAPACITY: byte := 0x25
  const READ_10: byte := 0x28
  const WRITE_10: byte := 0x2A

  // ---------- Commands ----------

  /** A command block wrapper: 15 bytes of header, then the 16 bytes of the command. */
  const CBW_SIZE: nat := 31
  const CSW_SIZE: nat := 13

  type Cbw = s: seq<byte> | |s| == CBW_SIZE witness seq(CBW_SIZE, _ => 0)

  function Tag(w: Cbw): (t: seq<byte>)
    ensures |t| == 4
  {
    w[4..8]
  }

  function Command(w: Cbw): (cb: seq<byte>)
    ensures |cb| == 16
  {
    w[15..]
  }

  /** Not one of the commands that write. */
  predicate Covered(cb: seq<byte>)
    requires |cb| == 16
  {
    cb[0] !in {FORMAT_UNIT, WRITE_6, WRITE_10}
  }

  predicate Known(cb: seq<byte>)
    requires |cb| == 16
  {
    cb[0] in {TEST_UNIT_READY, SEND_DIAGNOSTIC, REQUEST_SENSE, MODE_SENSE_6, INQUIRY, READ_6, READ_CAPACITY, READ_10}
  }

  predicate Reads(cb: seq<byte>)
    requires |cb| == 16
  {
    cb[0] in {READ_6, READ_10}
  }

  datatype Extent = Extent(lba: nat, count: nat)

  /** The blocks scsi_read_6 and scsi_read_10 set out to read. */
  function Wanted(cb: seq<byte>): Extent
    requires |cb| == 16
  {
    if cb[0] == READ_6 then Extent(Be16(cb[2], cb[3]), cb[4])
    else if cb[0] == READ_10 then
      Extent(0x1_0000 * Be16(cb[2], cb[3]) + Be16(cb[4], cb[5]), Be16(cb[7], cb[8]))
    else Extent(0, 0)
  }

  /** The blocks sections 5.9 and 5.10 of SBC-2 ask for: in READ(6) the low five bits of byte 1
      belong to the address, and a length of zero means 256 blocks. */
  function Required(cb: seq<byte>): Extent
    requires |cb| == 16
  {
    if cb[0] == READ_6 then
      Extent(0x1_0000 * (cb[1] as int % 32) + 0x100 * (cb[2] as int) + (cb[3] as int),
             if cb[4] == 0 then 256 else cb[4])
    else if cb[0] == READ_10 then
      Extent(0x100_0000 * (cb[2] as int) + 0x1_0000 * (cb[3] as int) + 0x100 * (cb[4] as int) + (cb[5] as int),
             0x100 * (cb[7] as int) + (cb[8] as int))
    else Extent(0, 0)
  }

  /** The host is told what it asked for exactly when a READ(6) stays below block 65536 and does
      not use the zero length; READ(10) is always met. */
  lemma ReadsMeetStandard(cb: seq<byte>)
    requires |cb| == 16 && Reads(cb)
    ensures Wanted(cb) == Required(cb) <==> (cb[0] == READ_6 ==> cb[1] % 32 == 0 && cb[4] != 0)
  {
  }

  // ---------- Answers ----------

  /** Block i of a run that starts at lba; block numbers are 32 bits wide. */
  function BlockAt(disk: Disk, lba: nat, i: nat): Block { disk((lba + i) % TWO_32) }

  function Stream(disk: Disk, lba: nat, count: nat): (s: seq<byte>)
    ensures |s| == BLOCK * count
  {
    if count == 0 then [] else Stream(disk, lba, count - 1) + BlockAt(disk, lba, count - 1)
  }

  function SenseData(s: Sense): (d: seq<byte>)
    ensures |d| == 18
  {
    [0x70, 0, s.key, 0, 0, 0, 0, 0x0a, 0, 0, 0, 0, s.asc, s.ascq, 0, 0, 0, 0]
  }

  function Capacity(last: nat): (d: seq<byte>)
    ensures |d| == 8
  {
    [last / 0x100_0000 % 0x100, last / 0x1_0000 % 0x100, last / 0x100 % 0x100, last % 0x100, 0, 0, 2, 0]
  }

  function Spaces(n: nat): (s: seq<byte>)
    ensures |s| == n
  {
    seq(n, _ => 0x20)
  }

  /** A text field: cut to n characters, filled up with spaces. */
  function Field(s: seq<byte>, n: nat): (f: seq<byte>)
    ensures |f| == n
  {
    if |s| >= n then s[..n] else s + Spaces(n - |s|)
  }

  function InquiryData(d: Device): (r: seq<byte>)
    ensures |r| == 36
  {
    [0x00, 0x80, 0x04, 0x02, 0x20, 0x00, 0x00, 0x00] + Field(d.vendor, 8) + Field(d.product, 16) + Field(d.revision, 4)
  }

  /** The standard data, as opposed to a page of vital product data. */
  predicate PlainInquiry(cb: seq<byte>)
    requires |cb| == 16
  {
    cb[0] == INQUIRY && cb[1] % 2 == 0
  }

  /** The bytes of the data stage; `stale` is what the block buffer held before. */
  function Reply(d: Device, sense: Sense, stale: Block, cb: seq<byte>): (r: seq<byte>)
    requires |cb| == 16
    ensures Wanted(cb).count > 0 ==> r == Stream(d.disk, Wanted(cb).lba, Wanted(cb).count)
    ensures Wanted(cb).count == 0 ==> |r| <= BLOCK
  {
    if Reads(cb) then Stream(d.disk, Wanted(cb).lba, Wanted(cb).count)
    else if cb[0] == REQUEST_SENSE then (SenseData(sense) + stale[18..])[..cb[4]]
    else if cb[0] == READ_CAPACITY then Capacity(d.last)
    else if PlainInquiry(cb) then InquiryData(d)
    else if cb[0] == MODE_SENSE_6 then [3, 0, 0, stale[3]]
    else []
  }

  /** dCSWDataResidue as the handlers leave it. */
  function Residue(cb: seq<byte>): byte
    requires |cb| == 16
  {
    if PlainInquiry(cb) then 36 else if cb[0] == MODE_SENSE_6 then 4 else 0
  }

  function SenseAfter(sense: Sense, cb: seq<byte>): Sense
    requires |cb| == 16
  {
    if cb[0] == REQUEST_SENSE || cb[0] == MODE_SENSE_6 || (cb[0] == INQUIRY && !PlainInquiry(cb)) then sense
    else if Known(cb) then GOOD
    else INVALID_OPCODE
  }

  /** What the handler of a command without blocks writes to the front of the block buffer. */
  function Front(d: Device, sense: Sense, cb: seq<byte>): (f: seq<byte>)
    requires |cb| == 16
    ensures |f| <= 36
  {
    if cb[0] == REQUEST_SENSE then SenseData(sense)
    else if cb[0] == READ_CAPACITY then Capacity(d.last)
    else if PlainInquiry(cb) then InquiryData(d)
    else if cb[0] == MODE_SENSE_6 then [3, 0, 0]
    else []
  }

  /** What a command leaves in the block buffer: the last block read, or the answer over what was
      there before. */
  function StaleAfter(d: Device, sense: Sense, stale: Block, cb: seq<byte>): Block
    requires |cb| == 16
  {
    var wanted := Wanted(cb);
    if wanted.count > 0 then BlockAt(d.disk, wanted.lba, wanted.count - 1)
    else Front(d, sense, cb) + stale[|Front(d, sense, cb)|..]
  }

  /** What one command hands on to the next. */
  datatype Memory = Memory(sense: Sense, stale: Block)

  function MemoryAfter(d: Device, m: Memory, cb: seq<byte>): Memory
    requires |cb| == 16
  {
    Memory(SenseAfter(m.sense, cb), StaleAfter(d, m.sense, m.stale, cb))
  }

  /** "USBS", the tag of the command, the residue, and whether the command passed. */
  function Csw(w: Cbw): (s: seq<byte>)
    ensures |s| == CSW_SIZE
  {
    CswOf(Tag(w), Residue(Command(w)), if Known(Command(w)) then 0 else 1)
  }

  function CswOf(tag: seq<byte>, residue: byte, status: byte): (s: seq<byte>)
    requires |tag| == 4
    ensures |s| == CSW_SIZE
  {
    [0x55, 0x53, 0x42, 0x53] + tag + [residue, 0, 0, 0] + [status]
  }

  /** The places of residue and status. */
  lemma CswUpdated(tag: seq<byte>, residue: byte, status: byte, n: byte)
    requires |tag| == 4
    ensures CswOf(tag, residue, status)[8 := n] == CswOf(tag, n, status)
    ensures CswOf(tag, residue, status)[12 := n] == CswOf(tag, residue, n)
  {
  }

  function Le32(s: seq<byte>): nat
    requires |s| == 4
  {
    (s[0] as int) + 0x100 * (s[1] as int) + 0x1_0000 * (s[2] as int) + 0x100_0000 * (s[3] as int)
  }

  /** dCBWDataTransferLength: how many bytes the host has made room for. */
  function TransferLength(w: Cbw): nat { Le32(w[8..12]) }

  function ResidueField(w: Cbw): nat { Le32(Csw(w)[8..12]) }

  lemma ResidueFieldIs(w: Cbw)
    ensures ResidueField(w) == Residue(Command(w))
  {
    assert Csw(w)[8..12] == [Residue(Command(w)), 0, 0, 0];
  }

  lemma ReplyLength(d: Device, sense: Sense, stale: Block, cb: seq<byte>)
    requires |cb| == 16
    ensures |Reply(d, sense, stale, cb)| ==
            if Reads(cb) then BLOCK * Wanted(cb).count
            else if cb[0] == REQUEST_SENSE then cb[4]
            else if cb[0] == READ_CAPACITY then 8
            else if PlainInquiry(cb) then 36
            else if cb[0] == MODE_SENSE_6 then 4
            else 0
  {
  }

  /** The one transfer length for which the residue of a command is right: the length of the reply
      where the handler leaves the residue alone, twice that for INQUIRY and MODE SENSE. */
  function HonestLength(cb: seq<byte>): nat
    requires |cb| == 16
  {
    if PlainInquiry(cb) then 72
    else if cb[0] == MODE_SENSE_6 then 8
    else if Reads(cb) then BLOCK * Wanted(cb).count
    else if cb[0] == REQUEST_SENSE then cb[4]
    else if cb[0] == READ_CAPACITY then 8
    else 0
  }

  /** The residue is to be what the host made room for and did not get (section 5.2 of the
      bulk-only transport). */
  lemma ResidueMeetsStandard(d: Device, sense: Sense, stale: Block, w: Cbw)
    requires Covered(Command(w))
    ensures
      ResidueField(w) == TransferLength(w) - |Reply(d, sense, stale, Command(w))| <==>
      TransferLength(w) == HonestLength(Command(w))
  {
    hide Csw, Reply, Stream;
    ResidueFieldIs(w);
    ReplyLength(d, sense, stale, Command(w));
  }

  /** So a host that asks for exactly the reply is told the truth unless it sent one of the two. */
  lemma ExactHostToldTruth(d: Device, sense: Sense, stale: Block, w: Cbw)
    requires Covered(Command(w)) && |Reply(d, sense, stale, Command(w))| == TransferLength(w)
    ensures ResidueField(w) == 0 <==> !PlainInquiry(Command(w)) && Command(w)[0] != MODE_SENSE_6
  {
    hide Csw, Reply, Stream;
    ReplyLength(d, sense, stale, Command(w));
    ResidueMeetsStandard(d, sense, stale, w);
  }

  /** From a clean state: an unknown command is failed, and a sense request behind it says why; no
      other command leaves such a sense. */
  lemma SenseExplainsFailure(d: Device, stale: Block, w: Cbw, request: seq<byte>)
    requires |request| == 16 && request[0] == REQUEST_SENSE && request[4] >= 14
    ensures
      var answer := Reply(d, SenseAfter(GOOD, Command(w)), stale, request);
      Csw(w)[12] != 0 <==> answer[2] == 0x05 && answer[12] == 0x20
  {
  }

  // ---------- Calls to the storage driver ----------

  datatype Call = Lock | ReadBlock(lba: nat) | WriteBlock(lba: nat) | Unlock

  function ReadCalls(lba: nat, count: nat): (s: seq<Call>)
    ensures |s| == count
  {
    if count == 0 then [] else ReadCalls(lba, count - 1) + [ReadBlock((lba + count - 1) % TWO_32)]
  }

  /** A read holds the lock around its blocks, each read once and in order. */
  function Calls(cb: seq<byte>): seq<Call>
    requires |cb| == 16
  {
    var wanted := Wanted(cb);
    if wanted.count == 0 then [] else [Lock] + ReadCalls(wanted.lba, wanted.count) + [Unlock]
  }

  // ---------- The host ----------

  function Join(packets: seq<seq<byte>>): seq<byte> {
    if packets == [] then [] else Join(packets[..|packets| - 1]) + packets[|packets| - 1]
  }

  /** Full packets, of which only the last may be shorter, and none is empty. */
  predicate Chunked(packets: seq<seq<byte>>, size: nat) {
    && (forall i | 0 <= i < |packets| :: 0 < |packets[i]| <= size)
    && (forall i | 0 <= i < |packets| - 1 :: |packets[i]| == size)
  }

  /** How many packets a host that wants n bytes takes for the data stage: it stops at a short
      packet or when it has n bytes. */
  function HostTakes(packets: seq<seq<byte>>, size: nat, n: int): (k: nat)
    ensures k <= |packets|
  {
    if n <= 0 || packets == [] then 0
    else if |packets[0]| < size then 1
    else 1 + HostTakes(packets[1..], size, n - |packets[0]|)
  }

  lemma {:induction false} JoinFront(packets: seq<seq<byte>>)
    requires packets != []
    ensures Join(packets) == packets[0] + Join(packets[1..])
  {
    if |packets| > 1 {
      var front := packets[..|packets| - 1];
      JoinFront(front);
      assert packets[1..][..|packets| - 2] == front[1..];
    }
  }

  lemma JoinAppend(packets: seq<seq<byte>>, p: seq<byte>)
    ensures Join(packets + [p]) == Join(packets) + p
  {
    assert (packets + [p])[..|packets|] == packets;
  }

  /** The host that wants n bytes takes all data packets and leaves the status packet exactly when
      n is the length of the reply, or exceeds it where a short packet ends the data stage. */
  lemma {:induction false} HostInStep(packets: seq<seq<byte>>, status: seq<byte>, size: nat, n: int)
    requires size > 0 && Chunked(packets, size) && 0 < |status| < size
    ensures
      var short := packets != [] && |packets[|packets| - 1]| < size;
      (HostTakes(packets + [status], size, n) == |packets|) <==>
      (if packets == [] then n <= 0
       else if short then n > |Join(packets)| - |packets[|packets| - 1]|
       else |Join(packets)| - size < n <= |Join(packets)|)
  {
    if packets == [] {
      assert packets + [status] == [status];
    } else {
      JoinFront(packets);
      var rest := packets[1..];
      assert (packets + [status])[1..] == rest + [status];
      if rest != [] {
        JoinFront(rest);
        assert rest[|rest| - 1] == packets[|packets| - 1];
        HostInStep(rest, status, size, n - |packets[0]|);
      } else {
        assert packets == [packets[0]] && Join(rest) == [];
        HostInStep(rest, status, size, n - |packets[0]|);
      }
    }
  }

  /** The last packet is short unless the packets are all full. */
  lemma {:induction false} LastIsShort(packets: seq<seq<byte>>, size: nat)
    requires size > 0 && Chunked(packets, size) && packets != []
    ensures |packets[|packets| - 1]| < size <==> |Join(packets)| % size != 0
    ensures |Join(packets)| % size == |packets[|packets| - 1]| % size
  {
    JoinFront(packets);
    var rest := packets[1..];
    if rest == [] {
      assert packets == [packets[0]] && Join(rest) == [];
      assert packets[0] + [] == packets[0];
    } else {
      assert rest[|rest| - 1] == packets[|packets| - 1];
      LastIsShort(rest, size);
      FullPacket(|Join(rest)|, size);
    }
  }

  lemma FullPacket(n: nat, size: nat)
    requires size > 0
    ensures (size + n) % size == n % size
  {
    var q, r := n / size, n % size;
    assert size + n == size * (q + 1) + r;
    QuotientIs(size + n, size, q + 1, r);
  }

  lemma QuotientIs(n: nat, size: nat, q: nat, r: nat)
    requires n == size * q + r && r < size
    ensures n % size == r
  {
    var q2 := n / size;
    assert n == size * q2 + n % size;
    assert size * (q2 - q) == r - n % size;
    Multiples(size, q2 - q);
  }

  lemma Multiples(size: int, k: int)
    requires size >= 0
    ensures k >= 1 ==> size * k >= size
    ensures k <= -1 ==> size * k <= -size
  {
  }

  /** The host of a whole command, whatever transfer length it sent: it takes the data packets,
      leaves the status, and finds the true residue there, if and only if that length is the honest
      one - and, for INQUIRY, whose honest length exceeds the reply, a short packet ends the reply. */
  lemma HostToldTruth(d: Device, sense: Sense, stale: Block, w: Cbw, packets: seq<seq<byte>>, size: nat)
    requires Covered(Command(w)) && size > CSW_SIZE
    requires Chunked(packets, size) && Join(packets) == Reply(d, sense, stale, Command(w))
    ensures
      var n, cb := TransferLength(w), Command(w);
      HostTakes(packets + [Csw(w)], size, n) == |packets| && ResidueField(w) == n - |Join(packets)| <==>
      n == HonestLength(cb) && (PlainInquiry(cb) ==> 36 % size != 0)
  {
    var n, cb := TransferLength(w), Command(w);
    hide Csw, Reply, Stream, HostTakes, TransferLength, ResidueField;
    ResidueMeetsStandard(d, sense, stale, w);
    ReplyLength(d, sense, stale, cb);
    HostInStep(packets, Csw(w), size, n);
    if packets != [] {
      LastIsShort(packets, size);
    }
  }

  // ---------- Blocks inside the stream ----------

  lemma {:induction false} StreamAt(disk: Disk, lba: nat, count: nat, i: nat, off: nat, n: nat)
    requires i < count && off + n <= BLOCK
    ensures Stream(disk, lba, count)[BLOCK * i + off..BLOCK * i + off + n] == BlockAt(disk, lba, i)[off..off + n]
  {
    var s := Stream(disk, lba, count);
    var front := Stream(disk, lba, count - 1);
    if i == count - 1 {
      assert s[BLOCK * i..] == BlockAt(disk, lba, i);
      assert s[BLOCK * i + off..BLOCK * i + off + n] == s[BLOCK * i..][off..off + n];
    } else {
      StreamAt(disk, lba, count - 1, i, off, n);
      assert s[..|front|] == front;
      assert s[BLOCK * i + off..BLOCK * i + off + n] == s[..|front|][BLOCK * i + off..BLOCK * i + off + n];
    }
  }
}

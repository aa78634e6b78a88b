/** The software CRC of the STM32 bootloader host (main/stm32flash/stm32.c): the same shift
    register as Crc32, fed with little-endian words. */
module Stm32Crc {
  import opened TargetMemory
  import opened Crc32

  /** Each group of four bytes back to front. */
  function ReverseGroups(s: seq<bv8>): (r: seq<bv8>)
    requires |s| % 4 == 0
    ensures |r| == |s|
  {
    if s == [] then [] else ReverseGroups(s[..|s| - 4]) + [s[|s| - 1], s[|s| - 2], s[|s| - 3], s[|s| - 4]]
  }

  lemma {:induction false} ReverseGroupsConcat(s: seq<bv8>, t: seq<bv8>)
    requires |s| % 4 == 0 && |t| % 4 == 0
    ensures ReverseGroups(s + t) == ReverseGroups(s) + ReverseGroups(t)
  {
    if t == [] {
      assert s + t == s;
    } else {
      var u := s + t;
      assert u[..|u| - 4] == s + t[..|t| - 4];
      ReverseGroupsConcat(s, t[..|t| - 4]);
    }
  }

  /** Byte k of a group changes places with byte 3 - k; nothing crosses a group. */
  lemma {:induction false} ReverseGroupsAt(s: seq<bv8>, i: nat)
    requires |s| % 4 == 0 && i < |s|
    ensures ReverseGroups(s)[i] == s[i / 4 * 4 + 3 - i % 4]
  {
    if i < |s| - 4 {
      ReverseGroupsAt(s[..|s| - 4], i);
    }
  }

  function LittleEndian(b0: bv8, b1: bv8, b2: bv8, b3: bv8): bv32 {
    (b0 as bv32) | ((b1 as bv32) << 8) | ((b2 as bv32) << 16) | ((b3 as bv32) << 24)
  }

  lemma LittleEndianReversed(b0: bv8, b1: bv8, b2: bv8, b3: bv8)
    ensures LittleEndian(b0, b1, b2, b3) == BigEndian(b3, b2, b1, b0)
  {}

  /** The loop over the bits of one word. */
  method ShiftWord(start: Register, data: bv32) returns (crc: Register)
    ensures crc == WordStep(start, data)
  {
    crc := Register(Xor(start.bits, data));
    for i := 0 to 32
      invariant Register(Steps(crc.bits, 32 - i)) == WordStep(start, data)
    {
      crc := Register(if Top(crc.bits) then (crc.bits << 1) ^ POLY else crc.bits << 1);
    }
  }

  /** What stm32_sw_crc computes: bytes enter group by group, each group back to front;
      a length that is no multiple of four gives 0. */
  function SwappedCrc(start: Register, s: seq<bv8>): Register {
    if |s| % 4 == 0 then Crc(start, ReverseGroups(s)) else Register(0)
  }

  lemma SwappedCrcEmpty(start: Register)
    ensures SwappedCrc(start, []) == start
  {}

  /** A buffer may be checksummed in pieces of whole words. */
  lemma SwappedCrcConcat(start: Register, s: seq<bv8>, t: seq<bv8>)
    requires |s| % 4 == 0 && |t| % 4 == 0
    ensures SwappedCrc(start, s + t) == SwappedCrc(SwappedCrc(start, s), t)
  {
    hide Crc, ReverseGroups;
    ReverseGroupsConcat(s, t);
    CrcConcat(start, ReverseGroups(s), ReverseGroups(t));
  }

  lemma SwappedCrcWord(start: Register, b0: bv8, b1: bv8, b2: bv8, b3: bv8)
    ensures WordStep(start, LittleEndian(b0, b1, b2, b3)) == SwappedCrc(start, [b0, b1, b2, b3])
  {
    hide Crc, WordStep, LittleEndian, BigEndian;
    LittleEndianReversed(b0, b1, b2, b3);
    WordIsFourBytes(start, b3, b2, b1, b0);
    assert [b0, b1, b2, b3][..0] == [];
    assert ReverseGroups([b0, b1, b2, b3]) == [b3, b2, b1, b0];
  }

  /** stm32_sw_crc over the first `len` bytes of the buffer. */
  method SwCrc(start: Register, buf: array<bv8>, len: nat) returns (crc: Register)
    requires len <= buf.Length
    ensures crc == SwappedCrc(start, buf[..len])
  {
    if len % 4 != 0 {
      return Register(0);
    }
    hide SwappedCrc, WordStep, LittleEndian;
    SwappedCrcEmpty(start);
    crc := start;
    var i := 0;
    while i < len
      invariant i <= len && i % 4 == 0
      invariant crc == SwappedCrc(start, buf[..i])
    {
      ghost var word := [buf[i], buf[i + 1], buf[i + 2], buf[i + 3]];
      assert buf[..i] + word == buf[..i + 4];
      SwappedCrcConcat(start, buf[..i], word);
      SwappedCrcWord(crc, buf[i], buf[i + 1], buf[i + 2], buf[i + 3]);
      crc := ShiftWord(crc, LittleEndian(buf[i], buf[i + 1], buf[i + 2], buf[i + 3]));
      i := i + 4;
    }
  }

  datatype Outcome = Ok(crc: Register) | Unknown

  /** The reads of at most 256 bytes issued from `offset` on all succeed. */
  ghost predicate BlocksReadable(t: Memory, address: Address, length: nat, offset: nat)
    decreases length - offset
  {
    offset < length ==>
      && t.readable(Wrap(address + offset), if length - offset > 256 then 256 else length - offset)
      && BlocksReadable(t, address, length, offset + 256)
  }

  /** One pass of the loop over blocks: read, then extend the checksum. */
  method CrcBlock(t: Memory, buf: array<bv8>, address: Address, offset: nat, len: nat, start: Register)
    returns (ok: bool, crc: Register)
    requires len <= buf.Length && offset % 4 == 0 && len % 4 == 0
    requires start == SwappedCrc(INITIAL, t.Bytes(address, offset))
    modifies buf
    ensures ok == t.readable(Wrap(address + offset), len)
    ensures ok ==> crc == SwappedCrc(INITIAL, t.Bytes(address, offset + len))
  {
    hide SwappedCrc;
    var failed := t.Read(buf, 0, Wrap(address + offset), len);
    if failed {
      return false, start;
    }
    t.BytesWrap(address + offset, len);
    t.BytesSplit(address, offset, len);
    assert buf[..len] == t.Bytes(address + offset, len);
    SwappedCrcConcat(INITIAL, t.Bytes(address, offset), t.Bytes(address + offset, len));
    crc := SwCrc(start, buf, len);
    ok := true;
  }

  /** stm32_crc_wrapper on a device whose bootloader lacks the CRC command. */
  method CrcWrapper(t: Memory, address: Address, length: nat) returns (r: Outcome)
    ensures r.Ok? <==> address % 4 == 0 && length % 4 == 0 && BlocksReadable(t, address, length, 0)
    ensures r.Ok? ==> r.crc == SwappedCrc(INITIAL, t.Bytes(address, length))
  {
    hide SwappedCrc;
    if address % 4 != 0 || length % 4 != 0 {
      return Unknown;
    }
    SwappedCrcEmpty(INITIAL);
    assert t.Bytes(address, 0) == [];
    var buf := new bv8[256];
    var crc := INITIAL;
    var offset := 0;
    while offset < length
      invariant offset <= length && offset % 4 == 0
      invariant crc == SwappedCrc(INITIAL, t.Bytes(address, offset))
      invariant BlocksReadable(t, address, length, 0) <==> BlocksReadable(t, address, length, offset)
    {
      var len := if length - offset > 256 then 256 else length - offset;
      var ok: bool;
      ok, crc := CrcBlock(t, buf, address, offset, len, crc);
      if !ok {
        return Unknown;
      }
      offset := offset + len;
    }
    return Ok(crc);
  }
}

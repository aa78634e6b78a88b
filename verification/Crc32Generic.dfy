/** Both versions of generic_crc32 of main/crc32.c: the one that looks bytes up in a table
    and the one that feeds whole words to the STM32 CRC unit. */
module Crc32Generic {
  import opened Arithmetic
  import opened TargetMemory
  import opened Crc32
  import opened Crc32Table

  function Index(crc: bv32, data: bv8): bv8 {
    ((crc >> 24) as bv8) ^ data
  }

  function Up(crc: bv32): bv32 { crc << 8 }

  function Lookup(index: bv8): Register {
    TableAt(index);
    Register(TABLE[index as int])
  }

  lemma LookupIsEntry(index: bv8)
    ensures Lookup(index) == Register(Entry(index))
  {
    TableAt(index);
  }

  function Combine(a: Register, b: Register): Register {
    Register(Xor(a.bits, b.bits))
  }

  /** crc32_calc. */
  function Calc(crc: Register, data: bv8): Register {
    Combine(Register(Up(crc.bits)), Lookup(Index(crc.bits, data)))
  }

  lemma SplitWord(crc: bv32, data: bv8)
    ensures Xor(crc, High(data)) == Xor(High(((crc >> 24) as bv8) ^ data), crc & 0x00ffffff)
    ensures (crc & 0x00ffffff) << 8 == crc << 8
    ensures crc & 0x00ffffff & 0xff000000 == 0
  {}

  lemma LookupIsEightSteps(crc: bv32, data: bv8)
    ensures Register(Xor(Up(crc), Entry(Index(crc, data)))) == Register(Steps(Xor(crc, High(data)), 8))
  {
    var index := ((crc >> 24) as bv8) ^ data;
    var low := crc & 0x00ffffff;
    SplitWord(crc, data);
    StepsLinear(High(index), low, 8);
    StepsOfLow(low);
    XorComm(crc << 8, Entry(index));
  }

  lemma CombineBits(x: bv32, y: bv32, r: Register)
    requires r == Register(y)
    ensures Combine(Register(x), r) == Register(Xor(x, y))
  {}

  /** One table lookup replaces eight clocks of the shift register. */
  lemma CalcIsByteStep(crc: Register, data: bv8)
    ensures Calc(crc, data) == ByteStep(crc, data)
  {
    var index := Index(crc.bits, data);
    LookupIsEntry(index);
    CombineBits(Up(crc.bits), Entry(index), Lookup(index));
    LookupIsEightSteps(crc.bits, data);
  }

  /** The bytes fetched for a chunk: rounded up to whole words. */
  function RoundUp(n: nat): (r: nat)
    ensures n <= r < n + 4 && r % 4 == 0
  {
    (n + 3) / 4 * 4
  }

  /** Every chunk that the table version fetches from `offset` on can be read. */
  ghost predicate ChunksReadable(t: Memory, base: Address, len: nat, chunk: nat, offset: nat)
    requires chunk > 0
    decreases len - offset
  {
    offset < len ==>
      && t.readable(Wrap(base + offset), RoundUp(Min(chunk, len - offset)))
      && ChunksReadable(t, base, len, chunk, offset + chunk)
  }

  /** The inner loop: absorbs the first n bytes of the buffer. */
  method AbsorbBytes(bytes: array<bv8>, n: nat, start: Register) returns (crc: Register)
    requires n <= bytes.Length
    ensures crc == Crc(start, bytes[..n])
  {
    crc := start;
    for i := 0 to n
      invariant crc == Crc(start, bytes[..i])
    {
      CrcSnoc(start, bytes[..i], bytes[i]);
      assert bytes[..i] + [bytes[i]] == bytes[..i + 1];
      CalcIsByteStep(crc, bytes[i]);
      crc := Calc(crc, bytes[i]);
    }
  }

  /** The chunk at `offset` extends the checksum of what precedes it. */
  lemma ChunkExtends(t: Memory, base: nat, offset: nat, n: nat)
    ensures Crc(Crc(INITIAL, t.Bytes(base, offset)), t.Bytes(base + offset, n))
         == Crc(INITIAL, t.Bytes(base, offset + n))
  {
    t.BytesSplit(base, offset, n);
    CrcConcat(INITIAL, t.Bytes(base, offset), t.Bytes(base + offset, n));
  }

  /** One pass of the loop over chunks: fetch, then absorb. */
  method AbsorbChunk(t: Memory, bytes: array<bv8>, base: Address, offset: nat, readLen: nat, start: Register)
    returns (ok: bool, crc: Register)
    requires RoundUp(readLen) <= bytes.Length
    modifies bytes
    ensures ok == t.readable(Wrap(base + offset), RoundUp(readLen))
    ensures ok ==> crc == Crc(start, t.Bytes(base + offset, readLen))
  {
    var fetch := RoundUp(readLen);
    var failed := t.Read(bytes, 0, Wrap(base + offset), fetch);
    if failed {
      return false, start;
    }
    t.BytesWrap(base + offset, fetch);
    t.BytesTake(base + offset, readLen, fetch);
    assert bytes[..readLen] == bytes[0..fetch][..readLen];
    crc := AbsorbBytes(bytes, readLen, start);
    ok := true;
  }

  /** The table version. `chunk` is the size of its buffer: 128 bytes, or 4096 when hosted. */
  method TableCrc32(t: Memory, base: Address, len: nat, chunk: nat) returns (ok: bool, result: Register)
    requires chunk > 0 && chunk % 4 == 0
    ensures ok <==> ChunksReadable(t, base, len, chunk, 0)
    ensures ok ==> result == Crc(INITIAL, t.Bytes(base, len))
  {
    hide Crc, ByteStep, WordStep, Steps, Step;
    var bytes := new bv8[chunk];
    var offset := 0;
    CrcEmpty(INITIAL);
    assert t.Bytes(base, 0) == [];
    result := INITIAL;
    while offset < len
      invariant result == Crc(INITIAL, t.Bytes(base, Min(offset, len)))
      invariant ChunksReadable(t, base, len, chunk, 0) <==> ChunksReadable(t, base, len, chunk, offset)
      decreases len - offset
    {
      var readLen := Min(chunk, len - offset);
      ChunkExtends(t, base, offset, readLen);
      ok, result := AbsorbChunk(t, bytes, base, offset, readLen, result);
      if !ok {
        return;
      }
      offset := offset + chunk;
    }
    ok := true;
  }

  /** The STM32 CRC unit: writing a word to CRC_DR clocks it in, reading gives the register. */
  class CrcUnit {
    var dr: Register

    /** CRC_CR_RESET. */
    method Reset()
      modifies this
      ensures dr == INITIAL
    {
      dr := INITIAL;
    }

    method Write(word: bv32)
      modifies this
      ensures dr == WordStep(old(dr), word)
    {
      dr := WordStep(dr, word);
    }
  }

  /** The inner loop that feeds n bytes to the unit, a word at a time. */
  method FeedWords(unit: CrcUnit, bytes: array<bv8>, n: nat)
    requires n <= bytes.Length && n % 4 == 0
    modifies unit
    ensures unit.dr == Crc(old(unit.dr), bytes[..n])
  {
    hide Crc, ByteStep, WordStep, Steps, Step, BigEndian;
    ghost var start := unit.dr;
    CrcEmpty(start); assert bytes[..0] == [];
    var i := 0;
    while i < n
      invariant i <= n && i % 4 == 0
      invariant unit.dr == Crc(start, bytes[..i])
    {
      WordExtends(start, bytes[..i], bytes[i], bytes[i + 1], bytes[i + 2], bytes[i + 3]);
      assert bytes[..i] + [bytes[i], bytes[i + 1], bytes[i + 2], bytes[i + 3]] == bytes[..i + 4];
      unit.Write(BigEndian(bytes[i], bytes[i + 1], bytes[i + 2], bytes[i + 3]));
      i := i + 4;
    }
  }

  lemma WordExtends(start: Register, s: seq<bv8>, b0: bv8, b1: bv8, b2: bv8, b3: bv8)
    ensures WordStep(Crc(start, s), BigEndian(b0, b1, b2, b3)) == Crc(start, s + [b0, b1, b2, b3])
  {
    WordIsFourBytes(Crc(start, s), b0, b1, b2, b3);
    CrcConcat(start, s, [b0, b1, b2, b3]);
  }

  /** The loop over the bits of one byte. */
  method ShiftByte(start: Register, b: bv8) returns (crc: Register)
    ensures crc == ByteStep(start, b)
  {
    crc := Register(Xor(start.bits, High(b)));
    for i := 0 to 8
      invariant Register(Steps(crc.bits, 8 - i)) == ByteStep(start, b)
    {
      crc := Register(if Top(crc.bits) then (crc.bits << 1) ^ POLY else crc.bits << 1);
    }
  }

  /** The loop over the bytes of the last, incomplete word. */
  method ShiftBytes(bytes: array<bv8>, n: nat, start: Register) returns (crc: Register)
    requires n <= bytes.Length
    ensures crc == Crc(start, bytes[..n])
  {
    crc := start;
    for offset := 0 to n
      invariant crc == Crc(start, bytes[..offset])
    {
      crc := ShiftByte(crc, bytes[offset]);
      CrcSnoc(start, bytes[..offset], bytes[offset]);
      assert bytes[..offset] + [bytes[offset]] == bytes[..offset + 1];
    }
  }

  /** Every chunk the STM32 version fetches can be read, and so can the incomplete word. */
  ghost predicate WordsReadable(t: Memory, base: Address, adjusted: nat, offset: nat)
    decreases adjusted - offset
  {
    offset < adjusted ==>
      && t.readable(Wrap(base + offset), Min(128, adjusted - offset))
      && WordsReadable(t, base, adjusted, offset + 128)
  }

  /** One pass of the loop over chunks. */
  method FeedChunk(unit: CrcUnit, t: Memory, bytes: array<bv8>, base: Address, offset: nat, readLen: nat)
    returns (ok: bool)
    requires readLen <= bytes.Length && readLen % 4 == 0
    modifies unit, bytes
    ensures ok == t.readable(Wrap(base + offset), readLen)
    ensures ok ==> unit.dr == Crc(old(unit.dr), t.Bytes(base + offset, readLen))
  {
    var failed := t.Read(bytes, 0, Wrap(base + offset), readLen);
    if failed {
      return false;
    }
    t.BytesWrap(base + offset, readLen);
    assert bytes[..readLen] == bytes[0..readLen];
    FeedWords(unit, bytes, readLen);
    ok := true;
  }

  /** The incomplete word at the end, if any. */
  method FinishBytes(t: Memory, bytes: array<bv8>, base: Address, offset: nat, remainder: nat, start: Register)
    returns (ok: bool, crc: Register)
    requires remainder <= bytes.Length
    modifies bytes
    ensures ok == (remainder != 0 ==> t.readable(Wrap(base + offset), remainder))
    ensures ok ==> crc == Crc(start, t.Bytes(base + offset, remainder))
  {
    if remainder == 0 {
      return true, start;
    }
    var failed := t.Read(bytes, 0, Wrap(base + offset), remainder);
    if failed {
      return false, start;
    }
    t.BytesWrap(base + offset, remainder);
    assert bytes[..remainder] == bytes[0..remainder];
    crc := ShiftBytes(bytes, remainder, start);
    ok := true;
  }

  /** The loop over chunks of whole words. */
  method FeedAll(unit: CrcUnit, t: Memory, bytes: array<bv8>, base: Address, adjusted: nat) returns (ok: bool)
    requires bytes.Length == 128 && adjusted % 4 == 0
    requires unit.dr == INITIAL
    modifies unit, bytes
    ensures ok <==> WordsReadable(t, base, adjusted, 0)
    ensures ok ==> unit.dr == Crc(INITIAL, t.Bytes(base, adjusted))
  {
    hide Crc, ByteStep, WordStep, Steps, Step;
    CrcEmpty(INITIAL);
    assert t.Bytes(base, 0) == [];
    var offset := 0;
    while offset < adjusted
      invariant offset % 4 == 0
      invariant unit.dr == Crc(INITIAL, t.Bytes(base, Min(offset, adjusted)))
      invariant WordsReadable(t, base, adjusted, 0) <==> WordsReadable(t, base, adjusted, offset)
      decreases adjusted - offset
    {
      var readLen := Min(128, adjusted - offset);
      ChunkExtends(t, base, offset, readLen);
      ok := FeedChunk(unit, t, bytes, base, offset, readLen);
      if !ok {
        return;
      }
      offset := offset + 128;
    }
    ok := true;
  }

  /** The STM32 version. */
  method UnitCrc32(unit: CrcUnit, t: Memory, base: Address, len: nat) returns (ok: bool, result: Register)
    modifies unit
    ensures ok <==>
      && WordsReadable(t, base, len / 4 * 4, 0)
      && (len % 4 != 0 ==> t.readable(Wrap(base + len / 4 * 4), len % 4))
    ensures ok ==> result == Crc(INITIAL, t.Bytes(base, len))
  {
    hide Crc, ByteStep, WordStep, Steps, Step;
    var bytes := new bv8[128];
    unit.Reset();
    result := INITIAL;
    var adjusted := len / 4 * 4;
    ok := FeedAll(unit, t, bytes, base, adjusted);
    if ok {
      ChunkExtends(t, base, adjusted, len - adjusted);
      ok, result := FinishBytes(t, bytes, base, adjusted, len - adjusted, unit.dr);
    }
  }
}

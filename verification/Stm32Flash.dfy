/** The commands of main/stm32flash/stm32.c that change the device: write, go, erase. */
module Stm32Flash {
  import opened Bootloader
  import opened Stm32Link

  const BLKWRITE_TIMEOUT := 1

  function Filler(n: nat): (s: seq<byte>)
    ensures |s| == n
  {
    seq(n, _ => 0xFF)
  }

  /** Filled up with 0xFF to a multiple of four. */
  function Padded(s: seq<byte>): (p: seq<byte>)
    ensures |p| % 4 == 0 && |s| <= |p| < |s| + 4
  {
    s + Filler((4 - |s| % 4) % 4)
  }

  lemma PaddedLength(s: seq<byte>)
    ensures |Padded(s)| == (|s| + 3) / 4 * 4 && (|s| <= 256 ==> |Padded(s)| <= 256)
    ensures Padded(s) == s + Filler(|Padded(s)| - |s|)
  {
  }

  lemma FrameShape(p: seq<byte>)
    requires 0 < |p|
    ensures DataFrame(p) == [Byte(|p| - 1)] + p + [Checksum([Byte(|p| - 1)] + p)]
  {
  }

  lemma PaddedAppend(s: seq<byte>, t: seq<byte>)
    requires |s| % 4 == 0
    ensures Padded(s + t) == s + Padded(t)
  {
    assert |s + t| % 4 == |t| % 4;
  }

  lemma PaddedAligned(s: seq<byte>)
    requires |s| % 4 == 0
    ensures Padded(s) == s
  {
  }

  class Stm32 {
    const port: Port

    constructor (port: Port)
      ensures this.port == port
    {
      this.port := port;
    }

    /** Between commands: the device waits for one and nothing is left to read. */
    ghost predicate Ready()
      reads port
    {
      port.Valid() && port.inbox == [] && port.device.phase == Command
    }

    /** The data bytes, behind the count. */
    method PutData(buf: array<byte>, data: seq<byte>, cs0: byte) returns (cs: byte)
      requires 0 < |data| < buf.Length && cs0 == Checksum(buf[..1])
      modifies buf
      ensures buf[..|data| + 1] == old(buf[..1]) + data && cs == Checksum(buf[..|data| + 1])
    {
      hide Checksum;
      cs := cs0;
      ghost var count := buf[..1];
      assert count == count + data[..0];
      var i := 0;
      while i < |data|
        invariant 0 <= i <= |data|
        invariant buf[..i + 1] == count + data[..i] && cs == Checksum(buf[..i + 1])
      {
        assert count + data[..i] + [data[i]] == count + data[..i + 1];
        cs := PutByte(buf, i + 1, data[i], cs);
        i := i + 1;
      }
      assert data[..|data|] == data;
    }

    /** The padding from place i on. */
    method PutFiller(buf: array<byte>, from: nat, to: nat, cs0: byte) returns (cs: byte)
      requires from <= to < buf.Length && cs0 == Checksum(buf[..from + 1])
      modifies buf
      ensures buf[..to + 1] == old(buf[..from + 1]) + Filler(to - from) && cs == Checksum(buf[..to + 1])
    {
      hide Checksum;
      cs := cs0;
      ghost var front := buf[..from + 1];
      assert front == front + Filler(0);
      var i := from;
      while i < to
        invariant from <= i <= to
        invariant buf[..i + 1] == front + Filler(i - from) && cs == Checksum(buf[..i + 1])
      {
        assert front + Filler(i - from) + [0xFF] == front + Filler(i + 1 - from);
        cs := PutByte(buf, i + 1, 0xFF, cs);
        i := i + 1;
      }
    }

    /** The frame buffer of stm32_write_memory: count, data, padding, checksum. */
    method FillFrame(buf: array<byte>, data: seq<byte>) returns (alignedLen: nat)
      requires buf.Length == 258 && 0 < |data| <= 256
      modifies buf
      ensures alignedLen == |Padded(data)| <= 256
      ensures buf[..alignedLen + 2] == DataFrame(Padded(data))
    {
      hide Checksum, Xor, Byte, Filler, Padded, DataFrame;
      PaddedLength(data);
      alignedLen := (|data| + 3) / 4 * 4;
      ghost var padded := Padded(data);
      ChecksumEmpty();
      assert buf[..0] == [];
      var cs := PutByte(buf, 0, Byte(alignedLen - 1), 0);
      ghost var count := buf[..1];
      assert count == [Byte(alignedLen - 1)];
      cs := PutData(buf, data, cs);
      cs := PutFiller(buf, |data|, alignedLen, cs);
      assert buf[..alignedLen + 1] == count + padded;
      buf[alignedLen + 1] := cs;
      assert buf[..alignedLen + 2] == buf[..alignedLen + 1] + [cs];
      FrameShape(padded);
    }

    /** The four address bytes and their checksum, as write and go send them. */
    method FillAddress(address: Address) returns (buf: seq<byte>)
      ensures buf == AddressFrame(address)
    {
      hide Byte;
      var b0, b1, b2, b3 := Byte(address / 0x100_0000), Byte(address / 0x1_0000), Byte(address / 0x100), Byte(address);
      var cs := Xor(Xor(Xor(b0, b1), b2), b3);
      FourBytes(b0, b1, b2, b3);
      buf := [b0, b1, b2, b3, cs];
    }

    /** stm32_write_memory. */
    method WriteMemory(address: Address, data: seq<byte>) returns (r: Status)
      requires Ready()
      modifies port
      ensures port.Valid()
      ensures data == [] ==> r == OK
      ensures data != [] && (|data| > 256 || address % 4 != 0) ==> r == UNKNOWN
      ensures data == [] || |data| > 256 || address % 4 != 0 || r == NO_CMD ==> unchanged(port)
      ensures r == OK ==> Ready()
      ensures r == OK ==> port.device == old(port.device).(mem := port.device.mem)
      ensures r == OK ==> Holds(port.device.mem, old(port.device.mem), address, if data == [] then [] else Padded(data))
      ensures r != OK ==> !port.device.phase.Started? && port.device.erased == old(port.device.erased)
      ensures r != OK ==>
        || port.device.mem == old(port.device.mem)
        || Holds(port.device.mem, old(port.device.mem), address, Padded(data))
      ensures port.Calm() && port.setup.write != NONE && |data| <= 256 && address % 4 == 0 ==> r == OK
    {
      hide React, Holds, Store, Padded;
      if data == [] {
        HoldsNothing(port.device.mem, address);
        return OK;
      }
      if |data| > 256 {
        return UNKNOWN;
      }
      if address % 4 != 0 {
        return UNKNOWN;
      }
      if port.setup.write == NONE {
        return NO_CMD;
      }
      ghost var d := port.device;
      CommandTaken(port.setup, d, port.setup.write);
      r := port.SendCommand(port.setup.write, 0);
      if r != OK {
        return UNKNOWN;
      }
      var frame := FillAddress(address);
      AddressTaken(port.setup, port.device, address);
      r := port.Exchange(frame, 0);
      if r != OK {
        return UNKNOWN;
      }
      var buf := new byte[258];
      var alignedLen := FillFrame(buf, data);
      DataTaken(port.setup, port.device, Padded(data));
      StoreHolds(d.mem, address, Padded(data));
      r := port.Exchange(buf[..alignedLen + 2], BLKWRITE_TIMEOUT);
      if r != OK {
        return UNKNOWN;
      }
    }

    /** stm32_go. */
    method Go(address: Address) returns (r: Status)
      requires Ready()
      modifies port
      ensures r == OK ==> port.device == old(port.device).(phase := Started(address))
      ensures port.device == old(port.device).(phase := port.device.phase)
      ensures port.Calm() && port.setup.go != NONE ==> r == OK
    {
      hide React;
      if port.setup.go == NONE {
        return NO_CMD;
      }
      CommandTaken(port.setup, port.device, port.setup.go);
      r := port.SendCommand(port.setup.go, 0);
      if r != OK {
        return UNKNOWN;
      }
      var frame := FillAddress(address);
      AddressTaken(port.setup, port.device, address);
      r := port.Exchange(frame, 0);
      if r != OK {
        return UNKNOWN;
      }
    }

    /** The writes of stm32_run_raw_code: 256 bytes at a time. */
    method WriteImage(target: Address, image: seq<byte>) returns (r: Status)
      requires Ready() && target % 4 == 0 && target + |image| + 4 <= ADDRESS_SPACE
      modifies port
      ensures r == OK ==>
        && Ready() && port.device == old(port.device).(mem := port.device.mem)
        && Holds(port.device.mem, old(port.device.mem), target, Padded(image))
      ensures r != OK ==> !port.device.phase.Started? && port.device.erased == old(port.device.erased)
      ensures r != OK ==> Within(port.device.mem, old(port.device.mem), target, |Padded(image)|)
      ensures port.Calm() && port.setup.write != NONE ==> r == OK
    {
      hide Holds, Padded, Within;
      ghost var m0 := port.device.mem;
      var pos := 0;
      var address := target;
      var length := |image|;
      HoldsNothing(m0, target);
      assert image[..0] == [];
      NothingPadded(image);
      while length > 0
        invariant 0 <= pos <= |image| && length == |image| - pos && address == target + pos
        invariant length > 0 ==> pos % 4 == 0
        invariant Ready() && port.device == old(port.device).(mem := port.device.mem)
        invariant Holds(port.device.mem, m0, target, if length > 0 then image[..pos] else Padded(image))
      {
        var w := if length > 256 then 256 else length;
        ghost var before := port.device.mem;
        var chunk := image[pos..pos + w];
        r := WriteMemory(address, chunk);
        ChunkPadded(image, pos, w);
        if r != OK {
          PartWithin(port.device.mem, before, m0, target, image, pos, w);
          return UNKNOWN;
        }
        HoldsAppend(port.device.mem, before, m0, target, image[..pos], Padded(chunk));
        address := address + w;
        pos := pos + w;
        length := length - w;
      }
      r := OK;
    }

    /** stm32_run_raw_code: the initial stack pointer, the entry point in Thumb mode and the code
        are in memory, filled up to whole words, before Go is sent; no other byte changes. */
    method RunRawCode(target: Address, code: seq<byte>) returns (r: Status)
      requires Ready() && target + |code| + 12 <= ADDRESS_SPACE
      modifies port
      ensures target % 4 != 0 ==> r == UNKNOWN && unchanged(port)
      ensures r == OK ==>
        && port.device == old(port.device).(phase := Started(target), mem := port.device.mem)
        && Holds(port.device.mem, old(port.device.mem), target, Padded(RawImage(target, code)))
        && Bootable(port.device.mem, target, code)
      ensures port.device.phase.Started? ==>
        && Holds(port.device.mem, old(port.device.mem), target, Padded(RawImage(target, code)))
        && Bootable(port.device.mem, target, code)
      ensures Within(port.device.mem, old(port.device.mem), target, |Padded(RawImage(target, code))|)
      ensures port.device.erased == old(port.device.erased)
      ensures port.Calm() && port.setup.write != NONE && port.setup.go != NONE && target % 4 == 0 ==> r == OK
    {
      hide Holds, Padded, Within, LittleEndian, Bootable;
      WithinItself(port.device.mem, target, |Padded(RawImage(target, code))|);
      if target % 4 != 0 {
        return UNKNOWN;
      }
      var image := LittleEndian(STACK) + LittleEndian(target + 8 + 1) + code;
      r := WriteImage(target, image);
      if r != OK {
        return UNKNOWN;
      }
      HoldsWithin(port.device.mem, old(port.device.mem), target, Padded(image));
      ImageBoots(port.device.mem, old(port.device.mem), target, code);
      r := Go(target);
    }
  }

  const STACK: nat := 0x20002000

  function LittleEndian(n: nat): (s: seq<byte>)
    ensures |s| == 4
  {
    [Byte(n), Byte(n / 0x100), Byte(n / 0x1_0000), Byte(n / 0x100_0000)]
  }

  /** Vector table of two words, then the code. */
  function RawImage(target: nat, code: seq<byte>): seq<byte> {
    LittleEndian(STACK) + LittleEndian(target + 9) + code
  }

  /** What a core finds that starts at a: the stack pointer 0x2000_2000, least significant byte
      first, the entry point a + 8 with the Thumb bit, the code, and 0xFF up to a whole word. */
  predicate Bootable(m: Image, a: Address, code: seq<byte>)
    requires a + |code| + 12 <= ADDRESS_SPACE
  {
    && m(a) as int + 0x100 * m(a + 1) as int + 0x1_0000 * m(a + 2) as int + 0x100_0000 * m(a + 3) as int == 0x2000_2000
    && m(a + 4) as int + 0x100 * m(a + 5) as int + 0x1_0000 * m(a + 6) as int + 0x100_0000 * m(a + 7) as int == a + 9
    && (forall i | 0 <= i < |code| :: m(a + 8 + i) == code[i])
    && (forall x: Address | a + 8 + |code| <= x < a + 8 + (|code| + 3) / 4 * 4 :: m(x) == 0xFF)
  }

  lemma ImageBoots(after: Image, before: Image, a: Address, code: seq<byte>)
    requires a + |code| + 12 <= ADDRESS_SPACE && Holds(after, before, a, Padded(RawImage(a, code)))
    ensures Bootable(after, a, code)
  {
    var image := RawImage(a, code);
    var p := Padded(image);
    PaddedLength(image);
    WordBytes(STACK);
    WordBytes(a + 9);
    assert |image| == |code| + 8 && |p| == 8 + (|code| + 3) / 4 * 4;
    assert p[..4] == LittleEndian(STACK) && p[4..8] == LittleEndian(a + 9);
    hide Padded, RawImage, LittleEndian;
    forall i | 0 <= i < |p| ensures after(a + i) == p[i] {
    }
    assert after(a) == p[..4][0] && after(a + 1) == p[..4][1] && after(a + 2) == p[..4][2] && after(a + 3) == p[..4][3];
    assert after(a + 4) == p[4..8][0] && after(a + 5) == p[4..8][1];
    assert after(a + 6) == p[4..8][2] && after(a + 7) == p[4..8][3];
    CodeInside(a, code);
    forall x: Address | a + 8 + |code| <= x < a + |p| ensures after(x) == 0xFF {
      assert after(a + (x - a)) == p[x - a];
    }
  }

  lemma CodeInside(a: Address, code: seq<byte>)
    ensures forall i | 0 <= i < |code| :: Padded(RawImage(a, code))[8 + i] == code[i]
    ensures forall k | 8 + |code| <= k < |Padded(RawImage(a, code))| :: Padded(RawImage(a, code))[k] == 0xFF
  {
    hide LittleEndian;
    PaddedLength(RawImage(a, code));
  }

  lemma WordBytes(n: nat)
    requires n < ADDRESS_SPACE
    ensures
      var b := LittleEndian(n);
      b[0] as int + 0x100 * b[1] as int + 0x1_0000 * b[2] as int + 0x100_0000 * b[3] as int == n
  {
    Digits(n);
  }

  /** Nothing changes outside n bytes at a. */
  predicate Within(after: Image, before: Image, a: nat, n: nat) {
    forall x: Address :: !(a <= x < a + n) ==> after(x) == before(x)
  }

  lemma WithinItself(m: Image, a: nat, n: nat)
    ensures Within(m, m, a, n)
  {
  }

  lemma HoldsWithin(after: Image, before: Image, a: nat, s: seq<byte>)
    requires Holds(after, before, a, s)
    ensures Within(after, before, a, |s|)
  {
  }

  lemma NothingPadded(image: seq<byte>)
    ensures |image| == 0 ==> Padded(image) == []
  {
  }

  lemma ChunkPadded(image: seq<byte>, pos: nat, w: nat)
    requires pos % 4 == 0 && pos + w <= |image| && (w == 256 || pos + w == |image|)
    ensures image[..pos] + Padded(image[pos..pos + w])
         == if pos + w < |image| then image[..pos + w] else Padded(image)
    ensures pos + |Padded(image[pos..pos + w])| <= |Padded(image)|
  {
    var chunk := image[pos..pos + w];
    assert image[..pos] + chunk == image[..pos + w];
    if pos + w == |image| {
      assert image[..pos + w] == image;
      PaddedAppend(image[..pos], chunk);
    } else {
      PaddedAligned(chunk);
    }
  }

  lemma PartWithin(m2: Image, m1: Image, m0: Image, a: nat, image: seq<byte>, pos: nat, w: nat)
    requires pos + w <= |image| && pos + |Padded(image[pos..pos + w])| <= |Padded(image)|
    requires Holds(m1, m0, a, image[..pos])
    requires m2 == m1 || Holds(m2, m1, a + pos, Padded(image[pos..pos + w]))
    ensures Within(m2, m0, a, |Padded(image)|)
  {
  }

  lemma FourBytes(b0: byte, b1: byte, b2: byte, b3: byte)
    ensures Checksum([b0, b1, b2, b3]) == Xor(Xor(Xor(b0, b1), b2), b3)
  {
    var none: seq<byte> := [];
    hide Checksum, Xor;
    ChecksumEmpty();
    ChecksumAppend(none, b0);
    ChecksumAppend(none + [b0], b1);
    ChecksumAppend(none + [b0] + [b1], b2);
    ChecksumAppend(none + [b0] + [b1] + [b2], b3);
    XorZero(b0);
    assert none + [b0] + [b1] + [b2] + [b3] == [b0, b1, b2, b3];
  }
}

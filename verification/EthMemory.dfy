/** Memory shared with the Ethernet DMA of libopencm3/lib/ethernet/mac_stm32fxx7.c: bytes, and the
    little-endian words of descriptors laid over them. */
module EthMemory {

  type byte = b: int | 0 <= b < 256 witness 0

  type Image = nat -> byte

  const TWO_32: nat := 0x1_0000_0000

  type uint32 = n: nat | n < TWO_32 witness 0

  function Word(m: Image, a: nat): uint32 {
    m(a) as int + 0x100 * m(a + 1) as int + 0x1_0000 * m(a + 2) as int + 0x100_0000 * m(a + 3) as int
  }

  function Digit(v: uint32, k: nat): byte
    requires k < 4
  {
    if k == 0 then v % 0x100 else if k == 1 then v / 0x100 % 0x100 else if k == 2 then v / 0x1_0000 % 0x100
    else v / 0x100_0000 % 0x100
  }

  function PutWord(m: Image, a: nat, v: uint32): Image {
    (x: nat) => if a <= x < a + 4 then Digit(v, x - a) else m(x)
  }

  function PutBytes(m: Image, a: nat, s: seq<byte>): Image {
    (x: nat) => if a <= x < a + |s| then s[x - a] else m(x)
  }

  function Bytes(m: Image, a: nat, n: nat): (s: seq<byte>)
    ensures |s| == n
  {
    seq(n, i requires 0 <= i < n => m(a + i))
  }

  /** Nothing differs outside n bytes at a. */
  ghost predicate Only(after: Image, before: Image, a: nat, n: nat) {
    forall x: nat :: !(a <= x < a + n) ==> after(x) == before(x)
  }

  lemma WordPut(m: Image, a: nat, v: uint32)
    ensures Word(PutWord(m, a, v), a) == v
    ensures Only(PutWord(m, a, v), m, a, 4)
    ensures PutWord(m, a, v)(a) == v % 0x100 && PutWord(m, a, v)(a + 3) == v / 0x100_0000
  {
    var after := PutWord(m, a, v);
    assert after(a) == Digit(v, 0) && after(a + 1) == Digit(v, 1)
        && after(a + 2) == Digit(v, 2) && after(a + 3) == Digit(v, 3);
    DigitsSpell(v);
  }

  lemma DigitsSpell(v: uint32)
    ensures Digit(v, 0) as int + 0x100 * Digit(v, 1) as int + 0x1_0000 * Digit(v, 2) as int
            + 0x100_0000 * Digit(v, 3) as int == v
  {
    var b := v / 0x100;
    var c := b / 0x100;
    assert v / 0x1_0000 == c && v / 0x100_0000 == c / 0x100;
    assert c / 0x100 < 0x100;
  }

  lemma BytesPut(m: Image, a: nat, s: seq<byte>)
    ensures Bytes(PutBytes(m, a, s), a, |s|) == s
    ensures Only(PutBytes(m, a, s), m, a, |s|)
  {
  }

  lemma WordKept(after: Image, before: Image, a: nat, n: nat, w: nat)
    requires Only(after, before, a, n) && (w + 4 <= a || a + n <= w)
    ensures Word(after, w) == Word(before, w)
  {
  }

  lemma BytesKept(after: Image, before: Image, a: nat, n: nat, b: nat, len: nat)
    requires Only(after, before, a, n) && (b + len <= a || a + n <= b)
    ensures Bytes(after, b, len) == Bytes(before, b, len)
  {
  }

  lemma OnlyWider(after: Image, before: Image, a: nat, n: nat, b: nat, len: nat)
    requires Only(after, before, a, n) && b <= a && a + n <= b + len
    ensures Only(after, before, b, len)
  {
  }

  lemma OnlyTwice(m2: Image, m1: Image, m0: Image, a: nat, n: nat)
    requires Only(m2, m1, a, n) && Only(m1, m0, a, n)
    ensures Only(m2, m0, a, n)
  {
  }

  // ---------- Bits of descriptor words ----------

  const OWN: uint32 := 0x8000_0000        // bit 31
  const FLAGS_LS_FS: uint32 := 0x3000_0000 // bits 29 and 28 of TDES0

  /** Bit 31 of a word. */
  predicate Owned(w: uint32) { w >= OWN }

  /** Bits 28 and 29 of a transmit status: the first and the last segment of a frame. */
  predicate Segment(w: uint32): (marked: bool)
    ensures marked <==> w / 0x1000_0000 % 4 == 3
  {
    w / 0x1000_0000 % 2 == 1 && w / 0x2000_0000 % 2 == 1
  }

  /** w | TDES0_LS | TDES0_FS | TDES0_OWN, from the three fields of the word around these bits. */
  function Handover(w: uint32): (r: uint32)
    ensures Owned(r) && Segment(r)
  {
    OWN + w % OWN / 0x4000_0000 * 0x4000_0000 + FLAGS_LS_FS + w % 0x1000_0000
  }

  /** Bits 28, 29 and 31 are set, all others are those of w. */
  lemma HandoverBits(w: uint32)
    ensures
      var r := Handover(w);
      && r / 0x1000_0000 % 2 == 1 && r / 0x2000_0000 % 2 == 1 && r / 0x8000_0000 % 2 == 1
      && r / 0x4000_0000 % 2 == w / 0x4000_0000 % 2 && r % 0x1000_0000 == w % 0x1000_0000
  {
  }

  /** w & ~OWN. */
  function Released(w: uint32): (r: uint32)
    ensures !Owned(r)
  {
    w % OWN
  }

  /** Bit 31 is clear, all others are those of w. */
  lemma ReleasedBits(w: uint32)
    ensures Released(w) / 0x8000_0000 == 0 && Released(w) % 0x8000_0000 == w % 0x8000_0000
  {
  }

  /** w | TDES0_CIC_IPPLPH. */
  function Offload(w: uint32): (r: uint32)
    ensures Owned(r) <==> Owned(w)
    ensures r / 0x40_0000 % 4 == 3
  {
    w / 0x100_0000 * 0x100_0000 + 0xC0_0000 + w % 0x40_0000
  }

  /** Bits 22 and 23 are set, all others are those of w. */
  lemma OffloadBits(w: uint32)
    ensures
      var r := Offload(w);
      && r / 0x40_0000 % 2 == 1 && r / 0x80_0000 % 2 == 1
      && r / 0x100_0000 == w / 0x100_0000 && r % 0x40_0000 == w % 0x40_0000
  {
    ThreeFields(w / 0x100_0000, w % 0x40_0000, Offload(w));
  }

  lemma ThreeFields(high: nat, low: nat, r: nat)
    requires low < 0x40_0000 && r == high * 0x100_0000 + 0xC0_0000 + low
    ensures r / 0x100_0000 == high && r % 0x40_0000 == low
    ensures r / 0x40_0000 % 2 == 1 && r / 0x80_0000 % 2 == 1
  {
    High24(r, high, 0xC0_0000 + low);
    High22(r, high * 4 + 3, low);
    High23(r, high * 2 + 1, 0x40_0000 + low);
  }

  lemma High24(n: nat, high: nat, low: nat)
    requires n == high * 0x100_0000 + low && low < 0x100_0000
    ensures n / 0x100_0000 == high
  {
  }

  lemma High22(n: nat, high: nat, low: nat)
    requires n == high * 0x40_0000 + low && low < 0x40_0000
    ensures n / 0x40_0000 == high && n % 0x40_0000 == low
  {
  }

  lemma High23(n: nat, high: nat, low: nat)
    requires n == high * 0x80_0000 + low && low < 0x80_0000
    ensures n / 0x80_0000 == high
  {
  }

  /** Among them the segment marks. */
  lemma OffloadSegment(w: uint32)
    ensures Segment(Offload(w)) <==> Segment(w)
  {
    hide Offload;
    OffloadBits(w);
    HighBits(w);
    HighBits(Offload(w));
  }

  lemma HighBits(w: uint32)
    ensures w / 0x1000_0000 == w / 0x100_0000 / 0x10 && w / 0x2000_0000 == w / 0x100_0000 / 0x20
  {
  }
}

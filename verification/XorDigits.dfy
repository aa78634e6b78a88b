/** The checksum of the bootloader frames is the exclusive or of their bytes: the digits of
    Bootloader.Xor against the operation on bit vectors. */
module XorDigits {
  import opened Bootloader

  /** Bytes as bit vectors, behind names of their own. */
  function Value(x: bv8): nat { x as int }
  function Vector(n: byte): bv8 { n as bv8 }
  function ExclusiveOr(x: bv8, y: bv8): bv8 { x ^ y }
  function Half(x: bv8): bv8 { x >> 1 }

  lemma HalfValue(x: bv8)
    ensures Value(Half(x)) == Value(x) / 2
  {
  }

  lemma HalfXor(x: bv8, y: bv8)
    ensures Half(ExclusiveOr(x, y)) == ExclusiveOr(Half(x), Half(y))
  {
  }

  function Low(x: bv8): bv8 { x & 1 }

  lemma LowValue(x: bv8)
    ensures Value(x) % 2 == Value(Low(x)) && (Low(x) == 0 || Low(x) == 1)
  {
  }

  lemma LowXor(x: bv8, y: bv8)
    ensures Low(ExclusiveOr(x, y)) == ExclusiveOr(Low(x), Low(y))
  {
  }

  lemma OneBit()
    ensures ExclusiveOr(0, 0) == 0 == ExclusiveOr(1, 1) && ExclusiveOr(0, 1) == 1 == ExclusiveOr(1, 0)
    ensures Value(0) == 0 && Value(1) == 1
  {
  }

  lemma LowBit(x: bv8, y: bv8)
    ensures Value(ExclusiveOr(x, y)) % 2 == (Value(x) + Value(y)) % 2
  {
    hide ExclusiveOr, Value, Low;
    LowXor(x, y);
    LowValue(x);
    LowValue(y);
    LowValue(ExclusiveOr(x, y));
    SumParity(Value(x), Value(y));
    OneBit();
  }

  lemma SumParity(a: int, b: int)
    ensures (a + b) % 2 == (a % 2 + b % 2) % 2
  {
  }

  lemma ZeroVector(x: bv8)
    ensures Value(x) == 0 ==> x == 0
  {
  }

  lemma {:induction false} XorBits(x: bv8, y: bv8, k: nat)
    requires Value(x) < Limit(k) && Value(y) < Limit(k)
    ensures XorLow(Value(x), Value(y), k) == Value(ExclusiveOr(x, y))
    decreases k
  {
    hide Value, Half, ExclusiveOr;
    if k == 0 {
      ZeroVector(x);
      ZeroVector(y);
      OneBit();
    } else {
      HalfValue(x);
      HalfValue(y);
      HalfXor(x, y);
      HalfValue(ExclusiveOr(x, y));
      LowBit(x, y);
      XorBits(Half(x), Half(y), k - 1);
    }
  }

  lemma VectorValue(n: byte)
    ensures Value(Vector(n)) == n % 0x100
  {
  }

  lemma XorIsExclusiveOr(a: byte, b: byte)
    ensures Xor(a, b) == ((a as bv8) ^ (b as bv8)) as int
  {
    hide Xor;
    XorNamed(a, b);
  }

  lemma XorNamed(a: byte, b: byte)
    ensures Xor(a, b) == Value(ExclusiveOr(Vector(a), Vector(b)))
  {
    hide Value, Vector, ExclusiveOr;
    VectorValue(a);
    VectorValue(b);
    assert Limit(8) == 256;
    Small(a);
    Small(b);
    XorBits(Vector(a), Vector(b), 8);
  }

  lemma Small(n: byte)
    ensures n % 0x100 == n
  {
  }

  /** The exclusive or of all bytes. */
  function XorAll(s: seq<byte>): bv8 {
    if s == [] then 0 else ExclusiveOr(XorAll(s[..|s| - 1]), Vector(s[|s| - 1]))
  }

  lemma VectorOf(x: bv8)
    ensures Value(x) < 0x100 && Vector(Value(x)) == x
  {
  }

  /** Section 3 of AN3155: the checksum of a frame. */
  lemma {:induction false} ChecksumIsXor(s: seq<byte>)
    ensures Checksum(s) == Value(XorAll(s))
  {
    hide Value, Vector, ExclusiveOr, Xor;
    if s == [] {
      OneBit();
    } else {
      ChecksumIsXor(s[..|s| - 1]);
      XorNamed(Checksum(s[..|s| - 1]), s[|s| - 1]);
      VectorOf(XorAll(s[..|s| - 1]));
    }
  }
}

/** The CRC-32 of main/crc32.c (polynomial 0x04c11db7, most significant bit first, no
    final inversion).  One clock of the shift register is the reference; the lookup table,
    the hardware unit fed with whole words and the bit-by-bit remainder all compute it. */
module Crc32 {
  const POLY: bv32 := 0x04c11db7

  /** The 32-bit shift register. */
  datatype Register = Register(bits: bv32)

  const INITIAL := Register(0xffffffff)

  predicate Top(c: bv32) { c & 0x80000000 != 0 }

  function Xor(a: bv32, b: bv32): bv32 { a ^ b }

  /** One clock of the shift register. */
  function Step(c: bv32): bv32 {
    if Top(c) then (c << 1) ^ POLY else c << 1
  }

  function Steps(c: bv32, n: nat): bv32
    decreases n
  {
    if n == 0 then c else Steps(Step(c), n - 1)
  }

  /** A byte in the most significant position of a word. */
  function High(b: bv8): bv32 { (b as bv32) << 24 }

  /** The CRC extended by one byte: the byte enters at the top and eight clocks follow. */
  function ByteStep(c: Register, b: bv8): Register {
    Register(Steps(Xor(c.bits, High(b)), 8))
  }

  /** The CRC extended by one word: the word enters as a whole and 32 clocks follow. */
  function WordStep(c: Register, w: bv32): Register {
    Register(Steps(Xor(c.bits, w), 32))
  }

  /** The CRC of a byte string, started at c. */
  function Crc(c: Register, s: seq<bv8>): Register {
    if s == [] then c else ByteStep(Crc(c, s[..|s| - 1]), s[|s| - 1])
  }

  lemma CrcEmpty(c: Register)
    ensures Crc(c, []) == c
  {}

  lemma CrcSnoc(c: Register, s: seq<bv8>, b: bv8)
    ensures Crc(c, s + [b]) == ByteStep(Crc(c, s), b)
  {
    assert (s + [b])[..|s + [b]| - 1] == s;
  }

  lemma {:induction false} CrcConcat(c: Register, s: seq<bv8>, t: seq<bv8>)
    ensures Crc(c, s + t) == Crc(Crc(c, s), t)
  {
    if t == [] {
      assert s + t == s;
    } else {
      assert (s + t)[..|s + t| - 1] == s + t[..|t| - 1];
      CrcConcat(c, s, t[..|t| - 1]);
    }
  }

  // ---------- Linearity of the shift register over GF(2) ----------

  lemma TopOfXor(a: bv32, b: bv32)
    ensures Top(a ^ b) == (Top(a) != Top(b))
  {}

  lemma StepLinearLow(a: bv32, b: bv32)
    requires !Top(b)
    ensures Step(a ^ b) == Step(a) ^ Step(b)
  {
    TopOfXor(a, b);
    if Top(a) {} else {}
  }

  lemma StepLinearHigh(a: bv32, b: bv32)
    requires Top(b)
    ensures Step(a ^ b) == Step(a) ^ Step(b)
  {
    TopOfXor(a, b);
    if Top(a) {} else {}
  }

  lemma StepLinear(a: bv32, b: bv32)
    ensures Step(Xor(a, b)) == Xor(Step(a), Step(b))
  {
    if Top(b) { StepLinearHigh(a, b); } else { StepLinearLow(a, b); }
  }

  lemma {:induction false} StepsLinear(a: bv32, b: bv32, n: nat)
    ensures Steps(Xor(a, b), n) == Xor(Steps(a, n), Steps(b, n))
    decreases n
  {
    if n > 0 {
      StepLinear(a, b);
      StepsLinear(Step(a), Step(b), n - 1);
    }
  }

  lemma {:induction false} StepsAdd(c: bv32, m: nat, n: nat)
    ensures Steps(c, m + n) == Steps(Steps(c, m), n)
    decreases m
  {
    if m > 0 {
      StepsAdd(Step(c), m - 1, n);
    }
  }

  function Step4(c: bv32): bv32 { Step(Step(Step(Step(c)))) }

  lemma StepsEight(c: bv32)
    ensures Steps(c, 8) == Step4(Step4(c))
  {
    var d := Step4(c);
    assert Steps(c, 8) == Steps(Step(c), 7) == Steps(Step(Step(c)), 6) == Steps(Step(Step(Step(c))), 5) == Steps(d, 4);
    assert Steps(d, 4) == Steps(Step(d), 3) == Steps(Step(Step(d)), 2)
        == Steps(Step(Step(Step(d))), 1) == Steps(Step4(d), 0);
  }

  /** Eight clocks of a register whose top byte is clear only shift it. */
  lemma StepsOfLow(x: bv32)
    requires x & 0xff000000 == 0
    ensures Steps(x, 8) == x << 8
  {
    StepsEight(x);
  }

  // ---------- A word is four bytes ----------

  lemma XorAssoc(a: bv32, b: bv32, c: bv32)
    ensures Xor(Xor(a, b), c) == Xor(a, Xor(b, c))
  {}

  lemma XorComm(a: bv32, b: bv32)
    ensures Xor(a, b) == Xor(b, a)
  {}

  /** read_be4: the first byte is the most significant one. */
  function BigEndian(b0: bv8, b1: bv8, b2: bv8, b3: bv8): bv32 {
    Xor(High(b0), Below(b1, b2, b3))
  }

  function Below(b1: bv8, b2: bv8, b3: bv8): bv32 {
    ((b1 as bv32) << 16) | ((b2 as bv32) << 8) | (b3 as bv32)
  }

  lemma BelowShift(b1: bv8, b2: bv8, b3: bv8)
    ensures Below(b1, b2, b3) & 0xff000000 == 0
    ensures Below(b1, b2, b3) << 8 == Xor(High(b1), Below(b2, b3, 0))
  {
    BitsShift(b1 as bv32, b2 as bv32, b3 as bv32);
  }

  lemma BitsShift(x: bv32, y: bv32, z: bv32)
    requires x < 256 && y < 256 && z < 256
    ensures ((x << 16) | (y << 8) | z) & 0xff000000 == 0
    ensures ((x << 16) | (y << 8) | z) << 8 == (x << 24) ^ ((y << 16) | (z << 8) | 0)
  {}

  /** Eight clocks of a word take in its top byte and shift the rest up. */
  lemma PeelByte(c: bv32, b: bv8, b1: bv8, b2: bv8, b3: bv8)
    ensures Steps(Xor(c, BigEndian(b, b1, b2, b3)), 8) == Xor(Steps(Xor(c, High(b)), 8), BigEndian(b1, b2, b3, 0))
  {
    var rest := Below(b1, b2, b3);
    XorAssoc(c, High(b), rest);
    StepsLinear(Xor(c, High(b)), rest, 8);
    BelowShift(b1, b2, b3);
    StepsOfLow(rest);
  }

  /** One more byte of the word: m + 8 clocks are eight clocks on the byte, then m on the rest. */
  lemma PeelRegister(c: Register, b: bv8, b1: bv8, b2: bv8, b3: bv8, m: nat)
    ensures Register(Steps(Xor(c.bits, BigEndian(b, b1, b2, b3)), 8 + m))
         == Register(Steps(Xor(ByteStep(c, b).bits, BigEndian(b1, b2, b3, 0)), m))
  {
    StepsAdd(Xor(c.bits, BigEndian(b, b1, b2, b3)), 8, m);
    PeelByte(c.bits, b, b1, b2, b3);
  }

  lemma WordIsFourBytes(c: Register, b0: bv8, b1: bv8, b2: bv8, b3: bv8)
    ensures WordStep(c, BigEndian(b0, b1, b2, b3)) == Crc(c, [b0, b1, b2, b3])
  {
    hide Steps, Xor, BigEndian, Crc;
    var c1 := ByteStep(c, b0);
    var c2 := ByteStep(c1, b1);
    var c3 := ByteStep(c2, b2);
    PeelRegister(c, b0, b1, b2, b3, 24);
    PeelRegister(c1, b1, b2, b3, 0, 16);
    PeelRegister(c2, b2, b3, 0, 0, 8);
    PeelRegister(c3, b3, 0, 0, 0, 0);
    XorZero(ByteStep(c3, b3).bits);
    StepsNone(ByteStep(c3, b3).bits);
    CrcFour(c, b0, b1, b2, b3);
  }

  lemma StepsNone(c: bv32)
    ensures Steps(c, 0) == c
  {}

  lemma XorZero(c: bv32)
    ensures Xor(c, BigEndian(0, 0, 0, 0)) == c
  {}

  lemma CrcFour(c: Register, b0: bv8, b1: bv8, b2: bv8, b3: bv8)
    ensures Crc(c, [b0, b1, b2, b3]) == ByteStep(ByteStep(ByteStep(ByteStep(c, b0), b1), b2), b3)
  {
    assert [] + [b0] == [b0] && [b0] + [b1] == [b0, b1];
    assert [b0, b1] + [b2] == [b0, b1, b2] && [b0, b1, b2] + [b3] == [b0, b1, b2, b3];
    hide ByteStep;
    CrcSnoc(c, [], b0);
    CrcSnoc(c, [b0], b1);
    CrcSnoc(c, [b0, b1], b2);
    CrcSnoc(c, [b0, b1, b2], b3);
  }

  // ---------- What the checksum detects ----------

  /** The register never forgets: different contents stay different. */
  lemma StepInjective(a: bv32, b: bv32)
    requires Step(a) == Step(b)
    ensures a == b
  {
    StepLinear(a, b);
    XorSelf(Step(b), 0);
    StepZero(Xor(a, b));
    XorSelf(a, b);
  }

  /** Only the all-zero register is clocked to zero, as the polynomial is odd. */
  lemma StepZero(x: bv32)
    requires Step(x) == 0
    ensures x == 0
  {}

  lemma XorSelf(a: bv32, b: bv32)
    ensures Xor(a, a) == 0
    ensures Xor(a, b) == 0 ==> a == b
  {}

  lemma {:induction false} StepsInjective(a: bv32, b: bv32, n: nat)
    requires Steps(a, n) == Steps(b, n)
    ensures a == b
    decreases n
  {
    if n > 0 {
      StepsInjective(Step(a), Step(b), n - 1);
      StepInjective(a, b);
    }
  }

  lemma XorCancel(a: bv32, b: bv32, x: bv32)
    requires Xor(a, x) == Xor(b, x)
    ensures a == b
  {}

  lemma {:induction false} CrcInjective(a: Register, b: Register, s: seq<bv8>)
    requires Crc(a, s) == Crc(b, s)
    ensures a == b
  {
    if s != [] {
      var last := |s| - 1;
      ByteStepInjective(Crc(a, s[..last]), Crc(b, s[..last]), s[last]);
      CrcInjective(a, b, s[..last]);
    }
  }

  lemma ByteStepInjective(a: Register, b: Register, x: bv8)
    requires ByteStep(a, x) == ByteStep(b, x)
    ensures a == b
  {
    StepsInjective(Xor(a.bits, High(x)), Xor(b.bits, High(x)), 8);
    XorCancel(a.bits, b.bits, High(x));
  }

  lemma WordStepInjective(c: Register, v: bv32, w: bv32)
    requires WordStep(c, v) == WordStep(c, w)
    ensures v == w
  {
    StepsInjective(Xor(c.bits, v), Xor(c.bits, w), 32);
    XorComm(c.bits, v);
    XorComm(c.bits, w);
    XorCancel(v, w, c.bits);
  }

  lemma BigEndianInjective(b0: bv8, b1: bv8, b2: bv8, b3: bv8, d0: bv8, d1: bv8, d2: bv8, d3: bv8)
    requires BigEndian(b0, b1, b2, b3) == BigEndian(d0, d1, d2, d3)
    ensures b0 == d0 && b1 == d1 && b2 == d2 && b3 == d3
  {}

  /** Two images that differ only inside one stretch of four bytes never share a checksum. */
  lemma BurstDetected(c: Register, before: seq<bv8>, s: seq<bv8>, t: seq<bv8>, after: seq<bv8>)
    requires |s| == |t| == 4 && s != t
    ensures Crc(c, before + s + after) != Crc(c, before + t + after)
  {
    if Crc(c, before + s + after) == Crc(c, before + t + after) {
      CrcConcat(c, before + s, after);
      CrcConcat(c, before + t, after);
      CrcInjective(Crc(c, before + s), Crc(c, before + t), after);
      CrcConcat(c, before, s);
      CrcConcat(c, before, t);
      FourBytesInjective(Crc(c, before), s, t);
    }
  }

  lemma FourBytesInjective(c: Register, s: seq<bv8>, t: seq<bv8>)
    requires |s| == |t| == 4
    requires Crc(c, s) == Crc(c, t)
    ensures s == t
  {
    hide Crc, WordStep, BigEndian;
    assert s == [s[0], s[1], s[2], s[3]];
    assert t == [t[0], t[1], t[2], t[3]];
    WordIsFourBytes(c, s[0], s[1], s[2], s[3]);
    WordIsFourBytes(c, t[0], t[1], t[2], t[3]);
    WordStepInjective(c, BigEndian(s[0], s[1], s[2], s[3]), BigEndian(t[0], t[1], t[2], t[3]));
    BigEndianInjective(s[0], s[1], s[2], s[3], t[0], t[1], t[2], t[3]);
  }
}

/** Known values of the checksum, of main/crc32.c and of the word-reversed version. */
module CrcExamples {
  import opened Crc32
  import opened Stm32Crc

  lemma Eight(c: bv32)
    ensures Steps(c, 8) == Step4(Step4(c))
  {
    StepsEight(c);
  }

  lemma Byte(c: bv32, b: bv8, d: bv32)
    requires Step4(Step4(Xor(c, High(b)))) == d
    ensures ByteStep(Register(c), b) == Register(d)
  {
    Eight(Xor(c, High(b)));
  }

  /** The register while the nine digits enter. */
  lemma Digits()
    ensures ByteStep(Register(0xffffffff), 0x31) == Register(0x9efbcf93)
    ensures ByteStep(Register(0x9efbcf93), 0x32) == Register(0x3fec5e6a)
    ensures ByteStep(Register(0x3fec5e6a), 0x33) == Register(0xd952f164)
    ensures ByteStep(Register(0xd952f164), 0x34) == Register(0xa695c4aa)
    ensures ByteStep(Register(0xa695c4aa), 0x35) == Register(0xbd9ab747)
    ensures ByteStep(Register(0xbd9ab747), 0x36) == Register(0xd8f06c8f)
    ensures ByteStep(Register(0xd8f06c8f), 0x37) == Register(0x0d8a14c4)
    ensures ByteStep(Register(0x0d8a14c4), 0x38) == Register(0x49e3c2fb)
    ensures ByteStep(Register(0x49e3c2fb), 0x39) == Register(0x0376e6e7)
  {
    Byte(0xffffffff, 0x31, 0x9efbcf93);
    Byte(0x9efbcf93, 0x32, 0x3fec5e6a);
    Byte(0x3fec5e6a, 0x33, 0xd952f164);
    Byte(0xd952f164, 0x34, 0xa695c4aa);
    Byte(0xa695c4aa, 0x35, 0xbd9ab747);
    Byte(0xbd9ab747, 0x36, 0xd8f06c8f);
    Byte(0xd8f06c8f, 0x37, 0x0d8a14c4);
    Byte(0x0d8a14c4, 0x38, 0x49e3c2fb);
    Byte(0x49e3c2fb, 0x39, 0x0376e6e7);
  }

  /** The check value of this kind of CRC: a start value of all ones, no final inversion, and the
      string "123456789". */
  lemma CheckValue()
    ensures Crc(INITIAL, [0x31, 0x32, 0x33, 0x34, 0x35, 0x36, 0x37, 0x38, 0x39]) == Register(0x0376e6e7)
  {
    hide ByteStep, Crc;
    Digits();
    var s: seq<bv8> := [];
    CrcEmpty(INITIAL);
    CrcSnoc(INITIAL, s, 0x31);
    s := s + [0x31];
    CrcSnoc(INITIAL, s, 0x32);
    s := s + [0x32];
    CrcSnoc(INITIAL, s, 0x33);
    s := s + [0x33];
    CrcSnoc(INITIAL, s, 0x34);
    s := s + [0x34];
    CrcSnoc(INITIAL, s, 0x35);
    s := s + [0x35];
    CrcSnoc(INITIAL, s, 0x36);
    s := s + [0x36];
    CrcSnoc(INITIAL, s, 0x37);
    s := s + [0x37];
    CrcSnoc(INITIAL, s, 0x38);
    s := s + [0x38];
    CrcSnoc(INITIAL, s, 0x39);
    s := s + [0x39];
    assert s == [0x31, 0x32, 0x33, 0x34, 0x35, 0x36, 0x37, 0x38, 0x39];
  }

  /** The word 0x12345678, least significant byte first. */
  lemma Word()
    ensures ByteStep(Register(0xffffffff), 0x12) == Register(0x0b9b5faa)
    ensures ByteStep(Register(0x0b9b5faa), 0x34) == Register(0x77227a2d)
    ensures ByteStep(Register(0x77227a2d), 0x56) == Register(0xbe988657)
    ensures ByteStep(Register(0xbe988657), 0x78) == Register(0xdf8a8a2b)
  {
    Byte(0xffffffff, 0x12, 0x0b9b5faa);
    Byte(0x0b9b5faa, 0x34, 0x77227a2d);
    Byte(0x77227a2d, 0x56, 0xbe988657);
    Byte(0xbe988657, 0x78, 0xdf8a8a2b);
  }

  lemma WordValue()
    ensures SwappedCrc(INITIAL, [0x78, 0x56, 0x34, 0x12]) == Register(0xdf8a8a2b)
  {
    hide ByteStep, Crc;
    Word();
    var s: seq<bv8> := [];
    CrcEmpty(INITIAL);
    CrcSnoc(INITIAL, s, 0x12);
    s := s + [0x12];
    CrcSnoc(INITIAL, s, 0x34);
    s := s + [0x34];
    CrcSnoc(INITIAL, s, 0x56);
    s := s + [0x56];
    CrcSnoc(INITIAL, s, 0x78);
    s := s + [0x78];
    assert s == [0x12, 0x34, 0x56, 0x78];
    var t: seq<bv8> := [0x78, 0x56, 0x34, 0x12];
    assert t[..|t| - 4] == [];
    assert ReverseGroups([]) == [];
    assert ReverseGroups(t) == [] + [t[3], t[2], t[1], t[0]] == s;
  }
}

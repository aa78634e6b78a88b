/** The lookup table of main/crc32.c, entry by entry, and the proof that entry b is eight
    clocks of the shift register started with b in its top byte. */
module Crc32Table {
  import opened Crc32

  const ROW_0: seq<bv32> := [
    0x00000000, 0x04c11db7, 0x09823b6e, 0x0d4326d9,
    0x130476dc, 0x17c56b6b, 0x1a864db2, 0x1e475005,
    0x2608edb8, 0x22c9f00f, 0x2f8ad6d6, 0x2b4bcb61,
    0x350c9b64, 0x31cd86d3, 0x3c8ea00a, 0x384fbdbd
  ]
  const ROW_1: seq<bv32> := [
    0x4c11db70, 0x48d0c6c7, 0x4593e01e, 0x4152fda9,
    0x5f15adac, 0x5bd4b01b, 0x569796c2, 0x52568b75,
    0x6a1936c8, 0x6ed82b7f, 0x639b0da6, 0x675a1011,
    0x791d4014, 0x7ddc5da3, 0x709f7b7a, 0x745e66cd
  ]
  const ROW_2: seq<bv32> := [
    0x9823b6e0, 0x9ce2ab57, 0x91a18d8e, 0x95609039,
    0x8b27c03c, 0x8fe6dd8b, 0x82a5fb52, 0x8664e6e5,
    0xbe2b5b58, 0xbaea46ef, 0xb7a96036, 0xb3687d81,
    0xad2f2d84, 0xa9ee3033, 0xa4ad16ea, 0xa06c0b5d
  ]
  const ROW_3: seq<bv32> := [
    0xd4326d90, 0xd0f37027, 0xddb056fe, 0xd9714b49,
    0xc7361b4c, 0xc3f706fb, 0xceb42022, 0xca753d95,
    0xf23a8028, 0xf6fb9d9f, 0xfbb8bb46, 0xff79a6f1,
    0xe13ef6f4, 0xe5ffeb43, 0xe8bccd9a, 0xec7dd02d
  ]
  const ROW_4: seq<bv32> := [
    0x34867077, 0x30476dc0, 0x3d044b19, 0x39c556ae,
    0x278206ab, 0x23431b1c, 0x2e003dc5, 0x2ac12072,
    0x128e9dcf, 0x164f8078, 0x1b0ca6a1, 0x1fcdbb16,
    0x018aeb13, 0x054bf6a4, 0x0808d07d, 0x0cc9cdca
  ]
  const ROW_5: seq<bv32> := [
    0x7897ab07, 0x7c56b6b0, 0x71159069, 0x75d48dde,
    0x6b93dddb, 0x6f52c06c, 0x6211e6b5, 0x66d0fb02,
    0x5e9f46bf, 0x5a5e5b08, 0x571d7dd1, 0x53dc6066,
    0x4d9b3063, 0x495a2dd4, 0x44190b0d, 0x40d816ba
  ]
  const ROW_6: seq<bv32> := [
    0xaca5c697, 0xa864db20, 0xa527fdf9, 0xa1e6e04e,
    0xbfa1b04b, 0xbb60adfc, 0xb6238b25, 0xb2e29692,
    0x8aad2b2f, 0x8e6c3698, 0x832f1041, 0x87ee0df6,
    0x99a95df3, 0x9d684044, 0x902b669d, 0x94ea7b2a
  ]
  const ROW_7: seq<bv32> := [
    0xe0b41de7, 0xe4750050, 0xe9362689, 0xedf73b3e,
    0xf3b06b3b, 0xf771768c, 0xfa325055, 0xfef34de2,
    0xc6bcf05f, 0xc27dede8, 0xcf3ecb31, 0xcbffd686,
    0xd5b88683, 0xd1799b34, 0xdc3abded, 0xd8fba05a
  ]
  const ROW_8: seq<bv32> := [
    0x690ce0ee, 0x6dcdfd59, 0x608edb80, 0x644fc637,
    0x7a089632, 0x7ec98b85, 0x738aad5c, 0x774bb0eb,
    0x4f040d56, 0x4bc510e1, 0x46863638, 0x42472b8f,
    0x5c007b8a, 0x58c1663d, 0x558240e4, 0x51435d53
  ]
  const ROW_9: seq<bv32> := [
    0x251d3b9e, 0x21dc2629, 0x2c9f00f0, 0x285e1d47,
    0x36194d42, 0x32d850f5, 0x3f9b762c, 0x3b5a6b9b,
    0x0315d626, 0x07d4cb91, 0x0a97ed48, 0x0e56f0ff,
    0x1011a0fa, 0x14d0bd4d, 0x19939b94, 0x1d528623
  ]
  const ROW_A: seq<bv32> := [
    0xf12f560e, 0xf5ee4bb9, 0xf8ad6d60, 0xfc6c70d7,
    0xe22b20d2, 0xe6ea3d65, 0xeba91bbc, 0xef68060b,
    0xd727bbb6, 0xd3e6a601, 0xdea580d8, 0xda649d6f,
    0xc423cd6a, 0xc0e2d0dd, 0xcda1f604, 0xc960ebb3
  ]
  const ROW_B: seq<bv32> := [
    0xbd3e8d7e, 0xb9ff90c9, 0xb4bcb610, 0xb07daba7,
    0xae3afba2, 0xaafbe615, 0xa7b8c0cc, 0xa379dd7b,
    0x9b3660c6, 0x9ff77d71, 0x92b45ba8, 0x9675461f,
    0x8832161a, 0x8cf30bad, 0x81b02d74, 0x857130c3
  ]
  const ROW_C: seq<bv32> := [
    0x5d8a9099, 0x594b8d2e, 0x5408abf7, 0x50c9b640,
    0x4e8ee645, 0x4a4ffbf2, 0x470cdd2b, 0x43cdc09c,
    0x7b827d21, 0x7f436096, 0x7200464f, 0x76c15bf8,
    0x68860bfd, 0x6c47164a, 0x61043093, 0x65c52d24
  ]
  const ROW_D: seq<bv32> := [
    0x119b4be9, 0x155a565e, 0x18197087, 0x1cd86d30,
    0x029f3d35, 0x065e2082, 0x0b1d065b, 0x0fdc1bec,
    0x3793a651, 0x3352bbe6, 0x3e119d3f, 0x3ad08088,
    0x2497d08d, 0x2056cd3a, 0x2d15ebe3, 0x29d4f654
  ]
  const ROW_E: seq<bv32> := [
    0xc5a92679, 0xc1683bce, 0xcc2b1d17, 0xc8ea00a0,
    0xd6ad50a5, 0xd26c4d12, 0xdf2f6bcb, 0xdbee767c,
    0xe3a1cbc1, 0xe760d676, 0xea23f0af, 0xeee2ed18,
    0xf0a5bd1d, 0xf464a0aa, 0xf9278673, 0xfde69bc4
  ]
  const ROW_F: seq<bv32> := [
    0x89b8fd09, 0x8d79e0be, 0x803ac667, 0x84fbdbd0,
    0x9abc8bd5, 0x9e7d9662, 0x933eb0bb, 0x97ffad0c,
    0xafb010b1, 0xab710d06, 0xa6322bdf, 0xa2f33668,
    0xbcb4666d, 0xb8757bda, 0xb5365d03, 0xb1f740b4
  ]
  const ROWS: seq<seq<bv32>> :=
    [ROW_0, ROW_1, ROW_2, ROW_3, ROW_4, ROW_5, ROW_6, ROW_7,
     ROW_8, ROW_9, ROW_A, ROW_B, ROW_C, ROW_D, ROW_E, ROW_F]

  const TABLE: seq<bv32> := Flatten(ROWS)

  function Flatten<T>(rows: seq<seq<T>>): seq<T> {
    if rows == [] then [] else rows[0] + Flatten(rows[1..])
  }

  lemma {:induction false} FlattenAt<T>(rows: seq<seq<T>>, i: nat)
    requires forall k :: 0 <= k < |rows| ==> |rows[k]| == 16
    requires i < 16 * |rows|
    ensures i < |Flatten(rows)| && Flatten(rows)[i] == rows[i / 16][i % 16]
  {
    if i >= 16 {
      FlattenAt(rows[1..], i - 16);
    }
  }

  lemma {:induction false} FlattenLength<T>(rows: seq<seq<T>>)
    requires forall k :: 0 <= k < |rows| ==> |rows[k]| == 16
    ensures |Flatten(rows)| == 16 * |rows|
  {
    if rows != [] {
      FlattenLength(rows[1..]);
    }
  }

  /** What the table should hold at b: eight clocks of the byte alone. */
  function Entry(b: bv8): bv32 { Steps(High(b), 8) }

  /** Sixteen consecutive bytes. */
  function Keys(h: bv8): (k: seq<bv8>)
    ensures |k| == 16
  {
    [h, h + 1, h + 2, h + 3, h + 4, h + 5, h + 6, h + 7,
     h + 8, h + 9, h + 10, h + 11, h + 12, h + 13, h + 14, h + 15]
  }

  function Map<K, T>(f: K -> T, k: seq<K>): seq<T>
    requires |k| == 16
  {
    [f(k[0]), f(k[1]), f(k[2]), f(k[3]), f(k[4]), f(k[5]), f(k[6]), f(k[7]),
     f(k[8]), f(k[9]), f(k[10]), f(k[11]), f(k[12]), f(k[13]), f(k[14]), f(k[15])]
  }

  lemma MapAt<K, T>(f: K -> T, k: seq<K>, i: int)
    requires |k| == 16 && 0 <= i < 16
    ensures Map(f, k)[i] == f(k[i])
  {}

  lemma AllEight()
    ensures forall c :: Steps(c, 8) == Step4(Step4(c))
  {
    forall c ensures Steps(c, 8) == Step4(Step4(c)) { StepsEight(c); }
  }

  function Pick<T>(s: seq<T>, i: int): T
    requires |s| == 16 && 0 <= i < 16
  {
    match i
    case 0 => s[0] case 1 => s[1] case 2 => s[2] case 3 => s[3]
    case 4 => s[4] case 5 => s[5] case 6 => s[6] case 7 => s[7]
    case 8 => s[8] case 9 => s[9] case 10 => s[10] case 11 => s[11]
    case 12 => s[12] case 13 => s[13] case 14 => s[14] case _ => s[15]
  }

  lemma Picked<T>(s: seq<T>, i: int)
    requires |s| == 16 && 0 <= i < 16
    ensures Pick(s, i) == s[i]
  {}

  lemma RowIs0()
    ensures ROW_0 == Map(Entry, Keys(0x00))
  {
    AllEight();
  }

  lemma RowIs1()
    ensures ROW_1 == Map(Entry, Keys(0x10))
  {
    AllEight();
  }

  lemma RowIs2()
    ensures ROW_2 == Map(Entry, Keys(0x20))
  {
    AllEight();
  }

  lemma RowIs3()
    ensures ROW_3 == Map(Entry, Keys(0x30))
  {
    AllEight();
  }

  lemma RowIs4()
    ensures ROW_4 == Map(Entry, Keys(0x40))
  {
    AllEight();
  }

  lemma RowIs5()
    ensures ROW_5 == Map(Entry, Keys(0x50))
  {
    AllEight();
  }

  lemma RowIs6()
    ensures ROW_6 == Map(Entry, Keys(0x60))
  {
    AllEight();
  }

  lemma RowIs7()
    ensures ROW_7 == Map(Entry, Keys(0x70))
  {
    AllEight();
  }

  lemma RowIs8()
    ensures ROW_8 == Map(Entry, Keys(0x80))
  {
    AllEight();
  }

  lemma RowIs9()
    ensures ROW_9 == Map(Entry, Keys(0x90))
  {
    AllEight();
  }

  lemma RowIsA()
    ensures ROW_A == Map(Entry, Keys(0xA0))
  {
    AllEight();
  }

  lemma RowIsB()
    ensures ROW_B == Map(Entry, Keys(0xB0))
  {
    AllEight();
  }

  lemma RowIsC()
    ensures ROW_C == Map(Entry, Keys(0xC0))
  {
    AllEight();
  }

  lemma RowIsD()
    ensures ROW_D == Map(Entry, Keys(0xD0))
  {
    AllEight();
  }

  lemma RowIsE()
    ensures ROW_E == Map(Entry, Keys(0xE0))
  {
    AllEight();
  }

  lemma RowIsF()
    ensures ROW_F == Map(Entry, Keys(0xF0))
  {
    AllEight();
  }

  /** The row of b, the table cut into rows of sixteen. */
  lemma RowAt(b: bv8)
    ensures ROWS[(b >> 4) as int] == Map(Entry, Keys(b & 0xf0))
  {
    hide Map, Entry, Keys;
    Picked(ROWS, (b >> 4) as int);
    match (b >> 4) as int
    case 0 => RowIs0();
    case 1 => RowIs1();
    case 2 => RowIs2();
    case 3 => RowIs3();
    case 4 => RowIs4();
    case 5 => RowIs5();
    case 6 => RowIs6();
    case 7 => RowIs7();
    case 8 => RowIs8();
    case 9 => RowIs9();
    case 10 => RowIsA();
    case 11 => RowIsB();
    case 12 => RowIsC();
    case 13 => RowIsD();
    case 14 => RowIsE();
    case _ => RowIsF();
  }

  lemma KeyAt(b: bv8)
    ensures Keys(b & 0xf0)[(b & 0xf) as int] == b
  {
    Picked(Keys(b & 0xf0), (b & 0xf) as int);
    Nibbles(b);
  }

  lemma Nibbles(b: bv8)
    ensures (b & 0xf0) + (b & 0xf) == b
  {
  }

  lemma NibbleValues(b: bv8)
    ensures b as int / 16 == (b >> 4) as int && b as int % 16 == (b & 0xf) as int
  {
  }

  lemma RowLengths(k: int)
    requires 0 <= k < 16
    ensures |ROWS[k]| == 16
  {
    Picked(ROWS, k);
  }

  lemma TableShape(i: int)
    requires 0 <= i < 256
    ensures |TABLE| == 256 && |ROWS[i / 16]| == 16 && TABLE[i] == ROWS[i / 16][i % 16]
  {
    forall k | 0 <= k < |ROWS| ensures |ROWS[k]| == 16 { RowLengths(k); }
    FlattenAt(ROWS, i);
    FlattenLength(ROWS);
  }

  lemma TableAt(b: bv8)
    ensures |TABLE| == 256 && TABLE[b as int] == Entry(b)
  {
    hide Map, Entry, Keys;
    TableShape(b as int);
    NibbleValues(b);
    RowAt(b);
    KeyAt(b);
    MapAt(Entry, Keys(b & 0xf0), (b & 0xf) as int);
  }
}

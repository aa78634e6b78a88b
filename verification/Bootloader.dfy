/** The STM32 system memory bootloader as AN3155 describes it to a host: frames with an XOR
    checksum, each answered by one acknowledge byte. */
module Bootloader {

  type byte = b: int | 0 <= b < 0x100 witness 0

  const ADDRESS_SPACE: nat := 0x1_0000_0000

  type Address = a: nat | a < ADDRESS_SPACE witness 0

  type Image = Address -> byte

  function Num(b: byte): (n: nat)
    ensures n < 0x100
  {
    b
  }

  /** A number converted to uint8_t. */
  function Byte(n: nat): byte { n % 0x100 }

  lemma NumByte(n: nat)
    ensures Num(Byte(n)) == n % 0x100
  {
  }

  // ---------- Checksums ----------

  function Limit(bits: nat): nat { if bits == 0 then 1 else 2 * Limit(bits - 1) }

  /** The exclusive or of the low bits of two numbers: each digit of the result is the digit of
      their sum without carry. */
  function XorLow(a: nat, b: nat, bits: nat): (r: nat)
    ensures r < Limit(bits)
    decreases bits
  {
    if bits == 0 then 0 else (a + b) % 2 + 2 * XorLow(a / 2, b / 2, bits - 1)
  }

  function Xor(a: byte, b: byte): byte { XorLow(a, b, 8) }

  lemma {:induction false} XorLowSelf(a: nat, bits: nat)
    ensures XorLow(a, a, bits) == 0
    decreases bits
  {
    if bits > 0 {
      XorLowSelf(a / 2, bits - 1);
    }
  }

  lemma {:induction false} XorLowZero(a: nat, bits: nat)
    requires a < Limit(bits)
    ensures XorLow(0, a, bits) == a
    decreases bits
  {
    if bits > 0 {
      XorLowZero(a / 2, bits - 1);
    }
  }

  lemma XorSelf(a: byte)
    ensures Xor(a, a) == 0
  {
    XorLowSelf(a, 8);
  }

  lemma XorZero(a: byte)
    ensures Xor(0, a) == a
  {
    XorLowZero(a, 8);
  }

  function Checksum(s: seq<byte>): byte {
    if s == [] then 0 else Xor(Checksum(s[..|s| - 1]), s[|s| - 1])
  }

  lemma ChecksumAppend(s: seq<byte>, b: byte)
    ensures Checksum(s + [b]) == Xor(Checksum(s), b)
  {
    assert (s + [b])[..|s|] == s;
  }

  lemma ChecksumEmpty()
    ensures Checksum([]) == 0
  {
  }

  /** A frame with its checksum behind it adds up to zero. */
  lemma ChecksumCloses(s: seq<byte>)
    ensures Checksum(s + [Checksum(s)]) == 0
  {
    ChecksumAppend(s, Checksum(s));
    XorSelf(Checksum(s));
  }

  // ---------- Numbers in frames ----------

  function AddressOf(f: seq<byte>): Address
    requires |f| >= 4
  {
    0x100_0000 * Num(f[0]) + 0x1_0000 * Num(f[1]) + 0x100 * Num(f[2]) + Num(f[3])
  }

  function AddressBytes(a: Address): (f: seq<byte>)
    ensures |f| == 4
  {
    [Byte(a / 0x100_0000), Byte(a / 0x1_0000), Byte(a / 0x100), Byte(a)]
  }

  lemma AddressRoundTrip(a: Address, tail: seq<byte>)
    ensures AddressOf(AddressBytes(a) + tail) == a
  {
    hide Num, Byte;
    NumByte(a / 0x100_0000);
    NumByte(a / 0x1_0000);
    NumByte(a / 0x100);
    NumByte(a);
    Digits(a);
  }

  lemma Digits(a: Address)
    ensures a / 0x100_0000 % 0x100 == a / 0x100_0000
    ensures 0x100_0000 * (a / 0x100_0000) + 0x1_0000 * (a / 0x1_0000 % 0x100)
            + 0x100 * (a / 0x100 % 0x100) + a % 0x100 == a
  {
    var b := a / 0x100;
    var c := b / 0x100;
    assert a / 0x1_0000 == c && a / 0x100_0000 == c / 0x100;
  }

  function PairOf(hi: byte, lo: byte): (n: nat)
    ensures n < 0x1_0000
  {
    0x100 * Num(hi) + Num(lo)
  }

  function PairBytes(n: nat): (f: seq<byte>)
    ensures |f| == 2
  {
    [Byte(n / 0x100), Byte(n)]
  }

  /** Two bytes keep sixteen bits. */
  lemma PairRoundTrip(n: nat)
    ensures PairOf(PairBytes(n)[0], PairBytes(n)[1]) == n % 0x1_0000
  {
    hide Num, Byte;
    NumByte(n / 0x100);
    NumByte(n);
    PairDigits(n);
  }

  lemma PairDigits(n: nat)
    ensures 0x100 * (n / 0x100 % 0x100) + n % 0x100 == n % 0x1_0000
  {
    var b := n / 0x100;
    LowWord(n, b / 0x100, 0x100 * (b % 0x100) + n % 0x100);
  }

  lemma LowWord(n: nat, high: nat, low: nat)
    requires n == 0x1_0000 * high + low && low < 0x1_0000
    ensures n % 0x1_0000 == low
  {
  }

  /** A list of page numbers, two bytes each, most significant first. */
  function Pages(f: seq<byte>): (p: seq<nat>)
    requires |f| % 2 == 0
    ensures |p| == |f| / 2
  {
    if f == [] then [] else Pages(f[..|f| - 2]) + [PairOf(f[|f| - 2], f[|f| - 1])]
  }

  /** A list of page numbers of one byte each. */
  function Numbers(f: seq<byte>): (p: seq<nat>)
    ensures |p| == |f|
  {
    if f == [] then [] else Numbers(f[..|f| - 1]) + [Num(f[|f| - 1])]
  }

  function Range(from: nat, n: nat): (s: seq<nat>)
    ensures |s| == n
  {
    seq(n, i requires 0 <= i < n => from + i)
  }

  /** What page numbers of two bytes, or of one, keep of a range of pages. */
  function CutRange(wide: bool, from: nat, n: nat): (s: seq<nat>)
    ensures |s| == n
  {
    if wide then seq(n, i requires 0 <= i < n => (from + i) % 0x1_0000)
    else seq(n, i requires 0 <= i < n => (from + i) % 0x100)
  }

  /** Cut pages are the pages meant if and only if every number fits. */
  lemma CutRangeMeant(wide: bool, from: nat, n: nat)
    requires n > 0
    ensures CutRange(wide, from, n) == Range(from, n) <==> from + n <= if wide then 0x1_0000 else 0x100
  {
    if from + n <= if wide then 0x1_0000 else 0x100 {
      assert CutRange(wide, from, n) == Range(from, n);
    } else {
      assert CutRange(wide, from, n)[n - 1] < from + n - 1 == Range(from, n)[n - 1];
    }
  }

  // ---------- The device ----------

  datatype Phase =
    | Command
    | WriteAddress
    | WriteData(address: Address)
    | GoAddress
    | EraseCount                 // count and list in one frame, or the count alone
    | ErasePages(count: nat)
    | Started(at: Address)

  datatype Device = Device(phase: Phase, mem: Image, erased: seq<nat>, massErased: nat)

  /** Which commands the device takes, whether its erase command is the regular one with numbers
      of one byte, and whether the count of an erase is a frame of its own (AN4221, the I2C
      protocol). */
  datatype Setup = Setup(write: byte, go: byte, erase: byte, regular: bool, countFrame: bool)

  const NONE: byte := 0xFF     // stands for a command the device does not have

  predicate SetupValid(z: Setup) {
    (z.write != z.go || z.write == NONE) && (z.write != z.erase || z.write == NONE) && (z.go != z.erase || z.go == NONE)
  }

  datatype Reaction = Reaction(device: Device, ack: bool)

  function Store(mem: Image, a: nat, s: seq<byte>): Image {
    (x: Address) => if a <= x < a + |s| then s[x - a] else mem(x)
  }

  /** What the device does with a frame. */
  function React(z: Setup, d: Device, f: seq<byte>): Reaction {
    match d.phase
    case Command =>
      if |f| == 2 && Xor(f[0], 0xFF) == f[1] then
        if f[0] == z.write then Reaction(d.(phase := WriteAddress), true)
        else if f[0] == z.go then Reaction(d.(phase := GoAddress), true)
        else if f[0] == z.erase then Reaction(d.(phase := EraseCount), true)
        else Reaction(d, false)
      else Reaction(d, false)
    case WriteAddress =>
      if |f| == 5 && Checksum(f) == 0 && AddressOf(f) % 4 == 0 then Reaction(d.(phase := WriteData(AddressOf(f))), true)
      else Reaction(d.(phase := Command), false)
    case WriteData(a) =>
      if |f| > 2 && |f| == Num(f[0]) + 3 && (Num(f[0]) + 1) % 4 == 0 && Checksum(f) == 0 then
        Reaction(d.(phase := Command, mem := Store(d.mem, a, f[1..|f| - 1])), true)
      else Reaction(d.(phase := Command), false)
    case GoAddress =>
      if |f| == 5 && Checksum(f) == 0 then Reaction(d.(phase := Started(AddressOf(f))), true)
      else Reaction(d.(phase := Command), false)
    case EraseCount => if z.regular then ReactRegular(z, d, f) else ReactExtended(z, d, f)
    case ErasePages(n) =>
      if z.regular then
        if |f| == n + 1 && Checksum(f) == 0 then
          Reaction(d.(phase := Command, erased := d.erased + Numbers(f[..|f| - 1])), true)
        else Reaction(d.(phase := Command), false)
      else if |f| == 2 * n + 1 && Checksum(f) == 0 then
        Reaction(d.(phase := Command, erased := d.erased + Pages(f[..|f| - 1])), true)
      else Reaction(d.(phase := Command), false)
    case Started(_) => Reaction(d, false)
  }

  /** The extended erase command: counts and page numbers of two bytes, 0xFFFF for all. */
  function ReactExtended(z: Setup, d: Device, f: seq<byte>): Reaction {
    if |f| < 3 || Checksum(f) != 0 then Reaction(d.(phase := Command), false)
    else
      var n := PairOf(f[0], f[1]) + 1;
      if |f| == 3 && n == 0x1_0000 then Reaction(d.(phase := Command, massErased := d.massErased + 1), true)
      else if z.countFrame then
        if |f| == 3 && n <= 0xFFF0 then Reaction(d.(phase := ErasePages(n)), true)
        else Reaction(d.(phase := Command), false)
      else if |f| == 2 * n + 3 && n <= 0xFFF0 then
        Reaction(d.(phase := Command, erased := d.erased + Pages(f[2..|f| - 1])), true)
      else Reaction(d.(phase := Command), false)
  }

  /** The regular erase command: counts and page numbers of one byte, 0xFF with its complement
      for all. */
  function ReactRegular(z: Setup, d: Device, f: seq<byte>): Reaction {
    if |f| == 2 && f[0] == 0xFF && f[1] == 0x00 then
      Reaction(d.(phase := Command, massErased := d.massErased + 1), true)
    else if |f| < 2 || Checksum(f) != 0 || f[0] == 0xFF then Reaction(d.(phase := Command), false)
    else
      var n := Num(f[0]) + 1;
      if z.countFrame then
        if |f| == 2 then Reaction(d.(phase := ErasePages(n)), true) else Reaction(d.(phase := Command), false)
      else if |f| == n + 2 then
        Reaction(d.(phase := Command, erased := d.erased + Numbers(f[1..|f| - 1])), true)
      else Reaction(d.(phase := Command), false)
  }

  /** `after` is `before` with the bytes s at a, and no other change. */
  predicate Holds(after: Image, before: Image, a: nat, s: seq<byte>) {
    forall x: Address :: after(x) == if a <= x < a + |s| then s[x - a] else before(x)
  }

  lemma HoldsNothing(m: Image, a: nat)
    ensures Holds(m, m, a, [])
  {
  }

  lemma HoldsAppend(m2: Image, m1: Image, m0: Image, a: nat, s: seq<byte>, t: seq<byte>)
    requires Holds(m1, m0, a, s) && Holds(m2, m1, a + |s|, t)
    ensures Holds(m2, m0, a, s + t)
  {
  }

  // ---------- What the frames of the host do ----------

  lemma CommandTaken(z: Setup, d: Device, cmd: byte)
    requires SetupValid(z) && d.phase == Command && cmd != NONE
    ensures
      React(z, d, [cmd, Xor(cmd, 0xFF)]) ==
        (if cmd == z.write then Reaction(d.(phase := WriteAddress), true)
         else if cmd == z.go then Reaction(d.(phase := GoAddress), true)
         else if cmd == z.erase then Reaction(d.(phase := EraseCount), true)
         else Reaction(d, false))
  {
  }

  function AddressFrame(a: Address): seq<byte> { AddressBytes(a) + [Checksum(AddressBytes(a))] }

  lemma AddressTaken(z: Setup, d: Device, a: Address)
    requires d.phase == WriteAddress || d.phase == GoAddress
    ensures React(z, d, AddressFrame(a)) ==
      if d.phase == GoAddress then Reaction(d.(phase := Started(a)), true)
      else if a % 4 == 0 then Reaction(d.(phase := WriteData(a)), true)
      else Reaction(d.(phase := Command), false)
  {
    hide Checksum, AddressOf, AddressBytes;
    ChecksumCloses(AddressBytes(a));
    AddressRoundTrip(a, [Checksum(AddressBytes(a))]);
  }

  lemma StoreHolds(mem: Image, a: nat, s: seq<byte>)
    ensures Holds(Store(mem, a, s), mem, a, s)
  {
  }

  /** Count, data, checksum. */
  function DataFrame(s: seq<byte>): seq<byte>
    requires 0 < |s|
  {
    var front := [Byte(|s| - 1)] + s;
    front + [Checksum(front)]
  }

  lemma WholeData(z: Setup, d: Device, f: seq<byte>)
    requires d.phase.WriteData? && |f| > 2 && |f| == Num(f[0]) + 3 && (Num(f[0]) + 1) % 4 == 0 && Checksum(f) == 0
    ensures React(z, d, f)
         == Reaction(d.(phase := Command, mem := Store(d.mem, d.phase.address, f[1..|f| - 1])), true)
  {
    hide Num, Checksum, Store;
  }

  lemma DataTaken(z: Setup, d: Device, s: seq<byte>)
    requires d.phase.WriteData? && 0 < |s| <= 256 && |s| % 4 == 0
    ensures React(z, d, DataFrame(s))
         == Reaction(d.(phase := Command, mem := Store(d.mem, d.phase.address, s)), true)
  {
    hide Num, Byte, Store, Checksum, React;
    NumByte(|s| - 1);
    var front := [Byte(|s| - 1)] + s;
    ChecksumCloses(front);
    var f := DataFrame(s);
    assert f[0] == front[0] && f[1..|f| - 1] == s;
    WholeData(z, d, f);
  }

  /** Page numbers `from`.. as the host lists them. */
  function PageList(from: nat, n: nat): (f: seq<byte>)
    ensures |f| == 2 * n
  {
    if n == 0 then [] else PageList(from, n - 1) + PairBytes(from + n - 1)
  }

  lemma {:induction false} PageListNames(from: nat, n: nat)
    ensures Pages(PageList(from, n)) == CutRange(true, from, n)
  {
    hide PageList, PairBytes, PairOf, Pages, CutRange;
    if n == 0 {
      NoPages(from);
    } else {
      PageListNames(from, n - 1);
      PairRoundTrip(from + n - 1);
      PagesAppend(PageList(from, n - 1), PairBytes(from + n - 1));
      PageListStep(from, n);
    }
  }

  lemma NoPages(from: nat)
    ensures Pages(PageList(from, 0)) == CutRange(true, from, 0)
  {
  }

  lemma PageListStep(from: nat, n: nat)
    requires n > 0
    ensures PageList(from, n) == PageList(from, n - 1) + PairBytes(from + n - 1)
    ensures CutRange(true, from, n) == CutRange(true, from, n - 1) + [(from + n - 1) % 0x1_0000]
  {
  }

  lemma PagesAppend(f: seq<byte>, pair: seq<byte>)
    requires |f| % 2 == 0 && |pair| == 2
    ensures Pages(f + pair) == Pages(f) + [PairOf(pair[0], pair[1])]
  {
    hide PairOf;
    assert (f + pair)[..|f|] == f;
  }

  function Closed(f: seq<byte>): seq<byte> { f + [Checksum(f)] }

  lemma WholeList(z: Setup, d: Device, f: seq<byte>, list: seq<byte>, n: nat)
    requires d.phase == EraseCount && !z.regular && !z.countFrame && 0 < n <= 0xFFF0 && |list| % 2 == 0
    requires |f| == |list| + 3 && Checksum(f) == 0 && PairOf(f[0], f[1]) == n - 1 && f[2..|f| - 1] == list
    ensures
      if |list| == 2 * n then React(z, d, f) == Reaction(d.(phase := Command, erased := d.erased + Pages(list)), true)
      else React(z, d, f) == Reaction(d.(phase := Command), false)
  {
    hide Checksum, PairOf, Pages;
  }

  lemma ListInside(pair: seq<byte>, list: seq<byte>, cs: byte)
    requires |pair| == 2
    ensures
      var f := pair + list + [cs];
      f[0] == pair[0] && f[1] == pair[1] && f[2..|f| - 1] == list
  {
  }

  /** Count and list in one frame: it is taken if and only if the list is as long as the count. */
  lemma EraseTaken(z: Setup, d: Device, from: nat, n: nat, listed: nat)
    requires d.phase == EraseCount && !z.regular && !z.countFrame && 0 < n <= 0xFFF0
    ensures
      var r := React(z, d, Closed(PairBytes(n - 1) + PageList(from, listed)));
      if listed == n then r == Reaction(d.(phase := Command, erased := d.erased + CutRange(true, from, n)), true)
      else r == Reaction(d.(phase := Command), false)
  {
    hide Checksum, PairBytes, PairOf, Pages, CutRange, PageList, React;
    var pair, list := PairBytes(n - 1), PageList(from, listed);
    ChecksumCloses(pair + list);
    PairRoundTrip(n - 1);
    PageListNames(from, listed);
    ListInside(pair, list, Checksum(pair + list));
    WholeList(z, d, Closed(pair + list), list, n);
  }

  /** The count in a frame of its own. */
  lemma CountTaken(z: Setup, d: Device, n: nat)
    requires d.phase == EraseCount && !z.regular && z.countFrame && 0 < n <= 0xFFF0
    ensures React(z, d, Closed(PairBytes(n - 1))) == Reaction(d.(phase := ErasePages(n)), true)
  {
    hide Checksum, PairBytes, PairOf;
    ChecksumCloses(PairBytes(n - 1));
    PairRoundTrip(n - 1);
    var f := Closed(PairBytes(n - 1));
    assert f[0] == PairBytes(n - 1)[0] && f[1] == PairBytes(n - 1)[1];
  }

  lemma ListTaken(z: Setup, d: Device, n: nat, from: nat, listed: nat)
    requires d.phase == ErasePages(n) && !z.regular
    ensures
      var r := React(z, d, Closed(PageList(from, listed)));
      if listed == n then r == Reaction(d.(phase := Command, erased := d.erased + CutRange(true, from, n)), true)
      else r == Reaction(d.(phase := Command), false)
  {
    var front := PageList(from, listed);
    hide Checksum, Pages, CutRange, PageList;
    ChecksumCloses(front);
    PageListNames(from, listed);
    var f := Closed(front);
    assert f[..|f| - 1] == front;
  }

  lemma MassEraseTaken(z: Setup, d: Device)
    requires d.phase == EraseCount && !z.regular
    ensures React(z, d, [0xFF, 0xFF, 0x00]) == Reaction(d.(phase := Command, massErased := d.massErased + 1), true)
  {
    hide Checksum, Xor;
    MassChecksum();
  }

  lemma MassChecksum()
    ensures Checksum([0xFF, 0xFF, 0x00]) == 0
  {
    hide Checksum, Xor;
    var none: seq<byte> := [];
    ChecksumEmpty();
    ChecksumAppend(none, 0xFF);
    ChecksumAppend(none + [0xFF], 0xFF);
    ChecksumAppend(none + [0xFF] + [0xFF], 0x00);
    XorZero(0xFF);
    XorSelf(0xFF);
    XorZero(0);
    assert none + [0xFF] + [0xFF] + [0x00] == [0xFF, 0xFF, 0x00];
  }

  // ---------- The regular erase command ----------

  /** Page numbers cut to one byte, as the host lists them. */
  function ByteList(from: nat, n: nat): (f: seq<byte>)
    ensures |f| == n
  {
    if n == 0 then [] else ByteList(from, n - 1) + [Byte(from + n - 1)]
  }

  lemma {:induction false} ByteListNames(from: nat, n: nat)
    ensures Numbers(ByteList(from, n)) == CutRange(false, from, n)
  {
    hide ByteList, Byte, Num, Numbers, CutRange;
    if n == 0 {
      NoNumbers(from);
    } else {
      ByteListNames(from, n - 1);
      NumByte(from + n - 1);
      NumbersAppend(ByteList(from, n - 1), Byte(from + n - 1));
      ByteListStep(from, n);
    }
  }

  lemma NoNumbers(from: nat)
    ensures Numbers(ByteList(from, 0)) == CutRange(false, from, 0)
  {
  }

  lemma ByteListStep(from: nat, n: nat)
    requires n > 0
    ensures ByteList(from, n) == ByteList(from, n - 1) + [Byte(from + n - 1)]
    ensures CutRange(false, from, n) == CutRange(false, from, n - 1) + [(from + n - 1) % 0x100]
  {
  }

  lemma NumbersAppend(f: seq<byte>, b: byte)
    ensures Numbers(f + [b]) == Numbers(f) + [Num(b)]
  {
    hide Num;
    assert (f + [b])[..|f|] == f;
  }

  function RegularFrame(from: nat, n: nat, listed: nat): seq<byte>
    requires n > 0
  {
    Closed([Byte(n - 1)] + ByteList(from, listed))
  }

  lemma RegularShape(from: nat, n: nat, listed: nat)
    requires n > 0
    ensures
      var f := RegularFrame(from, n, listed);
      && |f| == listed + 2 && f[0] == Byte(n - 1) && Checksum(f) == 0 && f[1..|f| - 1] == ByteList(from, listed)
      && (listed == 0 ==> f[1] == f[0])
  {
    hide Byte, Checksum;
    ChecksumCloses([Byte(n - 1)] + ByteList(from, listed));
    CountChecksum(Byte(n - 1));
    assert listed == 0 ==> [Byte(n - 1)] + ByteList(from, listed) == [Byte(n - 1)];
  }

  lemma CountChecksum(b: byte)
    ensures Checksum([b]) == b
  {
    hide Checksum, Xor;
    var none: seq<byte> := [];
    ChecksumEmpty();
    ChecksumAppend(none, b);
    XorZero(b);
    assert none + [b] == [b];
  }

  lemma CountByte(n: nat)
    requires 0 < n
    ensures Num(Byte(n - 1)) + 1 == n <==> n <= 256
    ensures n <= 511 ==> (Byte(n - 1) == 0xFF <==> n == 256)
  {
    hide Num, Byte;
    NumByte(n - 1);
    LastByte(Byte(n - 1));
  }

  lemma LastByte(b: byte)
    ensures b == 0xFF <==> Num(b) == 255
  {
  }

  /** The batches of up to 511 pages do not suit this command: one is taken if and only if it has
      at most 255 pages, all of them listed. */
  lemma RegularTaken(z: Setup, d: Device, from: nat, n: nat, listed: nat)
    requires d.phase == EraseCount && z.regular && !z.countFrame && 0 < n <= 511 && (listed == n || listed == 0)
    ensures
      var r := React(z, d, RegularFrame(from, n, listed));
      if n <= 255 && listed == n then
        r == Reaction(d.(phase := Command, erased := d.erased + CutRange(false, from, n)), true)
      else r == Reaction(d.(phase := Command), false)
  {
    hide Num, Byte, Checksum, Numbers, CutRange, ByteList, RegularFrame;
    RegularShape(from, n, listed);
    CountByte(n);
    ByteListNames(from, listed);
  }

  lemma RegularCountTaken(z: Setup, d: Device, n: nat)
    requires d.phase == EraseCount && z.regular && z.countFrame && 0 < n <= 511
    ensures
      var r := React(z, d, [Byte(n - 1), Byte(n - 1)]);
      if n == 256 then r == Reaction(d.(phase := Command), false)
      else r == Reaction(d.(phase := ErasePages(if n < 256 then n else n - 256)), true)
  {
    hide Num, Byte, Checksum;
    CountByte(n);
    NumByte(n - 1);
    TwiceTheSame(Byte(n - 1));
  }

  lemma TwiceTheSame(b: byte)
    ensures Checksum([b, b]) == 0
  {
    hide Checksum, Xor;
    var none: seq<byte> := [];
    ChecksumEmpty();
    ChecksumAppend(none, b);
    XorZero(b);
    ChecksumAppend(none + [b], b);
    XorSelf(b);
    assert none + [b] + [b] == [b, b];
  }

  lemma RegularListTaken(z: Setup, d: Device, m: nat, from: nat, n: nat)
    requires d.phase == ErasePages(m) && z.regular
    ensures
      var r := React(z, d, Closed(ByteList(from, n)));
      if m == n then r == Reaction(d.(phase := Command, erased := d.erased + CutRange(false, from, n)), true)
      else r == Reaction(d.(phase := Command), false)
  {
    hide Checksum, Numbers, CutRange, ByteList;
    ChecksumCloses(ByteList(from, n));
    ByteListNames(from, n);
    var f := Closed(ByteList(from, n));
    assert f[..|f| - 1] == ByteList(from, n);
  }

  lemma RegularMassEraseTaken(z: Setup, d: Device)
    requires d.phase == EraseCount && z.regular
    ensures React(z, d, [0xFF, Xor(0xFF, 0xFF)]) == Reaction(d.(phase := Command, massErased := d.massErased + 1), true)
  {
    hide Xor, Checksum;
    XorSelf(0xFF);
  }
}

/** eth_desc_init of libopencm3/lib/ethernet/mac_stm32fxx7.c: two descriptor rings in one area. */
module EthInit {
  import opened EthMemory
  import opened EthRing
  import opened EthQueue

  const STD_SIZE: nat := 16
  const EXT_SIZE: nat := 32
  const TCH: uint32 := 0x10_0000         // TDES0_TCH, bit 20

  /** RDES1_RCH | n, bit 14. */
  function WithRch(n: uint32): (r: uint32)
    requires n / 0x4000 % 2 == 1 || n + 0x4000 < TWO_32
    ensures r / 0x4000 % 2 == 1 && r % 0x4000 == n % 0x4000 && r / 0x8000 == n / 0x8000
  {
    if n / 0x4000 % 2 == 1 then n else n + 0x4000
  }

  function Zeroes(n: nat): (s: seq<byte>)
    ensures |s| == n
  {
    seq(n, _ => 0)
  }

  /** Cell i is built: its first two words, and its links. */
  ghost predicate Built(l: Layout, m: Image, w0: uint32, w1: uint32, i: nat)
    requires i < l.n
  {
    Word(m, l.Cell(i)) == w0 && Word(m, l.Cell(i) + 4) == w1 && l.LinkedCell(m, i)
  }

  /** The first k cells are built. */
  ghost predicate BuiltTo(l: Layout, m: Image, w0: uint32, w1: uint32, k: nat)
    requires k <= l.n
  {
    forall i: nat | i < k :: Built(l, m, w0, w1, i)
  }

  lemma BuiltKept(l: Layout, after: Image, before: Image, w0: uint32, w1: uint32, k: nat, a: nat, n: nat)
    requires l.Valid() && k <= l.n && BuiltTo(l, before, w0, w1, k) && Only(after, before, a, n)
    requires a >= l.Cell(k)
    ensures BuiltTo(l, after, w0, w1, k)
  {
    hide Word, Only;
    forall i: nat | i < k ensures Built(l, after, w0, w1, i) {
      assert Built(l, before, w0, w1, i);
      l.CellOrder(i, k);
      WordKept(after, before, a, n, l.Cell(i));
      WordKept(after, before, a, n, l.Cell(i) + 4);
      WordKept(after, before, a, n, l.Cell(i) + 8);
      WordKept(after, before, a, n, l.Cell(i) + 12);
    }
  }

  lemma BuiltLinks(l: Layout, m: Image, w0: uint32, w1: uint32)
    requires BuiltTo(l, m, w0, w1, l.n)
    ensures l.Linked(m)
  {
    hide Word;
    forall i: nat | i < l.n ensures l.LinkedCell(m, i) {
      assert Built(l, m, w0, w1, i);
    }
  }

  /** A ring of which the DMA owns nothing is an empty queue. */
  lemma BuiltEmpty(l: Layout, m: Image, w0: uint32, w1: uint32)
    requires l.n > 0 && BuiltTo(l, m, w0, w1, l.n) && !Owned(w0)
    ensures Queues(l, m, 0, [])
  {
    hide Word, Owned;
    forall j: nat | j < l.n ensures Holds(l, m, 0, [], j) {
      assert Built(l, m, w0, w1, l.Plus(0, j));
    }
  }

  ghost predicate Zero(m: Image, a: nat, end: nat) {
    forall x: nat | a <= x < end :: m(x) == 0
  }

  /** The first k cells are clear behind their four words. */
  ghost predicate BuffersZero(l: Layout, m: Image, k: nat)
  {
    forall i: nat | i < k :: Zero(m, l.Cell(i) + 16, l.Cell(i) + l.Stride())
  }

  lemma Cleared(m: Image, a: nat, n: nat)
    ensures Zero(PutBytes(m, a, Zeroes(n)), a, a + n)
  {
  }

  lemma ZeroPart(m: Image, a: nat, end: nat, b: nat, stop: nat)
    requires Zero(m, a, end) && a <= b && stop <= end
    ensures Zero(m, b, stop)
  {
  }

  lemma ZeroKept(after: Image, before: Image, a: nat, n: nat, b: nat, end: nat)
    requires Zero(before, b, end) && Only(after, before, a, n) && (a + n <= b || end <= a)
    ensures Zero(after, b, end)
  {
  }

  lemma ZeroWord(m: Image, a: nat, end: nat)
    requires Zero(m, a, end) && a + 8 <= end
    ensures Word(m, a + 4) == 0
  {
  }

  lemma NoBuffers(l: Layout, m: Image)
    ensures BuffersZero(l, m, 0)
  {
  }

  /** One more descriptor is written over the first 16 bytes of its cell. */
  lemma NextZero(l: Layout, after: Image, before: Image, i: nat)
    requires l.Valid() && i < l.n && Zero(before, l.Cell(i), l.Cell(l.n)) && BuffersZero(l, before, i)
    requires Only(after, before, l.Cell(i), 16) && l.Cell(i + 1) == l.Cell(i) + l.Stride() <= l.Cell(l.n)
    ensures Zero(after, l.Cell(i + 1), l.Cell(l.n)) && BuffersZero(l, after, i + 1)
  {
    hide Only, Zero;
    ZeroPart(before, l.Cell(i), l.Cell(l.n), l.Cell(i + 1), l.Cell(l.n));
    ZeroKept(after, before, l.Cell(i), 16, l.Cell(i + 1), l.Cell(l.n));
    ZeroPart(before, l.Cell(i), l.Cell(l.n), l.Cell(i) + 16, l.Cell(i) + l.Stride());
    ZeroKept(after, before, l.Cell(i), 16, l.Cell(i) + 16, l.Cell(i) + l.Stride());
    forall j: nat | j < i ensures Zero(after, l.Cell(j) + 16, l.Cell(j) + l.Stride()) {
      l.CellOrder(j, i);
      ZeroKept(after, before, l.Cell(i), 16, l.Cell(j) + 16, l.Cell(j) + l.Stride());
    }
  }

  lemma BuffersKept(l: Layout, after: Image, before: Image, a: nat, n: nat)
    requires l.Valid() && BuffersZero(l, before, l.n) && Only(after, before, a, n) && l.Cell(l.n) <= a
    ensures BuffersZero(l, after, l.n)
  {
    hide Only, Zero;
    forall j: nat | j < l.n ensures Zero(after, l.Cell(j) + 16, l.Cell(j) + l.Stride()) {
      l.CellOrder(j, l.n);
      ZeroKept(after, before, a, n, l.Cell(j) + 16, l.Cell(j) + l.Stride());
    }
  }

  class Mac {
    var mem: Image
    var txbd: nat
    var rxbd: nat

    constructor (mem: Image)
      ensures this.mem == mem
    {
      this.mem, txbd, rxbd := mem, 0, 0;
    }

    method SetWord(a: nat, v: uint32)
      modifies `mem
      ensures Word(mem, a) == v && Only(mem, old(mem), a, 4)
    {
      WordPut(mem, a, v);
      mem := PutWord(mem, a, v);
    }

    /** One descriptor: its words, its buffer, and the next descriptor.  The source writes the second
        word of receive descriptors only. */
    method SetDescriptor(bd: nat, w0: uint32, receive: bool, w1: uint32, buffer: uint32, next: uint32)
      requires receive || Word(mem, bd + 4) == w1
      modifies `mem
      ensures Word(mem, bd) == w0 && Word(mem, bd + 4) == w1
      ensures Word(mem, bd + 8) == buffer && Word(mem, bd + 12) == next
      ensures Only(mem, old(mem), bd, 16)
    {
      hide Word, Only;
      ghost var m0 := mem;
      SetWord(bd, w0);
      ghost var m1 := mem;
      OnlyWider(m1, m0, bd, 4, bd, 16);
      WordKept(m1, m0, bd, 4, bd + 4);
      if receive {
        SetWord(bd + 4, w1);
        OnlyWider(mem, m1, bd + 4, 4, bd, 16);
        OnlyTwice(mem, m1, m0, bd, 16);
        WordKept(mem, m1, bd + 4, 4, bd);
      }
      ghost var m2 := mem;
      SetWord(bd + 8, buffer);
      ghost var m3 := mem;
      OnlyWider(m3, m2, bd + 8, 4, bd, 16);
      OnlyTwice(m3, m2, m0, bd, 16);
      WordKept(m3, m2, bd + 8, 4, bd);
      WordKept(m3, m2, bd + 8, 4, bd + 4);
      SetWord(bd + 12, next);
      OnlyWider(mem, m3, bd + 12, 4, bd, 16);
      OnlyTwice(mem, m3, m0, bd, 16);
      WordKept(mem, m3, bd + 12, 4, bd);
      WordKept(mem, m3, bd + 12, 4, bd + 4);
      WordKept(mem, m3, bd + 12, 4, bd + 8);
    }

    /** One of the two loops: chains count descriptors from bd on and closes the ring.  The area has
        been cleared before, and the buffers stay so. */
    method BuildRing(base: nat, count: nat, sz: nat, room: nat, w0: uint32, receive: bool, w1: uint32)
      returns (end: nat)
      requires
        var l := Layout(base, count, sz, room);
        l.Valid() && Zero(mem, base, l.Cell(count)) && (receive || w1 == 0)
      modifies `mem
      ensures
        var l := Layout(base, count, sz, room);
        && end == l.Cell(count) >= base && BuiltTo(l, mem, w0, w1, count) && Only(mem, old(mem), base, end - base)
        && BuffersZero(l, mem, count)
    {
      ghost var l := Layout(base, count, sz, room);
      ghost var m0 := mem;
      hide Word, Only, l.Cell, Built, Zero, BuffersZero;
      var bd := base;
      var left := count - 1;
      ghost var i := 0;
      StartOfRing(l, mem, w0, w1);
      NoBuffers(l, mem);
      while left > 0
        invariant 0 <= left && 0 <= i && i + left + 1 == count
        invariant bd == l.Cell(i) && BuiltTo(l, mem, w0, w1, i)
        invariant Only(mem, m0, base, l.Cell(count) - base)
        invariant Zero(mem, bd, l.Cell(count)) && BuffersZero(l, mem, i)
        decreases left
      {
        ghost var before := mem;
        l.CellBounds(i);
        l.CellBounds(i + 1);
        ZeroWord(mem, bd, l.Cell(count));
        SetDescriptor(bd, w0, receive, w1, bd + sz, bd + sz + room);
        NextBuilt(l, mem, before, m0, w0, w1, i);
        NextZero(l, mem, before, i);
        bd := Word(mem, bd + 12);
        left := left - 1;
        i := i + 1;
      }
      ghost var before := mem;
      l.CellBounds(i);
      ZeroWord(mem, bd, l.Cell(count));
      SetDescriptor(bd, w0, receive, w1, bd + sz, base);
      NextBuilt(l, mem, before, m0, w0, w1, i);
      NextZero(l, mem, before, i);
      end := bd + sz + room;
    }

    /** eth_desc_init: the transmit ring, then the receive ring, in the area at buf.  The two fill
        it from end to end; the processor owns all transmit descriptors, the DMA all receive
        descriptors, both chained (bit 20 of TDES0, bit 14 of RDES1), the buffers are cleared, and
        nothing outside the area changes. */
    method DescInit(buf: nat, nTx: nat, nRx: nat, cTx: nat, cRx: uint32, isext: bool)
      requires nTx > 0 && nRx > 0 && buf > 0 && cRx < 0x1_0000
      requires buf + AreaSize(nTx, nRx, cTx, cRx, isext) < TWO_32
      modifies this
      ensures
        var sz := if isext then 32 else 16;
        var tx := Layout(buf, nTx, sz, cTx);
        var rx := Layout(tx.Cell(nTx), nRx, sz, cRx);
        && tx.Valid() && rx.Valid() && rx.Cell(nRx) == buf + AreaSize(nTx, nRx, cTx, cRx, isext)
        && txbd == tx.base && rxbd == rx.base
        && tx.Linked(mem) && rx.Linked(mem) && Queues(tx, mem, 0, [])
        && BuiltTo(tx, mem, 0x10_0000, 0, nTx) && BuiltTo(rx, mem, 0x8000_0000, WithRch(cRx), nRx)
        && BuffersZero(tx, mem, nTx) && BuffersZero(rx, mem, nRx)
        && Only(mem, old(mem), buf, AreaSize(nTx, nRx, cTx, cRx, isext))
    {
      hide Word, Only, Queues, WithRch, BuiltTo, Built, PutBytes, Zero, BuffersZero;
      var sz := if isext then EXT_SIZE else STD_SIZE;
      ghost var size := AreaSize(nTx, nRx, cTx, cRx, isext);
      ghost var tx := Layout(buf, nTx, sz, cTx);
      ghost var rx := Layout(tx.Cell(nTx), nRx, sz, cRx);
      ghost var m0 := mem;
      AreaOfRings(tx, rx, size);
      hide Layout.Cell, AreaSize;
      BytesPut(mem, buf, Zeroes(AreaSize(nTx, nRx, cTx, cRx, isext)));
      mem := PutBytes(mem, buf, Zeroes(AreaSize(nTx, nRx, cTx, cRx, isext)));
      ghost var m1 := mem;
      Cleared(m0, buf, size);
      ZeroPart(m1, buf, buf + size, buf, tx.Cell(nTx));
      ZeroPart(m1, buf, buf + size, tx.Cell(nTx), buf + size);
      txbd := buf;
      var bd := BuildRing(buf, nTx, sz, cTx, TCH, false, 0);
      ghost var m2 := mem;
      OnlyWider(m2, m1, buf, bd - buf, buf, size);
      OnlyTwice(m2, m1, m0, buf, size);
      rxbd := bd;
      ZeroKept(m2, m1, buf, bd - buf, bd, buf + size);
      var end := BuildRing(bd, nRx, sz, cRx, OWN, true, WithRch(cRx));
      BuffersKept(tx, mem, m2, bd, end - bd);
      OnlyWider(mem, m2, bd, end - bd, buf, size);
      OnlyTwice(mem, m2, m0, buf, size);
      BuiltKept(tx, mem, m2, TCH, 0, nTx, bd, end - bd);
      BuiltLinks(tx, mem, TCH, 0);
      BuiltLinks(rx, mem, OWN, WithRch(cRx));
      BuiltEmpty(tx, mem, TCH, 0);
    }
  }

  /** The bytes memset clears. */
  function AreaSize(nTx: nat, nRx: nat, cTx: nat, cRx: nat, isext: bool): nat {
    var sz := if isext then 32 else 16;
    nTx * (cTx + sz) + nRx * (cRx + sz)
  }

  /** The two rings tile the area. */
  lemma AreaOfRings(tx: Layout, rx: Layout, size: nat)
    requires tx.n > 0 && rx.n > 0 && tx.base > 0 && tx.sz == rx.sz >= 16 && rx.base == tx.Cell(tx.n)
    requires size == tx.n * (tx.room + tx.sz) + rx.n * (rx.room + rx.sz) && tx.base + size < TWO_32
    ensures tx.Valid() && rx.Valid() && rx.Cell(rx.n) == tx.base + size
    ensures tx.base <= tx.Cell(tx.n) <= rx.Cell(rx.n)
  {
    tx.CellIsProduct(tx.n);
    rx.CellIsProduct(rx.n);
  }

  /** A cell of one ring and a cell of the other do not overlap. */
  lemma RingsDisjoint(tx: Layout, rx: Layout, i: nat, j: nat)
    requires rx.base == tx.Cell(tx.n) && i < tx.n && j < rx.n
    ensures tx.Cell(i) + tx.Stride() <= rx.Cell(j)
  {
    tx.CellBounds(i);
    rx.CellBounds(j);
  }

  lemma StartOfRing(l: Layout, m: Image, w0: uint32, w1: uint32)
    requires l.Valid()
    ensures l.Cell(0) == l.base && l.base <= l.Cell(l.n) && BuiltTo(l, m, w0, w1, 0)
    ensures Only(m, m, l.base, l.Cell(l.n) - l.base)
  {
    l.CellBounds(0);
  }

  lemma NextBuilt(l: Layout, after: Image, before: Image, m0: Image, w0: uint32, w1: uint32, i: nat)
    requires l.Valid() && i < l.n && BuiltTo(l, before, w0, w1, i)
    requires l.base <= l.Cell(i) && l.Cell(i) + l.Stride() <= l.Cell(l.n)
    requires Only(after, before, l.Cell(i), 16) && Only(before, m0, l.base, l.Cell(l.n) - l.base)
    requires Word(after, l.Cell(i)) == w0 && Word(after, l.Cell(i) + 4) == w1
    requires Word(after, l.Cell(i) + 8) == l.Cell(i) + l.sz
    requires Word(after, l.Cell(i) + 12) == if i + 1 < l.n then l.Cell(i) + l.Stride() else l.base
    ensures l.Cell(i + 1) == l.Cell(i) + l.Stride()
    ensures BuiltTo(l, after, w0, w1, i + 1) && Only(after, m0, l.base, l.Cell(l.n) - l.base)
  {
    hide Word, Only;
    BuiltKept(l, after, before, w0, w1, i, l.Cell(i), 16);
    OnlyWider(after, before, l.Cell(i), 16, l.base, l.Cell(l.n) - l.base);
    OnlyTwice(after, before, m0, l.base, l.Cell(l.n) - l.base);
    assert l.Cell(0) == l.base;
    assert Built(l, after, w0, w1, i);
  }
}

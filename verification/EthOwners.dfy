/** Who owns the descriptors of a ring, and what the DMA may do to them behind the back of the
    processor. */
module EthOwners {
  import opened EthMemory
  import opened EthRing
  import opened EthQueue

  /** How many of the first k cells the DMA owns. */
  function OwnedCount(l: Layout, m: Image, k: nat): nat {
    if k == 0 then 0 else OwnedCount(l, m, k - 1) + if Owned(Word(m, l.Cell(k - 1))) then 1 else 0
  }

  /** The first word of no cell but the i-th changed. */
  ghost predicate OnlyCell(l: Layout, after: Image, before: Image, i: nat) {
    forall j: nat | j < l.n && j != i :: Word(after, l.Cell(j)) == Word(before, l.Cell(j))
  }

  lemma OneCell(l: Layout, after: Image, before: Image, i: nat)
    requires l.Valid() && i < l.n && Only(after, before, l.Cell(i), 4)
    ensures OnlyCell(l, after, before, i)
  {
    hide Word, Only;
    forall j: nat | j < l.n && j != i ensures Word(after, l.Cell(j)) == Word(before, l.Cell(j)) {
      l.CellsDisjoint(i, j);
      WordKept(after, before, l.Cell(i), 4, l.Cell(j));
    }
  }

  lemma {:induction false} CountAfter(l: Layout, after: Image, before: Image, i: nat, k: nat)
    requires i < l.n && k <= l.n && OnlyCell(l, after, before, i)
    ensures
      var before0, after0 := Owned(Word(before, l.Cell(i))), Owned(Word(after, l.Cell(i)));
      OwnedCount(l, after, k) ==
        OwnedCount(l, before, k) + if k <= i || before0 == after0 then 0 else if after0 then 1 else -1
  {
    hide Word, Owned;
    if k > 0 {
      CountAfter(l, after, before, i, k - 1);
    }
  }

  lemma {:induction false} CountNone(l: Layout, m: Image, k: nat)
    requires k <= l.n && forall i: nat | i < l.n :: !Owned(Word(m, l.Cell(i)))
    ensures OwnedCount(l, m, k) == 0
  {
    hide Word, Owned;
    if k > 0 {
      CountNone(l, m, k - 1);
    }
  }

  /** As many cells are owned as frames are queued. */
  lemma {:induction false} QueueCount(l: Layout, m: Image, d: nat, queue: seq<seq<byte>>)
    requires l.Valid() && l.Linked(m) && Queues(l, m, d, queue)
    ensures OwnedCount(l, m, l.n) == |queue|
    decreases |queue|
  {
    hide Word, Owned, Only, PutWord, Released, OwnedCount, FrameIn;
    if queue == [] {
      forall i: nat | i < l.n ensures !Owned(Word(m, l.Cell(i))) {
        PlaceFrom(l, d, i);
        assert Holds(l, m, d, queue, if i >= d then i - d else i + l.n - d);
      }
      CountNone(l, m, l.n);
    } else {
      assert Holds(l, m, d, queue, 0);
      var after := PutWord(m, l.Cell(d), Released(Word(m, l.Cell(d))));
      WordPut(m, l.Cell(d), Released(Word(m, l.Cell(d))));
      l.LinksKept(after, m, d, l.Cell(d), 4);
      OneCell(l, after, m, d);
      CountAfter(l, after, m, d, l.n);
      OnlyWider(after, m, l.Cell(d), 4, l.Cell(d), l.Stride());
      Pop(l, after, m, d, queue);
      QueueCount(l, after, l.After(d), queue[1..]);
    }
  }

  lemma PlaceFrom(l: Layout, d: nat, i: nat)
    requires d < l.n && i < l.n
    ensures l.Plus(d, if i >= d then i - d else i + l.n - d) == i
  {
  }

  // ---------- Segment marks ----------

  /** Every frame the DMA owns is marked as a whole one. */
  ghost predicate Segments(l: Layout, m: Image) {
    forall i: nat | i < l.n :: Owned(Word(m, l.Cell(i))) ==> Segment(Word(m, l.Cell(i)))
  }

  lemma SegmentsKept(l: Layout, after: Image, before: Image, k: nat)
    requires Segments(l, before) && k < l.n && OnlyCell(l, after, before, k)
    requires Owned(Word(after, l.Cell(k))) ==> Segment(Word(after, l.Cell(k)))
    ensures Segments(l, after)
  {
    hide Word, Owned, Segment;
    forall i: nat | i < l.n && Owned(Word(after, l.Cell(i))) ensures Segment(Word(after, l.Cell(i))) {
      if i != k {
        assert Word(after, l.Cell(i)) == Word(before, l.Cell(i));
      }
    }
  }

  /** Changes of a cell behind its status word. */
  lemma StatusKept(l: Layout, after: Image, before: Image, k: nat, a: nat, len: nat)
    requires l.Valid() && k < l.n && Segments(l, before) && Only(after, before, a, len)
    requires l.Cell(k) + 4 <= a && a + len <= l.Cell(k) + l.Stride()
    ensures Segments(l, after)
  {
    hide Word, Only, Owned, Segment;
    forall i: nat | i < l.n ensures Word(after, l.Cell(i)) == Word(before, l.Cell(i)) {
      if i != k {
        l.CellsDisjoint(i, k);
      }
      WordKept(after, before, a, len, l.Cell(i));
    }
  }

  lemma NoSegments(l: Layout, m: Image, d: nat)
    requires l.n > 0 && Queues(l, m, d, [])
    ensures Segments(l, m)
  {
    hide Word, Owned, Segment;
    forall i: nat | i < l.n ensures !Owned(Word(m, l.Cell(i))) {
      PlaceFrom(l, d, i);
      assert Holds(l, m, d, [], if i >= d then i - d else i + l.n - d);
    }
  }

  // ---------- What the DMA does to a status word ----------

  /** The DMA has left a word alone or released it. */
  predicate Aging(after: uint32, before: uint32) { after == before || after == Released(before) }

  ghost predicate Aged(l: Layout, after: Image, before: Image) {
    forall i: nat | i < l.n :: Aging(Word(after, l.Cell(i)), Word(before, l.Cell(i)))
  }

  lemma AgingItself(w: uint32)
    ensures Aging(w, w)
  {
  }

  lemma AgedItself(l: Layout, m: Image)
    ensures Aged(l, m, m)
  {
  }

  lemma AgingTwice(c: uint32, b: uint32, a: uint32)
    requires Aging(c, b) && Aging(b, a)
    ensures Aging(c, a) && (Owned(c) ==> Owned(a))
  {
  }

  lemma AgedTwice(l: Layout, m2: Image, m1: Image, m0: Image)
    requires Aged(l, m2, m1) && Aged(l, m1, m0)
    ensures Aged(l, m2, m0)
  {
    hide Word, Aging;
    forall i: nat | i < l.n ensures Aging(Word(m2, l.Cell(i)), Word(m0, l.Cell(i))) {
      AgingTwice(Word(m2, l.Cell(i)), Word(m1, l.Cell(i)), Word(m0, l.Cell(i)));
    }
  }

  lemma OneAged(l: Layout, after: Image, before: Image, i: nat)
    requires i < l.n && OnlyCell(l, after, before, i)
    requires Word(after, l.Cell(i)) == Released(Word(before, l.Cell(i)))
    ensures Aged(l, after, before)
  {
    hide Word, Released;
    forall j: nat | j < l.n ensures Aging(Word(after, l.Cell(j)), Word(before, l.Cell(j))) {
      if j != i {
        assert Word(after, l.Cell(j)) == Word(before, l.Cell(j));
      }
    }
  }

  // ---------- Offload bits ----------

  /** From cell t on: the first `steps` cells have their offload bits set, and the DMA has done
      what it does to all. */
  ghost predicate Marked(l: Layout, m: Image, m0: Image, t: nat, steps: nat)
    requires t < l.n
  {
    forall j: nat | j < l.n :: MarkedCell(l, m, m0, t, steps, j)
  }

  predicate MarkedCell(l: Layout, m: Image, m0: Image, t: nat, steps: nat, j: nat)
    requires t < l.n && j < l.n
  {
    var a := l.Cell(l.Plus(t, j));
    Aging(Word(m, a), if j < steps then Offload(Word(m0, a)) else Word(m0, a))
  }

  lemma OffloadAging(b: uint32, a: uint32)
    requires Aging(b, a)
    ensures Aging(Offload(b), Offload(a))
  {
    hide Offload;
    OffloadReleased(a);
  }

  /** The bits set are not the bit of the owner. */
  lemma OffloadReleased(w: uint32)
    ensures Offload(Released(w)) == Released(Offload(w))
  {
    var v := Released(w);
    hide Offload;
    OffloadBelow(v);
    if Owned(w) {
      TopBit(w, v);
      OffloadTop(w, v);
      ModOwn(Offload(v));
    } else {
      ModOwn(w);
    }
  }

  lemma TopBit(w: uint32, v: uint32)
    requires v < OWN && w == OWN + v
    ensures w / 0x100_0000 == 128 + v / 0x100_0000 && w % 0x40_0000 == v % 0x40_0000
  {
  }

  lemma OffloadTop(w: uint32, v: uint32)
    requires w / 0x100_0000 == 128 + v / 0x100_0000 && w % 0x40_0000 == v % 0x40_0000
    ensures Offload(w) == OWN + Offload(v)
  {
  }

  lemma ModOwn(n: nat)
    requires n < OWN
    ensures n % OWN == n && (OWN + n) % OWN == n
  {
  }

  lemma OffloadBelow(v: uint32)
    requires v < OWN
    ensures Offload(v) < OWN
  {
  }

  lemma MarkedNone(l: Layout, m: Image, t: nat)
    requires t < l.n
    ensures Marked(l, m, m, t, 0)
  {
  }

  /** One turn of the walk: the cell at its place is marked, the DMA did what it does. */
  lemma MarkOne(l: Layout, after: Image, before: Image, m0: Image, t: nat, steps: nat)
    requires l.n > 0 && t < l.n && steps < l.n && Marked(l, before, m0, t, steps)
    requires
      var k := l.Plus(t, steps);
      && (forall i: nat | i < l.n && i != k :: Aging(Word(after, l.Cell(i)), Word(before, l.Cell(i))))
      && Aging(Word(after, l.Cell(k)), Offload(Word(before, l.Cell(k))))
    ensures Marked(l, after, m0, t, steps + 1)
  {
    hide Word, Offload, Aging;
    var more := steps + 1;
    forall j: nat | j < l.n ensures MarkedCell(l, after, m0, t, more, j) {
      assert MarkedCell(l, before, m0, t, steps, j);
      var a := l.Cell(l.Plus(t, j));
      if j != steps {
        l.PlusDistinct(t, j, steps);
        AgingTwice(Word(after, a), Word(before, a), if j < steps then Offload(Word(m0, a)) else Word(m0, a));
      } else {
        OffloadAging(Word(before, a), Word(m0, a));
        AgingTwice(Word(after, a), Offload(Word(before, a)), Offload(Word(m0, a)));
      }
    }
  }

  lemma AllMarked(l: Layout, m: Image, m0: Image, t: nat)
    requires t < l.n && Marked(l, m, m0, t, l.n)
    ensures forall i: nat | i < l.n :: Aging(Word(m, l.Cell(i)), Offload(Word(m0, l.Cell(i))))
  {
    hide Word, Offload, Aging;
    forall i: nat | i < l.n ensures Aging(Word(m, l.Cell(i)), Offload(Word(m0, l.Cell(i)))) {
      PlaceFrom(l, t, i);
      assert MarkedCell(l, m, m0, t, l.n, if i >= t then i - t else i + l.n - t);
    }
  }

  lemma SameOwner(w: uint32)
    ensures (Owned(Offload(w)) <==> Owned(w)) && (Segment(Offload(w)) <==> Segment(w))
  {
    OffloadSegment(w);
  }

  /** Setting offload bits leaves the queue alone. */
  lemma Recoloured(l: Layout, after: Image, before: Image, k: nat, d: nat, queue: seq<seq<byte>>)
    requires l.Valid() && l.Linked(before) && Queues(l, before, d, queue) && k < l.n
    requires Only(after, before, l.Cell(k), 4)
    requires Word(after, l.Cell(k)) == Offload(Word(before, l.Cell(k)))
    ensures Queues(l, after, d, queue)
  {
    hide Word, Only, Offload, Owned, Bytes, FrameIn;
    forall j: nat | j < l.n ensures EthQueue.Holds(l, after, d, queue, j) {
      assert EthQueue.Holds(l, before, d, queue, j);
      var i := l.Plus(d, j);
      if i != k {
        OnlyWider(after, before, l.Cell(k), 4, l.Cell(k), l.Stride());
        CellKept(l, after, before, k, i);
      } else {
        SameOwner(Word(before, l.Cell(k)));
        SameFrame(l, after, before, k);
      }
    }
  }

  lemma SameFrame(l: Layout, after: Image, before: Image, k: nat)
    requires l.Valid() && k < l.n && l.Linked(before) && Only(after, before, l.Cell(k), 4)
    ensures FrameIn(l, after, k) == FrameIn(l, before, k)
  {
    hide Word, Only, Bytes;
    assert l.LinkedCell(before, k);
    WordKept(after, before, l.Cell(k), 4, l.Cell(k) + 4);
    WordKept(after, before, l.Cell(k), 4, l.Cell(k) + 8);
    BytesKept(after, before, l.Cell(k), 4, l.Cell(k) + l.sz, |FrameIn(l, before, k)|);
  }

  /** Only a whole turn leads back to the start. */
  lemma BackAtStart(l: Layout, t: nat, steps: nat)
    requires l.Valid() && t < l.n && steps < l.n
    ensures l.Cell(l.Plus(t, steps + 1)) == l.Cell(t) <==> steps + 1 == l.n
  {
    if steps + 1 < l.n {
      l.PlusDistinct(t, steps + 1, 0);
      l.CellsDisjoint(l.Plus(t, steps + 1), t);
    }
  }
}

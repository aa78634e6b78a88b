/** A transmit ring as a queue of frames: the cells the DMA owns, in ring order from where it
    reads, hold the frames handed over and not yet sent. */
module EthQueue {
  import opened EthMemory
  import opened EthRing

  const LENGTH_FIELD: nat := 0x2000       // TBS1 is 13 bits wide

  /** The frame in a cell as the DMA reads it. */
  function FrameIn(l: Layout, m: Image, i: nat): seq<byte>
    requires i < l.n
  {
    Bytes(m, Word(m, l.Cell(i) + 8), Word(m, l.Cell(i) + 4) % LENGTH_FIELD)
  }

  predicate OwnedCell(l: Layout, m: Image, i: nat)
    requires i < l.n
  {
    Owned(Word(m, l.Cell(i)))
  }

  /** From cell d on: the first |queue| cells are owned by the DMA and hold the queue, the others
      are not. */
  ghost predicate Queues(l: Layout, m: Image, d: nat, queue: seq<seq<byte>>)
    requires l.n > 0
  {
    && d < l.n && |queue| <= l.n
    && forall j: nat | j < l.n :: Holds(l, m, d, queue, j)
  }

  ghost predicate Holds(l: Layout, m: Image, d: nat, queue: seq<seq<byte>>, j: nat)
    requires d < l.n && j < l.n
  {
    var i := l.Plus(d, j);
    && (OwnedCell(l, m, i) <==> j < |queue|)
    && (j < |queue| ==> FrameIn(l, m, i) == queue[j] && |queue[j]| <= l.room)
  }

  /** A cell does not notice changes of another cell. */
  lemma CellKept(l: Layout, after: Image, before: Image, k: nat, i: nat)
    requires l.Valid() && k < l.n && i < l.n && i != k && l.Linked(before)
    requires Only(after, before, l.Cell(k), l.Stride())
    ensures OwnedCell(l, after, i) == OwnedCell(l, before, i)
    ensures |FrameIn(l, before, i)| <= l.room ==> FrameIn(l, after, i) == FrameIn(l, before, i)
  {
    hide Only, Word, Bytes;
    l.CellsDisjoint(i, k);
    assert l.LinkedCell(before, i);
    WordKept(after, before, l.Cell(k), l.Stride(), l.Cell(i));
    WordKept(after, before, l.Cell(k), l.Stride(), l.Cell(i) + 4);
    WordKept(after, before, l.Cell(k), l.Stride(), l.Cell(i) + 8);
    if |FrameIn(l, before, i)| <= l.room {
      BytesKept(after, before, l.Cell(k), l.Stride(), l.Cell(i) + l.sz, |FrameIn(l, before, i)|);
    }
  }

  /** The cell behind the queue is handed over. */
  lemma Push(l: Layout, after: Image, before: Image, d: nat, queue: seq<seq<byte>>, p: seq<byte>)
    requires l.Valid() && l.Linked(before) && Queues(l, before, d, queue) && |queue| < l.n
    requires Only(after, before, l.Cell(l.Plus(d, |queue|)), l.Stride())
    requires OwnedCell(l, after, l.Plus(d, |queue|)) && FrameIn(l, after, l.Plus(d, |queue|)) == p && |p| <= l.room
    ensures Queues(l, after, d, queue + [p])
  {
    hide OwnedCell, FrameIn, Only;
    forall j: nat | j < l.n ensures Holds(l, after, d, queue + [p], j) {
      assert Holds(l, before, d, queue, j);
      if j != |queue| {
        l.PlusDistinct(d, j, |queue|);
        CellKept(l, after, before, l.Plus(d, |queue|), l.Plus(d, j));
      }
    }
  }

  /** A cell the DMA does not own changes: the queue does not. */
  lemma Unchanged(l: Layout, after: Image, before: Image, d: nat, queue: seq<seq<byte>>)
    requires l.Valid() && l.Linked(before) && Queues(l, before, d, queue) && |queue| < l.n
    requires Only(after, before, l.Cell(l.Plus(d, |queue|)), l.Stride())
    requires !OwnedCell(l, after, l.Plus(d, |queue|))
    ensures Queues(l, after, d, queue)
  {
    hide OwnedCell, FrameIn, Only;
    forall j: nat | j < l.n ensures Holds(l, after, d, queue, j) {
      assert Holds(l, before, d, queue, j);
      if j != |queue| {
        l.PlusDistinct(d, j, |queue|);
        CellKept(l, after, before, l.Plus(d, |queue|), l.Plus(d, j));
      }
    }
  }

  /** The DMA gives its first cell back. */
  lemma Pop(l: Layout, after: Image, before: Image, d: nat, queue: seq<seq<byte>>)
    requires l.Valid() && l.Linked(before) && Queues(l, before, d, queue) && queue != []
    requires Only(after, before, l.Cell(d), l.Stride()) && !OwnedCell(l, after, d)
    ensures Queues(l, after, l.After(d), queue[1..])
  {
    hide OwnedCell, FrameIn, Only;
    forall j: nat | j < l.n ensures Holds(l, after, l.After(d), queue[1..], j) {
      l.PlusAfter(d, j);
      if j + 1 < l.n {
        assert Holds(l, before, d, queue, j + 1);
        l.PlusDistinct(d, j + 1, 0);
        CellKept(l, after, before, d, l.Plus(d, j + 1));
      }
    }
  }
}

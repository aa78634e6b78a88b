/** The transmit side of libopencm3/lib/ethernet/mac_stm32fxx7.c, with the DMA engine reading the
    same ring between any two accesses of the processor. */
module EthMac {
  import opened EthMemory
  import opened EthRing
  import opened EthQueue
  import opened EthOwners

  /** Nothing differs inside n bytes at a. */
  ghost predicate Same(after: Image, before: Image, a: nat, n: nat) {
    forall x: nat :: a <= x < a + n ==> after(x) == before(x)
  }

  class Transmitter {
    var mem: Image
    var txbd: nat                     // TxBD
    // The DMA engine: where it reads, what it has put on the wire, and how far it gets before
    // each access of the processor.
    var dma: nat
    var wire: seq<seq<byte>>
    var clock: nat
    const agenda: nat -> nat
    ghost const ring: Layout
    ghost var first: nat
    ghost var queue: seq<seq<byte>>
    ghost var accepted: seq<seq<byte>>

    /** A ring as eth_desc_init leaves it. */
    constructor (mem: Image, agenda: nat -> nat, ghost ring: Layout, base: nat)
      requires ring.Valid() && ring.Linked(mem) && Queues(ring, mem, 0, []) && base == ring.base
      ensures Valid() && this.mem == mem && this.ring == ring && accepted == [] && wire == []
    {
      this.mem, this.agenda, this.ring := mem, agenda, ring;
      txbd, dma, wire, clock := base, base, [], 0;
      first, queue, accepted := 0, [], [];
      NoSegments(ring, mem, 0);
    }

    /** A closed ring with the DMA somewhere on it; what it owns is marked as whole frames. */
    ghost predicate Running()
      reads this
    {
      ring.Valid() && ring.Linked(mem) && first < ring.n && dma == ring.Cell(first) && Segments(ring, mem)
    }

    /** The cells the DMA owns are the queue, and wire and queue are what was accepted. */
    ghost predicate Valid()
      reads this
    {
      && Running() && Queues(ring, mem, first, queue)
      && txbd == ring.Cell(ring.Plus(first, |queue|))
      && accepted == wire + queue
    }

    /** Frames on the wire and frames the DMA will still put there. */
    ghost function Sent(): nat
      reads this
    {
      |wire| + OwnedCount(ring, mem, ring.n)
    }

    lemma SentWhenValid()
      requires Valid()
      ensures Sent() == |accepted|
    {
      QueueCount(ring, mem, first, queue);
    }

    /** The next descriptor is owned by the DMA exactly when the ring is full. */
    lemma OwnedMeansFull()
      requires Valid()
      ensures first < ring.n && |queue| <= ring.n && (Owned(Word(mem, txbd)) <==> |queue| == ring.n)
      ensures Owned(Word(mem, dma)) <==> queue != []
      ensures Word(mem, txbd + 8) == txbd + ring.sz
      ensures Word(mem, txbd + 12) == ring.Cell(ring.After(ring.Plus(first, |queue|)))
      ensures Word(mem, dma + 12) == ring.Cell(ring.After(first))
    {
      hide Word, Owned;
      assert Holds(ring, mem, first, queue, 0);
      if |queue| < ring.n {
        assert Holds(ring, mem, first, queue, |queue|);
      }
      assert ring.LinkedCell(mem, first) && ring.LinkedCell(mem, ring.Plus(first, |queue|));
    }

    /** One step of the DMA: if it owns its descriptor, and that is marked as first and last segment,
        the frame goes out, the descriptor goes back, and the chain leads to the next one.  It does
        so even if the descriptor is its own only by mistake. */
    method DmaStep()
      requires Running()
      modifies `mem, `dma, `wire, `first, `queue
      ensures Running() && old(wire) <= wire && Sent() == old(Sent())
      ensures Aged(ring, mem, old(mem)) && !Owned(Word(mem, old(dma)))
      ensures old(Valid()) ==>
        && Valid() && |queue| <= |old(queue)|
        && (|old(queue)| < ring.n ==> Same(mem, old(mem), txbd, ring.Stride()))
      ensures old(Valid()) && old(queue) == [] ==> queue == []
    {
      hide Word, Bytes, Owned, Segment, Released, PutWord, Queues, Only, Same, Aged, OnlyCell, OwnedCount, Segments;
      SegmentAt(ring, mem, first);
      AgedItself(ring, mem);
      SameItself(mem, txbd, ring.Stride());
      ghost var before, k, valid := mem, first, Valid();
      if valid {
        OwnedMeansFull();
      }
      if Owned(Word(mem, dma)) && Segment(Word(mem, dma)) {
        if valid {
          FirstFrame();
        }
        var frame := Bytes(mem, Word(mem, dma + 8), Word(mem, dma + 4) % LENGTH_FIELD);
        assert ring.LinkedCell(mem, first);
        var next := Word(mem, dma + 12);
        WordPut(mem, dma, Released(Word(mem, dma)));
        mem := PutWord(mem, dma, Released(Word(mem, dma)));
        ring.LinksKept(mem, before, k, dma, 4);
        OneCell(ring, mem, before, k);
        OneAged(ring, mem, before, k);
        CountAfter(ring, mem, before, k, ring.n);
        SegmentsKept(ring, mem, before, k);
        if valid {
          Popped(ring, mem, before, k, queue);
          assert wire + queue == wire + [queue[0]] + queue[1..];
        }
        dma := next;
        wire := wire + [frame];
        first := ring.After(first);
        queue := if queue == [] then [] else queue[1..];
      }
    }

    lemma FirstFrame()
      requires Valid() && queue != []
      ensures queue[0] == Bytes(mem, Word(mem, dma + 8), Word(mem, dma + 4) % LENGTH_FIELD)
      ensures |queue| <= ring.n
    {
      hide Bytes, Word;
      assert Holds(ring, mem, first, queue, 0);
    }

    /** The DMA runs until the next access of the processor. */
    method Tick()
      requires Running()
      modifies `mem, `dma, `wire, `first, `queue, `clock
      ensures Running() && old(wire) <= wire && Sent() == old(Sent()) && clock == old(clock) + 1
      ensures Aged(ring, mem, old(mem))
      ensures old(Valid()) ==>
        && Valid() && |queue| <= |old(queue)|
        && (|old(queue)| < ring.n ==> Same(mem, old(mem), txbd, ring.Stride()))
      ensures old(Valid()) && old(queue) == [] ==> queue == []
      ensures if agenda(old(clock)) == 0 then mem == old(mem) && first == old(first) && queue == old(queue)
              else !Owned(Word(mem, old(dma)))
    {
      hide Queues, Same, Aged, OwnedCount, Word, Owned;
      SameItself(mem, txbd, ring.Stride());
      AgedItself(ring, mem);
      for k := 0 to agenda(clock)
        invariant Running() && old(wire) <= wire && Sent() == old(Sent())
        invariant Aged(ring, mem, old(mem)) && clock == old(clock)
        invariant old(Valid()) ==> Valid() && |queue| <= |old(queue)|
        invariant old(Valid()) && |old(queue)| < ring.n ==> Same(mem, old(mem), txbd, ring.Stride())
        invariant old(Valid()) && old(queue) == [] ==> queue == []
        invariant if k == 0 then mem == old(mem) && first == old(first) && queue == old(queue)
                  else !Owned(Word(mem, old(dma)))
      {
        ghost var before, was := mem, first;
        DmaStep();
        AgedTwice(ring, mem, before, old(mem));
        AgedOwner(ring, mem, before, old(first));
        if old(Valid()) && |old(queue)| < ring.n {
          SameTwice(mem, before, old(mem), txbd, ring.Stride());
        }
      }
      clock := clock + 1;
    }

    /** Writing the length or the buffer of the next descriptor, which the processor owns. */
    lemma StillValid(after: Image, a: nat, len: nat)
      requires Valid() && |queue| < ring.n && Only(after, mem, a, len)
      requires (txbd + 4 <= a && a + len <= txbd + 8) || (txbd + ring.sz <= a && a + len <= txbd + ring.Stride())
      ensures ring.Linked(after) && Queues(ring, after, first, queue) && Segments(ring, after)
    {
      hide Word, Bytes, Owned, Segment, Queues, Only, Segments;
      OwnedMeansFull();
      var k := ring.Plus(first, |queue|);
      ring.LinksKept(after, mem, k, a, len);
      OnlyWider(after, mem, a, len, txbd, ring.Stride());
      WordKept(after, mem, a, len, txbd);
      StatusKept(ring, after, mem, k, a, len);
      Unchanged(ring, after, mem, first, queue);
    }

    /** memcpy of the frame into the buffer of the next descriptor. */
    method CopyFrame(ppkt: seq<byte>)
      requires Valid() && |queue| < ring.n && |ppkt| <= ring.room
      modifies `mem
      ensures Valid() && Bytes(mem, txbd + ring.sz, |ppkt|) == ppkt
    {
      hide Word, Bytes, Owned, Segment, Queues, Only, PutBytes, Segments;
      OwnedMeansFull();
      BytesPut(mem, txbd + ring.sz, ppkt);
      StillValid(PutBytes(mem, txbd + ring.sz, ppkt), txbd + ring.sz, |ppkt|);
      mem := PutBytes(mem, Word(mem, txbd + 8), ppkt);
    }

    /** ETH_DES1 of the next descriptor. */
    method SetLength(n: nat)
      requires Valid() && |queue| < ring.n && n <= ring.room
      modifies `mem
      ensures Valid() && Word(mem, txbd + 4) == n % LENGTH_FIELD
      ensures Bytes(mem, txbd + ring.sz, n) == Bytes(old(mem), txbd + ring.sz, n)
    {
      hide Word, Bytes, Owned, Segment, Queues, Only, PutWord, Segments;
      WordPut(mem, txbd + 4, n % LENGTH_FIELD);
      StillValid(PutWord(mem, txbd + 4, n % LENGTH_FIELD), txbd + 4, 4);
      BytesKept(PutWord(mem, txbd + 4, n % LENGTH_FIELD), mem, txbd + 4, 4, txbd + ring.sz, n);
      mem := PutWord(mem, txbd + 4, n % LENGTH_FIELD);
    }

    /** Hands the descriptor to the DMA and moves on to the next. */
    method HandOver(ghost p: seq<byte>)
      requires Valid() && |queue| < ring.n && |p| < LENGTH_FIELD && |p| <= ring.room
      requires Word(mem, txbd + 4) == |p| && Bytes(mem, txbd + ring.sz, |p|) == p
      modifies `mem, `txbd, `queue, `accepted
      ensures Valid() && queue == old(queue) + [p] && accepted == old(accepted) + [p]
    {
      hide Word, Bytes, Owned, Segment, Queues, Only, PutWord, Handover, OnlyCell, Segments;
      OwnedMeansFull();
      ghost var before, k := mem, ring.Plus(first, |queue|);
      var w := Handover(Word(mem, txbd));
      WordPut(mem, txbd, w);
      mem := PutWord(mem, txbd, w);
      ring.LinksKept(mem, before, k, txbd, 4);
      WordKept(mem, before, txbd, 4, txbd + 4);
      WordKept(mem, before, txbd, 4, txbd + 8);
      WordKept(mem, before, txbd, 4, txbd + 12);
      BytesKept(mem, before, txbd, 4, txbd + ring.sz, |p|);
      OneCell(ring, mem, before, k);
      SegmentsKept(ring, mem, before, k);
      OnlyWider(mem, before, txbd, 4, txbd, ring.Stride());
      Push(ring, mem, before, first, queue, p);
      ring.PlusAfter(first, |queue|);
      assert wire + queue + [p] == wire + (queue + [p]);
      txbd := Word(mem, txbd + 12);
      queue := queue + [p];
      accepted := accepted + [p];
    }

    /** The DMA runs while the next descriptor is the processor's: it leaves that one alone. */
    method Wait(ghost len: nat)
      requires Valid() && |queue| < ring.n && len <= ring.room
      modifies `mem, `dma, `wire, `first, `queue, `clock
      ensures Valid() && old(wire) <= wire && |queue| < ring.n
      ensures Word(mem, txbd + 4) == Word(old(mem), txbd + 4)
      ensures Bytes(mem, txbd + ring.sz, len) == Bytes(old(mem), txbd + ring.sz, len)
    {
      hide Word, Bytes, Queues, Same, Aged, OwnedCount, Sent;
      ghost var before := mem;
      Tick();
      WordSame(mem, before, txbd, ring.Stride(), txbd + 4);
      BytesSame(mem, before, txbd, ring.Stride(), txbd + ring.sz, len);
    }

    /** eth_tx: refuses exactly when the ring is full; otherwise the frame joins the queue, behind
        all frames accepted before.  Only the low 13 bits of its length reach the DMA. */
    method Tx(ppkt: seq<byte>) returns (ok: bool)
      requires Valid() && |ppkt| <= ring.room
      modifies this
      ensures Valid() && old(wire) <= wire
      ensures ok ==> accepted == old(accepted) + [Told(ppkt)]
      ensures !ok ==> accepted == old(accepted) && |queue| == ring.n
      ensures |old(queue)| < ring.n ==> ok
    {
      hide Word, Bytes, Owned, Queues, Same, Aged, OwnedCount, Sent, Segments;
      Tick();
      OwnedMeansFull();
      if Owned(Word(mem, txbd)) {
        return false;
      }
      CopyFrame(ppkt);
      Wait(|ppkt|);
      SetLength(|ppkt|);
      Wait(|ppkt|);
      ghost var n := |ppkt| % LENGTH_FIELD;
      BytesFront(mem, txbd + ring.sz, |ppkt|, n);
      HandOver(ppkt[..n]);
      ok := true;
    }

    /** Sets the offload bits of one descriptor and follows its link, with the DMA running between
        reading and writing the status.  It is a race if the DMA releases the descriptor in
        between: the processor then hands it over once more. */
    method SetOffload(tab: nat, ghost k: nat) returns (next: nat, ghost raced: bool)
      requires Running() && k < ring.n && tab == ring.Cell(k)
      modifies `mem, `dma, `wire, `first, `queue, `clock
      ensures Running() && old(wire) <= wire && next == ring.Cell(ring.After(k)) && clock == old(clock) + 1
      ensures forall i: nat | i < ring.n && i != k :: Aging(Word(mem, ring.Cell(i)), Word(old(mem), ring.Cell(i)))
      ensures Word(mem, tab) == Offload(Word(old(mem), tab))
      ensures Sent() == old(Sent()) + if raced then 1 else 0
      ensures old(Valid()) && !raced ==> Valid()
      ensures old(Valid()) && old(queue) == [] ==> !raced && queue == []
      ensures agenda(old(clock)) == 0 ==> !raced && first == old(first) && queue == old(queue)
      ensures agenda(old(clock)) > 0 && tab == old(dma) && Owned(Word(old(mem), tab)) ==> raced
    {
      hide Word, Owned, Segment, Queues, Only, PutWord, Offload, Bytes, Aged, OwnedCount, OnlyCell, Same, Segments;
      SegmentAt(ring, mem, k);
      var w := Word(mem, tab);
      if Valid() && queue == [] {
        NothingOwned(ring, mem, first, k);
      }
      Tick();
      ghost var before := mem;
      raced := Owned(w) && !Owned(Word(mem, tab));
      AgedAt(ring, mem, old(mem), k);
      WordPut(mem, tab, Offload(w));
      mem := PutWord(mem, tab, Offload(w));
      SameOwner(w);
      assert ring.LinkedCell(before, k);
      ring.LinksKept(mem, before, k, tab, 4);
      WordKept(mem, before, tab, 4, tab + 12);
      OneCell(ring, mem, before, k);
      CountAfter(ring, mem, before, k, ring.n);
      SegmentsKept(ring, mem, before, k);
      AgedElsewhere(ring, mem, before, old(mem), k);
      if old(Valid()) {
        NoReleaseNoRace(w, Word(before, tab));
        if !raced {
          Recoloured(ring, mem, before, k, first, queue);
        }
      }
      next := Word(mem, tab + 12);
    }

    /** The walk after `steps` descriptors from cell t on, at tab: m0, c0, d and queued are what
        memory, clock, place of the DMA and queue were at its start. */
    ghost predicate Walking(m0: Image, c0: nat, d: nat, queued: seq<seq<byte>>, t: nat, turn: nat,
                            tab: nat, steps: nat, races: nat)
      reads this
    {
      && Running() && t < ring.n && steps <= ring.n && clock == c0 + steps
      && txbd == ring.Cell(t) && tab == ring.Cell(ring.Plus(t, steps)) && turn < ring.n && d == ring.Plus(t, turn)
      && Marked(ring, mem, m0, t, steps)
      && Sent() == |accepted| + races && (races == 0 ==> Valid())
      && (queued == [] ==> races == 0 && queue == [])
      && (StartsAt(c0, turn) && steps <= turn ==> first == d && queue == queued && races == 0)
      && (StartsAt(c0, turn) && queued != [] && steps > turn ==> races > 0)
    }

    /** One descriptor of the walk. */
    method MarkNext(tab: nat, ghost m0: Image, ghost c0: nat, ghost d: nat, ghost queued: seq<seq<byte>>,
                    ghost t: nat, ghost turn: nat, ghost steps: nat, ghost races0: nat)
      returns (next: nat, ghost races: nat)
      requires Walking(m0, c0, d, queued, t, turn, tab, steps, races0) && steps < ring.n
      modifies `mem, `dma, `wire, `first, `queue, `clock
      ensures Walking(m0, c0, d, queued, t, turn, next, steps + 1, races) && old(wire) <= wire
      ensures next == txbd <==> steps + 1 == ring.n
    {
      hide Word, Owned, Queues, Offload, Aging, OwnedCount, Marked, StartsAt;
      ghost var before, k := mem, ring.Plus(t, steps);
      ring.PlusAfter(t, steps);
      BackAtStart(ring, t, steps);
      if StartsAt(c0, turn) && steps <= turn {
        WhenItStarts(c0, turn, steps);
        if steps == turn {
          OwnedMeansFull();
        }
      }
      hide Valid, Sent;
      ghost var raced;
      next, raced := SetOffload(tab, k);
      AgingItself(Word(mem, ring.Cell(k)));
      MarkOne(ring, mem, before, m0, t, steps);
      races := races0 + if raced then 1 else 0;
    }

    lemma WalkEnds(m0: Image, c0: nat, d: nat, queued: seq<seq<byte>>, t: nat, turn: nat, tab: nat, races: nat)
      requires Walking(m0, c0, d, queued, t, turn, tab, ring.n, races)
      ensures Running() && (queued == [] ==> races == 0) && (StartsAt(c0, turn) && queued != [] ==> races > 0)
      ensures forall i: nat | i < ring.n :: Aging(Word(mem, ring.Cell(i)), Offload(Word(m0, ring.Cell(i))))
      ensures Sent() == |accepted| + races && (Valid() <==> races == 0)
    {
      hide Word, Queues, Offload, Aging, OwnedCount, Marked, StartsAt;
      AllMarked(ring, mem, m0, t);
      if Valid() {
        SentWhenValid();
      }
    }

    /** eth_enable_checksum_offload: walks the ring once around, n steps from the next descriptor
        back to it, and sets the offload bits of every descriptor.  Each race puts one frame too
        many on its way, so all is well if and only if there is none: as there is if the queue is
        empty.  If it is not, it takes no more than the DMA starting just when the walk has read
        the descriptor the DMA is at. */
    method EnableChecksumOffload() returns (steps: nat, ghost races: nat)
      requires Valid()
      modifies `mem, `dma, `wire, `first, `queue, `clock
      ensures Running() && steps == ring.n && old(wire) <= wire
      ensures forall i: nat | i < ring.n ::
        Aging(Word(mem, ring.Cell(i)), Offload(Word(old(mem), ring.Cell(i))))
      ensures Sent() == |accepted| + races && (Valid() <==> races == 0)
      ensures old(queue) == [] ==> races == 0
      ensures old(queue) != [] && StartsAt(old(clock), Turn(old(first), old(|queue|))) ==> races > 0
    {
      ghost var m0, c0, d, queued := mem, clock, first, queue;
      ghost var t, turn := WalkStarts();
      hide *;
      var tab := txbd;
      steps, races := 0, 0;
      var again := true;
      while again
        invariant 0 <= steps <= ring.n && again == (steps < ring.n) && old(wire) <= wire
        invariant Walking(m0, c0, d, queued, t, turn, tab, steps, races)
        decreases ring.n - steps
      {
        tab, races := MarkNext(tab, m0, c0, d, queued, t, turn, steps, races);
        steps := steps + 1;
        again := tab != txbd;
      }
      WalkEnds(m0, c0, d, queued, t, turn, tab, races);
    }

    lemma WalkStarts() returns (t: nat, turn: nat)
      requires Valid()
      ensures 0 < ring.n && first < ring.n && |queue| <= ring.n && turn == Turn(first, |queue|)
      ensures Walking(mem, clock, first, queue, t, turn, txbd, 0, 0)
    {
      hide Word, Queues, Offload, Aging, OwnedCount, StartsAt, Marked;
      OwnedMeansFull();
      SentWhenValid();
      t, turn := ring.Plus(first, |queue|), Turn(first, |queue|);
      PlaceFrom(ring, t, first);
      MarkedNone(ring, mem, t);
    }

    /** When a walk from behind a queue of n frames comes to cell d. */
    ghost function Turn(d: nat, n: nat): nat
      requires d < ring.n && n <= ring.n
    {
      var t := ring.Plus(d, n);
      if d >= t then d - t else d + ring.n - t
    }

    /** The DMA stands still up to its turn, and then runs. */
    ghost predicate StartsAt(from: nat, turn: nat)
    {
      agenda(from + turn) > 0 && forall c: nat | from <= c < from + turn :: agenda(c) == 0
    }

    lemma WhenItStarts(from: nat, turn: nat, steps: nat)
      requires StartsAt(from, turn) && steps <= turn
      ensures if steps < turn then agenda(from + steps) == 0 else agenda(from + steps) > 0
    {
    }

    /** Any sequence of frames offered: what is on the wire and in the queue are the frames taken,
        each as far as its 13 bits of length tell, in the order they were offered. */
    method Send(frames: seq<seq<byte>>) returns (taken: seq<bool>)
      requires Valid() && forall p | p in frames :: |p| <= ring.room
      modifies this
      ensures Valid() && |taken| == |frames|
      ensures wire + queue == old(wire + queue) + Filtered(frames, taken)
    {
      ghost var before := wire + queue;
      hide Queues, Segments, Running, Told, Filtered;
      taken := [];
      NothingFiltered(frames);
      assert accepted + [] == accepted;
      for i := 0 to |frames|
        invariant Valid() && |taken| == i && accepted == before + Filtered(frames[..i], taken)
      {
        assert frames[i] in frames;
        var ok := Tx(frames[i]);
        FilteredAppend(frames[..i], taken, frames[i], ok);
        assert frames[..i + 1] == frames[..i] + [frames[i]];
        assert before + Filtered(frames[..i], taken) + (if ok then [Told(frames[i])] else [])
            == before + (Filtered(frames[..i], taken) + if ok then [Told(frames[i])] else []);
        taken := taken + [ok];
      }
      assert frames[..|frames|] == frames;
    }
  }

  /** Copying p to the buffer of cell i changes nothing outside the cell. */
  ghost predicate CopyInside(l: Layout, i: nat, p: seq<byte>, m: Image) {
    Only(PutBytes(m, l.Cell(i) + l.sz, p), m, l.Cell(i), l.Stride())
  }

  /** The code does not compare a frame with the room of its buffer: the copy stays inside the cell,
      whatever the memory holds, if and only if the frame fits. */
  lemma FrameStaysInside(l: Layout, i: nat, p: seq<byte>)
    ensures |p| <= l.room <==> forall m: Image :: CopyInside(l, i, p, m)
  {
    if |p| <= l.room {
      forall m: Image ensures CopyInside(l, i, p, m) {
        FrameFits(l, i, p, m);
      }
    } else {
      CopySpills(l, i, p);
    }
  }

  lemma FrameFits(l: Layout, i: nat, p: seq<byte>, m: Image)
    requires |p| <= l.room
    ensures CopyInside(l, i, p, m)
  {
    var a := l.Cell(i) + l.sz;
    hide Only, PutBytes;
    BytesPut(m, a, p);
    OnlyWider(PutBytes(m, a, p), m, a, |p|, l.Cell(i), l.Stride());
  }

  lemma CopySpills(l: Layout, i: nat, p: seq<byte>)
    requires |p| > l.room
    ensures exists m: Image :: !CopyInside(l, i, p, m)
  {
    var a := l.Cell(i) + l.sz;
    var other: byte := if p[l.room] == 0 then 1 else 0;
    var m: Image := (x: nat) => other;
    assert PutBytes(m, a, p)(a + l.room) == p[l.room] != m(a + l.room);
    assert !CopyInside(l, i, p, m);
  }

  /** The DMA has taken the first frame of the queue out of its cell. */
  lemma Popped(l: Layout, after: Image, before: Image, first: nat, queue: seq<seq<byte>>)
    requires l.Valid() && l.Linked(before) && Queues(l, before, first, queue) && queue != []
    requires Only(after, before, l.Cell(first), 4) && !Owned(Word(after, l.Cell(first)))
    ensures Queues(l, after, l.After(first), queue[1..])
    ensures l.Plus(first, |queue|) == l.Plus(l.After(first), |queue| - 1)
    ensures |queue| < l.n ==> Same(after, before, l.Cell(l.Plus(first, |queue|)), l.Stride())
  {
    hide Word, Owned, Queues, Only, Same;
    QueueFits(l, before, first, queue);
    OnlyWider(after, before, l.Cell(first), 4, l.Cell(first), l.Stride());
    Pop(l, after, before, first, queue);
    l.PlusAfter(first, |queue| - 1);
    if |queue| < l.n {
      l.PlusDistinct(first, |queue|, 0);
      l.CellsDisjoint(l.Plus(first, |queue|), first);
      SameElsewhere(after, before, l.Cell(first), l.Stride(), l.Cell(l.Plus(first, |queue|)), l.Stride());
    }
  }

  lemma SegmentAt(l: Layout, m: Image, i: nat)
    requires Segments(l, m) && i < l.n
    ensures Owned(Word(m, l.Cell(i))) ==> Segment(Word(m, l.Cell(i)))
  {
    hide Word, Owned, Segment;
  }

  lemma QueueFits(l: Layout, m: Image, d: nat, queue: seq<seq<byte>>)
    requires l.n > 0 && Queues(l, m, d, queue)
    ensures d < l.n && |queue| <= l.n
  {
  }

  lemma AgedAt(l: Layout, after: Image, before: Image, i: nat)
    requires Aged(l, after, before) && i < l.n
    ensures Aging(Word(after, l.Cell(i)), Word(before, l.Cell(i)))
  {
    hide Word, Aging;
  }

  lemma AgedOwner(l: Layout, after: Image, before: Image, i: nat)
    requires Aged(l, after, before) && i < l.n
    ensures Owned(Word(after, l.Cell(i))) ==> Owned(Word(before, l.Cell(i)))
  {
    hide Word;
    AgedAt(l, after, before, i);
  }

  lemma AgedElsewhere(l: Layout, after: Image, mid: Image, before: Image, k: nat)
    requires OnlyCell(l, after, mid, k) && Aged(l, mid, before)
    ensures forall i: nat | i < l.n && i != k :: Aging(Word(after, l.Cell(i)), Word(before, l.Cell(i)))
  {
    hide Word, Aging;
    forall i: nat | i < l.n && i != k ensures Aging(Word(after, l.Cell(i)), Word(before, l.Cell(i))) {
      assert Aging(Word(mid, l.Cell(i)), Word(before, l.Cell(i)));
    }
  }

  /** A word the DMA has not released is what it was. */
  lemma NoReleaseNoRace(before: uint32, now: uint32)
    requires Aging(now, before)
    ensures !(Owned(before) && !Owned(now)) ==> now == before
  {
  }

  lemma NothingOwned(l: Layout, m: Image, d: nat, i: nat)
    requires l.n > 0 && Queues(l, m, d, []) && i < l.n
    ensures !Owned(Word(m, l.Cell(i)))
  {
    hide Word, Owned;
    PlaceFrom(l, d, i);
    assert EthQueue.Holds(l, m, d, [], if i >= d then i - d else i + l.n - d);
  }

  /** What the DMA is told of a frame: TBS1 takes the low bits of its length. */
  function Told(p: seq<byte>): seq<byte> { p[..|p| % 0x2000] }

  lemma ToldWhole(p: seq<byte>)
    ensures Told(p) == p <==> |p| < 8192
  {
    assert |p| < 8192 ==> p[..|p|] == p;
  }

  /** The frames taken. */
  function Filtered(frames: seq<seq<byte>>, taken: seq<bool>): seq<seq<byte>>
    requires |frames| == |taken|
  {
    if frames == [] then []
    else
      Filtered(frames[..|frames| - 1], taken[..|taken| - 1])
      + if taken[|taken| - 1] then [Told(frames[|frames| - 1])] else []
  }

  lemma NothingFiltered(frames: seq<seq<byte>>)
    ensures Filtered(frames[..0], []) == []
  {
  }

  lemma FilteredAppend(frames: seq<seq<byte>>, taken: seq<bool>, p: seq<byte>, ok: bool)
    requires |frames| == |taken|
    ensures Filtered(frames + [p], taken + [ok]) == Filtered(frames, taken) + if ok then [Told(p)] else []
  {
    assert (frames + [p])[..|frames|] == frames && (taken + [ok])[..|taken|] == taken;
  }

  lemma WordSame(after: Image, before: Image, a: nat, n: nat, w: nat)
    requires Same(after, before, a, n) && a <= w && w + 4 <= a + n
    ensures Word(after, w) == Word(before, w)
  {
  }

  lemma BytesSame(after: Image, before: Image, a: nat, n: nat, b: nat, len: nat)
    requires Same(after, before, a, n) && a <= b && b + len <= a + n
    ensures Bytes(after, b, len) == Bytes(before, b, len)
  {
  }

  lemma BytesFront(m: Image, a: nat, n: nat, k: nat)
    requires k <= n
    ensures Bytes(m, a, n)[..k] == Bytes(m, a, k)
  {
  }

  lemma SameItself(m: Image, a: nat, n: nat)
    ensures Same(m, m, a, n)
  {
  }

  lemma SameTwice(m2: Image, m1: Image, m0: Image, a: nat, n: nat)
    requires Same(m2, m1, a, n) && Same(m1, m0, a, n)
    ensures Same(m2, m0, a, n)
  {
  }

  lemma SameElsewhere(after: Image, before: Image, a: nat, n: nat, b: nat, len: nat)
    requires Only(after, before, a, n) && (b + len <= a || a + n <= b)
    ensures Same(after, before, b, len)
  {
  }
}

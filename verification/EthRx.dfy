/** The receive side of libopencm3/lib/ethernet/mac_stm32fxx7.c, with the DMA engine filling the
    same ring between any two accesses of the processor. */
module EthRx {
  import opened EthMemory
  import opened EthRing
  import opened EthMac
  import EthInit

  const LS: nat := 0x100                 // RDES0_LS, bit 8
  const FS: nat := 0x200                 // RDES0_FS, bit 9
  const FL_UNIT: nat := 0x1_0000         // RDES0_FL, bits 16 to 29
  const FL_LIMIT: nat := 0x4000

  function LengthIn(w: uint32): nat { w / FL_UNIT % FL_LIMIT }

  /** What the DMA puts into one descriptor: some bytes and a status, which is arbitrary but for
      the ownership bit.  Bit 9 marks the first piece of a frame, bit 8 the last, and bits 16 to 29
      are a length. */
  datatype Piece = Piece(data: seq<byte>, status: uint32) {
    predicate First() { status / 0x200 % 2 == 1 }
    predicate Last() { status / 0x100 % 2 == 1 }
    function Length(): nat { status / 0x1_0000 % 0x4000 }

    /** A frame of its own. */
    predicate Whole() { First() && Last() && Length() == |data| }
  }

  predicate Stored(l: Layout, m: Image, i: nat, p: Piece)
    requires i < l.n
  {
    && Word(m, l.Cell(i)) == p.status && !Owned(p.status) && |p.data| <= l.room
    && Bytes(m, l.Cell(i) + l.sz, |p.data|) == p.data
  }

  /** From cell r on: the first |arrived| cells hold the pieces not yet read, the DMA owns the
      others. */
  ghost predicate Arrived(l: Layout, m: Image, r: nat, arrived: seq<Piece>) {
    && r < l.n && |arrived| <= l.n
    && forall j: nat | j < l.n :: ArrivedCell(l, m, r, arrived, j)
  }

  ghost predicate ArrivedCell(l: Layout, m: Image, r: nat, arrived: seq<Piece>, j: nat)
    requires r < l.n && j < l.n
  {
    if j < |arrived| then Stored(l, m, l.Plus(r, j), arrived[j]) else Owned(Word(m, l.Cell(l.Plus(r, j))))
  }

  /** The receive ring eth_desc_init builds: nothing has arrived. */
  lemma NothingArrived(l: Layout, m: Image, w1: uint32)
    requires l.n > 0 && EthInit.BuiltTo(l, m, OWN, w1, l.n)
    ensures Arrived(l, m, 0, []) && l.Linked(m)
  {
    hide Word;
    EthInit.BuiltLinks(l, m, OWN, w1);
    forall j: nat | j < l.n ensures ArrivedCell(l, m, 0, [], j) {
      assert EthInit.Built(l, m, OWN, w1, l.Plus(0, j));
    }
  }

  lemma CellKept(l: Layout, after: Image, before: Image, k: nat, i: nat)
    requires l.Valid() && k < l.n && i < l.n && i != k
    requires Only(after, before, l.Cell(k), l.Stride())
    ensures Word(after, l.Cell(i)) == Word(before, l.Cell(i))
    ensures forall p :: Stored(l, before, i, p) ==> Stored(l, after, i, p)
  {
    hide Only, Word, Bytes;
    l.CellsDisjoint(i, k);
    WordKept(after, before, l.Cell(k), l.Stride(), l.Cell(i));
    forall p | Stored(l, before, i, p) ensures Stored(l, after, i, p) {
      BytesKept(after, before, l.Cell(k), l.Stride(), l.Cell(i) + l.sz, |p.data|);
    }
  }

  /** The DMA fills its next cell. */
  lemma Arrives(l: Layout, after: Image, before: Image, r: nat, arrived: seq<Piece>, p: Piece)
    requires l.Valid() && Arrived(l, before, r, arrived) && |arrived| < l.n
    requires Only(after, before, l.Cell(l.Plus(r, |arrived|)), l.Stride())
    requires Stored(l, after, l.Plus(r, |arrived|), p)
    ensures Arrived(l, after, r, arrived + [p])
  {
    hide Stored, Word, Owned, Only;
    forall j: nat | j < l.n ensures ArrivedCell(l, after, r, arrived + [p], j) {
      assert ArrivedCell(l, before, r, arrived, j);
      if j != |arrived| {
        l.PlusDistinct(r, j, |arrived|);
        CellKept(l, after, before, l.Plus(r, |arrived|), l.Plus(r, j));
      }
    }
  }

  /** The processor gives its first cell back. */
  lemma GivenBack(l: Layout, after: Image, before: Image, r: nat, arrived: seq<Piece>)
    requires l.Valid() && Arrived(l, before, r, arrived) && arrived != []
    requires Only(after, before, l.Cell(r), l.Stride()) && Owned(Word(after, l.Cell(r)))
    ensures Arrived(l, after, l.After(r), arrived[1..])
  {
    hide Stored, Word, Owned, Only;
    forall j: nat | j < l.n ensures ArrivedCell(l, after, l.After(r), arrived[1..], j) {
      l.PlusAfter(r, j);
      if j + 1 < l.n {
        assert ArrivedCell(l, before, r, arrived, j + 1);
        l.PlusDistinct(r, j + 1, 0);
        CellKept(l, after, before, r, l.Plus(r, j + 1));
      }
    }
  }

  class Receiver {
    var mem: Image
    var rxbd: nat                     // RxBD
    // The DMA engine: where it writes, and what comes in before each access of the processor.
    var dma: nat
    var clock: nat
    const agenda: nat -> seq<Piece>
    const room: nat                   // RDES1_RBS1, the size of a buffer
    const longest: nat                // how many pieces come without one that ends a frame
    ghost const ring: Layout
    ghost var first: nat
    ghost var arrived: seq<Piece>     // in the ring
    ghost var consumed: seq<Piece>    // given up by eth_rx
    ghost var received: seq<Piece>    // all the DMA ever stored
    var unfinished: nat               // how many of them came since the last that ended a frame

    /** A ring as eth_desc_init leaves it. */
    constructor (mem: Image, agenda: nat -> seq<Piece>, ghost ring: Layout, base: nat, room: nat, longest: nat)
      requires room == ring.room
      requires ring.Valid() && ring.Linked(mem) && Arrived(ring, mem, 0, []) && base == ring.base
      ensures Valid() && this.mem == mem && this.ring == ring && received == [] && consumed == []
    {
      this.mem, this.agenda, this.ring, this.room, this.longest := mem, agenda, ring, room, longest;
      rxbd, dma, clock, unfinished := base, base, 0, 0;
      first, arrived, consumed, received := 0, [], [], [];
    }

    ghost predicate Valid()
      reads this
    {
      && ring.Valid() && room == ring.room && ring.Linked(mem) && Arrived(ring, mem, first, arrived)
      && rxbd == ring.Cell(first) && dma == ring.Cell(ring.Plus(first, |arrived|))
      && received == consumed + arrived
      && unfinished == Unfinished(received) && Bounded(received, longest)
    }

    lemma RingFacts()
      requires Valid()
      ensures first < ring.n && |arrived| <= ring.n
      ensures Owned(Word(mem, rxbd)) <==> arrived == []
      ensures arrived != [] ==> Stored(ring, mem, first, arrived[0])
      ensures Owned(Word(mem, dma)) <==> |arrived| < ring.n
      ensures Word(mem, rxbd + 8) == rxbd + ring.sz && Word(mem, dma + 8) == dma + ring.sz
      ensures Word(mem, rxbd + 12) == ring.Cell(ring.After(first))
      ensures Word(mem, dma + 12) == ring.Cell(ring.After(ring.Plus(first, |arrived|)))
    {
      hide Word, Owned, Bytes;
      assert ArrivedCell(ring, mem, first, arrived, 0);
      if |arrived| < ring.n {
        assert ArrivedCell(ring, mem, first, arrived, |arrived|);
      }
      assert ring.LinkedCell(mem, first) && ring.LinkedCell(mem, ring.Plus(first, |arrived|));
    }

    /** The DMA writes buffer and status of its descriptor. */
    method FillCell(p: Piece)
      requires Valid() && |arrived| < ring.n && |p.data| <= room && !Owned(p.status)
      modifies `mem
      ensures ring.Linked(mem) && Only(mem, old(mem), dma, ring.Stride())
      ensures Stored(ring, mem, ring.Plus(first, |arrived|), p)
    {
      hide Word, Bytes, Owned, Arrived, Stored, Only, PutWord, PutBytes, Bounded, Unfinished;
      RingFacts();
      ghost var before, k := mem, ring.Plus(first, |arrived|);
      mem := PutBytes(mem, Word(mem, dma + 8), p.data);
      ghost var filled := mem;
      BytesPut(before, dma + ring.sz, p.data);
      ring.LinksKept(filled, before, k, dma + ring.sz, |p.data|);
      OnlyWider(filled, before, dma + ring.sz, |p.data|, dma, ring.Stride());
      mem := PutWord(mem, dma, p.status);
      WordPut(filled, dma, p.status);
      ring.LinksKept(mem, filled, k, dma, 4);
      OnlyWider(mem, filled, dma, 4, dma, ring.Stride());
      OnlyTwice(mem, filled, before, dma, ring.Stride());
      BytesKept(mem, filled, dma, 4, dma + ring.sz, |p.data|);
      StoredNow(ring, mem, k, p);
    }

    /** A piece comes in: it is stored if the DMA owns its descriptor, and missed otherwise. */
    method Arrive(p: Piece)
      requires Valid()
      modifies `mem, `dma, `arrived, `received, `unfinished
      ensures Valid() && old(received) <= received && old(arrived) <= arrived
      ensures old(arrived) != [] ==> Same(mem, old(mem), rxbd, ring.Stride())
    {
      hide Word, Bytes, Owned, Arrived, Stored, Only, Same, Bounded, Unfinished;
      RingFacts();
      SameItself(mem, rxbd, ring.Stride());
      if Owned(Word(mem, dma)) && |p.data| <= room && !Owned(p.status) && (p.Last() || unfinished < longest) {
        ghost var before, k := mem, ring.Plus(first, |arrived|);
        var next := Word(mem, dma + 12);
        FillCell(p);
        Arrives(ring, mem, before, first, arrived, p);
        if arrived != [] {
          ring.PlusDistinct(first, |arrived|, 0);
          ring.CellsDisjoint(k, first);
          SameElsewhere(mem, before, dma, ring.Stride(), rxbd, ring.Stride());
        }
        ring.PlusAfter(first, |arrived|);
        assert consumed + arrived + [p] == consumed + (arrived + [p]);
        OneMorePiece(received, p, longest);
        dma := next;
        arrived := arrived + [p];
        received := received + [p];
        unfinished := if p.Last() then 0 else unfinished + 1;
      }
    }

    /** The DMA runs until the next access of the processor. */
    method Tick()
      requires Valid()
      modifies `mem, `dma, `arrived, `received, `clock, `unfinished
      ensures Valid() && old(received) <= received && old(arrived) <= arrived
      ensures old(arrived) != [] ==> Same(mem, old(mem), rxbd, ring.Stride())
    {
      hide Arrived, Same, Bounded;
      SameItself(mem, rxbd, ring.Stride());
      var comes := agenda(clock);
      for k := 0 to |comes|
        invariant Valid() && old(received) <= received && old(arrived) <= arrived
        invariant old(arrived) != [] ==> Same(mem, old(mem), rxbd, ring.Stride())
      {
        ghost var before := mem;
        Arrive(comes[k]);
        if old(arrived) != [] {
          SameTwice(mem, before, old(mem), rxbd, ring.Stride());
        }
      }
      clock := clock + 1;
    }

    /** The descriptor goes back to the DMA, and the processor moves on to the next. */
    method GiveBack()
      requires Valid() && arrived != []
      modifies `mem, `rxbd, `first, `arrived, `consumed
      ensures Valid() && arrived == old(arrived)[1..] && consumed == old(consumed) + [old(arrived)[0]]
    {
      hide Word, Bytes, Arrived, Stored, Only, PutWord, Bounded;
      RingFacts();
      ghost var before := mem;
      WordPut(mem, rxbd, OWN);
      mem := PutWord(mem, rxbd, OWN);
      ring.LinksKept(mem, before, first, rxbd, 4);
      WordKept(mem, before, rxbd, 4, rxbd + 12);
      OnlyWider(mem, before, rxbd, 4, rxbd, ring.Stride());
      GivenBack(ring, mem, before, first, arrived);
      ring.PlusAfter(first, |arrived| - 1);
      assert consumed + arrived == consumed + [arrived[0]] + arrived[1..];
      rxbd := Word(mem, rxbd + 12);
      consumed := consumed + [arrived[0]];
      arrived := arrived[1..];
      first := ring.After(first);
    }

    /** What the processor finds in the descriptor of the oldest piece; it stays while the DMA runs. */
    method ReadStatus() returns (w: uint32)
      requires Valid() && arrived != []
      ensures w == arrived[0].status
    {
      hide Word, Bytes, Arrived;
      RingFacts();
      w := Word(mem, rxbd);
    }

    /** memcpy from the buffer of the oldest piece, of as many bytes as the status says; behind the
        buffer lies the next descriptor. */
    method CopyOut(l: nat) returns (data: seq<byte>)
      requires Valid() && arrived != []
      ensures |data| == l && (l <= |arrived[0].data| ==> data == arrived[0].data[..l])
    {
      hide Word, Arrived;
      RingFacts();
      data := Bytes(mem, Word(mem, rxbd + 8), l);
    }

    /** One turn of the loop of eth_rx. */
    method TakePiece(fs0: bool, ls0: bool, overrun0: bool, maxlen0: nat, out0: seq<byte>)
      returns (fs: bool, ls: bool, overrun: bool, maxlen: nat, out: seq<byte>)
      requires Valid() && arrived != []
      modifies this
      ensures Valid() && old(received) <= received && consumed == old(consumed) + [old(arrived)[0]]
      ensures
        var p := old(arrived)[0];
        && Reading(fs, ls, overrun, maxlen) == Noted(Reading(fs0, ls0, overrun0, maxlen0), p)
        && out0 <= out && |out| == |out0| + (if fs && !overrun then p.Length() else 0)
        && (fs && !overrun && p.Length() <= |p.data| ==> out[|out0|..] == p.data[..p.Length()])
    {
      hide Word, Bytes, Arrived, Same, Bounded;
      ghost var p := arrived[0];
      var w := ReadStatus();
      var l := LengthIn(w);
      fs := fs0 || w / FS % 2 == 1;
      ls := ls0 || w / LS % 2 == 1;
      overrun := overrun0 || (fs && maxlen0 < l);
      maxlen, out := maxlen0, out0;
      Tick();
      if fs && !overrun {
        var data := CopyOut(l);
        out := out + data;
        maxlen := maxlen - l;
      }
      Tick();
      GiveBack();
    }

    /** eth_rx: takes pieces out of the ring up to one that ends a frame, or until the ring is empty,
        and returns whether it has seen beginning and end of a frame and had room for what their
        descriptors claim. */
    method Rx(maxlen0: nat) returns (ok: bool, out: seq<byte>, ghost pieces: seq<Piece>)
      requires Valid()
      modifies this
      ensures Valid() && old(received) <= received && consumed == old(consumed) + pieces
      ensures OneCall(pieces) && (pieces == [] || !pieces[|pieces| - 1].Last() ==> arrived == [])
      ensures pieces == [] ==> old(arrived) == []
      ensures ok == Read(pieces, maxlen0).Delivered() && Gathered(pieces, maxlen0, out)
    {
      hide Word, Bytes, Arrived, Same, Bounded, Unfinished, Gathered, Read, Noted;
      var fs, ls, overrun := false, false, false;
      var maxlen := maxlen0;
      out, pieces := [], [];
      NothingRead(maxlen0);
      assert consumed + [] == consumed;
      while true
        invariant Valid() && old(received) <= received && consumed == old(consumed) + pieces
        invariant Read(pieces, maxlen0) == Reading(fs, ls, overrun, maxlen) && Gathered(pieces, maxlen0, out)
        invariant !ls ==> forall i :: 0 <= i < |pieces| ==> !pieces[i].Last()
        invariant ls ==> pieces != [] && pieces[|pieces| - 1].Last() && OneCall(pieces)
        invariant pieces == [] ==> old(arrived) <= arrived
        decreases !ls, longest - |pieces|
      {
        Tick();
        RingFacts();
        if Owned(Word(mem, rxbd)) || ls {
          break;
        }
        ghost var p, before := arrived[0], out;
        fs, ls, overrun, maxlen, out := TakePiece(fs, ls, overrun, maxlen, out);
        PieceRead(pieces, maxlen0, before, p, out);
        NotedLast(Read(pieces, maxlen0), p);
        CallGrows(pieces, p);
        assert consumed == old(consumed) + (pieces + [p]);
        pieces := pieces + [p];
        if !ls {
          NotForever(received, old(consumed), pieces, arrived, longest);
        }
      }
      ok := fs && ls && !overrun;
    }

    /** Any number of calls: they take the pieces one after the other, and what they deliver is what
        each of them makes of its own: the frames that fit, in order, as long as each is in one
        buffer. */
    method Drain(calls: nat, maxlen: nat) returns (got: seq<seq<byte>>, ghost log: seq<seq<Piece>>)
      requires Valid() && consumed == []
      modifies this
      ensures Valid() && consumed + arrived == received && old(received) <= received
      ensures Concat(log) == consumed && |log| == calls && forall k :: 0 <= k < calls ==> OneCall(log[k])
      ensures GotFrom(log, maxlen, got)
      ensures AllWhole(consumed) ==> got == Short(consumed, maxlen)
    {
      hide Arrived, Gathered, Read, OneCall, Bounded, Unfinished;
      got, log := [], [];
      for k := 0 to calls
        invariant Valid() && old(received) <= received && Concat(log) == consumed && |log| == k
        invariant GotFrom(log, maxlen, got) && forall k :: 0 <= k < |log| ==> OneCall(log[k])
      {
        ghost var pieces;
        var ok, out;
        ok, out, pieces := Rx(maxlen);
        ConcatAppend(log, pieces);
        GotAppend(log, pieces, maxlen, got, out);
        log := log + [pieces];
        if ok {
          got := got + [out];
        }
      }
      hide AllWhole, Short, GotFrom, Concat;
      if AllWhole(consumed) {
        WholeFramesDelivered(log, maxlen, got);
      }
    }
  }

  lemma StoredNow(l: Layout, m: Image, k: nat, p: Piece)
    requires k < l.n && Word(m, l.Cell(k)) == p.status && !Owned(p.status) && |p.data| <= l.room
    requires Bytes(m, l.Cell(k) + l.sz, |p.data|) == p.data
    ensures Stored(l, m, k, p)
  {
  }

  // ---------- The end of a frame comes ----------

  /** How many pieces at the end belong to no finished frame. */
  function Unfinished(pieces: seq<Piece>): nat {
    if pieces == [] || pieces[|pieces| - 1].Last() then 0 else 1 + Unfinished(pieces[..|pieces| - 1])
  }

  ghost predicate Bounded(pieces: seq<Piece>, longest: nat) {
    forall i | 0 <= i <= |pieces| :: Unfinished(pieces[..i]) <= longest
  }

  lemma OneMorePiece(pieces: seq<Piece>, p: Piece, longest: nat)
    requires Bounded(pieces, longest) && (p.Last() || Unfinished(pieces) < longest)
    ensures Unfinished(pieces + [p]) == if p.Last() then 0 else Unfinished(pieces) + 1
    ensures Bounded(pieces + [p], longest)
  {
    var more := pieces + [p];
    assert more[..|pieces|] == pieces;
    forall i | 0 <= i <= |more| ensures Unfinished(more[..i]) <= longest {
      if i <= |pieces| {
        assert more[..i] == pieces[..i];
      } else {
        assert more[..i] == more;
      }
    }
  }

  lemma {:induction false} AllUnfinished(front: seq<Piece>, pieces: seq<Piece>)
    requires forall i :: 0 <= i < |pieces| ==> !pieces[i].Last()
    ensures Unfinished(front + pieces) >= |pieces|
    decreases |pieces|
  {
    if pieces != [] {
      var n := |pieces| - 1;
      AllUnfinished(front, pieces[..n]);
      assert (front + pieces)[..|front| + n] == front + pieces[..n];
    }
  }

  /** So a call does not take pieces for ever. */
  lemma NotForever(received: seq<Piece>, front: seq<Piece>, pieces: seq<Piece>, rest: seq<Piece>, longest: nat)
    requires Bounded(received, longest) && received == front + pieces + rest
    requires forall i :: 0 <= i < |pieces| ==> !pieces[i].Last()
    ensures |pieces| <= longest
  {
    AllUnfinished(front, pieces);
    assert received[..|front| + |pieces|] == front + pieces;
  }

  // ---------- What a call makes of its pieces ----------

  /** The variables of the loop: beginning and end seen, too long, room left. */
  datatype Reading = Reading(fs: bool, ls: bool, overrun: bool, left: nat) {
    predicate Delivered() { fs && ls && !overrun }
  }

  function Noted(r: Reading, p: Piece): Reading {
    var fs := r.fs || p.First();
    var overrun := r.overrun || (fs && r.left < p.Length());
    Reading(fs, r.ls || p.Last(), overrun, if fs && !overrun then r.left - p.Length() else r.left)
  }

  lemma NotedLast(r: Reading, p: Piece)
    ensures Noted(r, p).ls <==> r.ls || p.Last()
  {
  }

  function Read(pieces: seq<Piece>, maxlen: nat): Reading {
    if pieces == [] then Reading(false, false, false, maxlen)
    else Noted(Read(pieces[..|pieces| - 1], maxlen), pieces[|pieces| - 1])
  }

  /** `out` is what was copied: from the beginning of a frame on as many bytes of every piece as
      its status claims, which are its own bytes as far as they reach. */
  predicate Gathered(pieces: seq<Piece>, maxlen: nat, out: seq<byte>) {
    if pieces == [] then out == []
    else
      var n := |pieces| - 1;
      var p, r := pieces[n], Read(pieces, maxlen);
      if r.fs && !r.overrun then
        && p.Length() <= |out| && Gathered(pieces[..n], maxlen, out[..|out| - p.Length()])
        && (p.Length() <= |p.data| ==> out[|out| - p.Length()..] == p.data[..p.Length()])
      else Gathered(pieces[..n], maxlen, out)
  }

  /** No piece but the last of a call ends a frame. */
  predicate OneCall(pieces: seq<Piece>) {
    forall i :: 0 <= i < |pieces| - 1 ==> !pieces[i].Last()
  }

  lemma NothingRead(maxlen: nat)
    ensures Read([], maxlen) == Reading(false, false, false, maxlen) && Gathered([], maxlen, [])
  {
  }

  lemma ReadAppend(pieces: seq<Piece>, p: Piece, maxlen: nat)
    ensures Read(pieces + [p], maxlen) == Noted(Read(pieces, maxlen), p)
  {
    hide Noted;
    assert (pieces + [p])[..|pieces|] == pieces;
  }

  lemma CallGrows(pieces: seq<Piece>, p: Piece)
    requires forall i :: 0 <= i < |pieces| ==> !pieces[i].Last()
    ensures OneCall(pieces + [p])
  {
  }

  lemma PieceRead(pieces: seq<Piece>, maxlen: nat, before: seq<byte>, p: Piece, out: seq<byte>)
    requires Gathered(pieces, maxlen, before) && before <= out
    requires
      var r := Noted(Read(pieces, maxlen), p);
      && |out| == |before| + (if r.fs && !r.overrun then p.Length() else 0)
      && (r.fs && !r.overrun && p.Length() <= |p.data| ==> out[|before|..] == p.data[..p.Length()])
    ensures Read(pieces + [p], maxlen) == Noted(Read(pieces, maxlen), p)
    ensures Gathered(pieces + [p], maxlen, out)
  {
    hide LengthIn, Noted;
    ReadAppend(pieces, p, maxlen);
    var r := Noted(Read(pieces, maxlen), p);
    if r.fs && !r.overrun {
      assert |out| - p.Length() == |before| && out[..|before|] == before;
    } else {
      assert out == before;
    }
  }

  function Concat(log: seq<seq<Piece>>): seq<Piece> {
    if log == [] then [] else Concat(log[..|log| - 1]) + log[|log| - 1]
  }

  lemma ConcatAppend(log: seq<seq<Piece>>, pieces: seq<Piece>)
    ensures Concat(log + [pieces]) == Concat(log) + pieces
  {
    assert (log + [pieces])[..|log|] == log;
  }

  /** `got` are the outputs of the calls that returned true. */
  predicate GotFrom(log: seq<seq<Piece>>, maxlen: nat, got: seq<seq<byte>>) {
    if log == [] then got == []
    else
      var n := |log| - 1;
      if Read(log[n], maxlen).Delivered() then
        && got != [] && GotFrom(log[..n], maxlen, got[..|got| - 1])
        && Gathered(log[n], maxlen, got[|got| - 1])
      else GotFrom(log[..n], maxlen, got)
  }

  lemma GotAppend(log: seq<seq<Piece>>, pieces: seq<Piece>, maxlen: nat, got: seq<seq<byte>>, out: seq<byte>)
    requires GotFrom(log, maxlen, got) && Gathered(pieces, maxlen, out)
    ensures GotFrom(log + [pieces], maxlen, if Read(pieces, maxlen).Delivered() then got + [out] else got)
  {
    hide Read, Gathered;
    assert (log + [pieces])[..|log|] == log;
    assert (got + [out])[..|got|] == got;
  }

  // ---------- Frames in one buffer ----------

  /** The frames that fit. */
  function Short(pieces: seq<Piece>, maxlen: nat): seq<seq<byte>> {
    if pieces == [] then []
    else
      var last := pieces[|pieces| - 1].data;
      Short(pieces[..|pieces| - 1], maxlen) + if |last| <= maxlen then [last] else []
  }

  lemma WholeRead(p: Piece, maxlen: nat, out: seq<byte>)
    requires p.Whole()
    ensures Read([p], maxlen).Delivered() <==> |p.data| <= maxlen
    ensures Gathered([p], maxlen, out) && |p.data| <= maxlen ==> out == p.data
  {
    hide LengthIn;
    assert [p][..0] == [];
    assert Read([p], maxlen) == Noted(Read([], maxlen), p);
    assert p.data[..|p.data|] == p.data;
    if Gathered([p], maxlen, out) && |p.data| <= maxlen {
      assert Gathered([], maxlen, out[..|out| - |p.data|]);
      assert out[|out| - |p.data|..] == out;
    }
  }

  predicate AllWhole(pieces: seq<Piece>) {
    forall p | p in pieces :: p.Whole()
  }

  lemma WholeParts(a: seq<Piece>, b: seq<Piece>)
    requires AllWhole(a + b)
    ensures AllWhole(a) && AllWhole(b)
  {
    assert forall p | p in a :: p in a + b;
    assert forall p | p in b :: p in a + b;
  }

  lemma OnePiece(pieces: seq<Piece>)
    requires pieces != [] && OneCall(pieces) && AllWhole(pieces)
    ensures pieces == [pieces[0]] && pieces[0].Whole()
  {
    assert pieces[0] in pieces;
  }

  lemma ShortAppend(pieces: seq<Piece>, p: Piece, maxlen: nat)
    ensures Short(pieces + [p], maxlen) == Short(pieces, maxlen) + if |p.data| <= maxlen then [p.data] else []
  {
    assert (pieces + [p])[..|pieces|] == pieces;
  }

  /** As long as every frame is in one buffer, the calls deliver the frames that fit, in order. */
  lemma {:induction false} WholeFramesDelivered(log: seq<seq<Piece>>, maxlen: nat, got: seq<seq<byte>>)
    requires GotFrom(log, maxlen, got) && (forall k :: 0 <= k < |log| ==> OneCall(log[k])) && AllWhole(Concat(log))
    ensures got == Short(Concat(log), maxlen)
  {
    hide Read, Gathered, OneCall, AllWhole, Short;
    if log == [] {
      NothingShort(maxlen);
    } else {
      var n := |log| - 1;
      var pieces := log[n];
      WholeParts(Concat(log[..n]), pieces);
      if pieces == [] {
        NothingRead(maxlen);
        assert Concat(log[..n]) + [] == Concat(log[..n]);
        WholeFramesDelivered(log[..n], maxlen, got);
      } else {
        var p := pieces[0];
        OnePiece(pieces);
        WholeRead(p, maxlen, if got == [] then [] else got[|got| - 1]);
        WholeFramesDelivered(log[..n], maxlen, if |p.data| <= maxlen then got[..|got| - 1] else got);
        ShortAppend(Concat(log[..n]), p, maxlen);
      }
    }
  }

  lemma NothingShort(maxlen: nat)
    ensures Short([], maxlen) == []
  {
  }

  // ---------- Frames in several buffers ----------

  function Length(pieces: seq<Piece>): nat {
    if pieces == [] then 0 else Length(pieces[..|pieces| - 1]) + |pieces[|pieces| - 1].data|
  }

  function Data(pieces: seq<Piece>): (d: seq<byte>)
    ensures |d| == Length(pieces)
  {
    if pieces == [] then [] else Data(pieces[..|pieces| - 1]) + pieces[|pieces| - 1].data
  }

  /** How the DMA spreads a frame, by the description of RDES0 in the STM32F7 reference manual: all
      buffers but the last are full, the first and the last are marked, and the length in each
      status is that of the frame so far. */
  predicate Spread(pieces: seq<Piece>, frame: seq<byte>, room: nat) {
    && pieces != [] && Data(pieces) == frame && |frame| < FL_LIMIT
    && forall i | 0 <= i < |pieces| ::
         && (pieces[i].First() <==> i == 0) && (pieces[i].Last() <==> i == |pieces| - 1)
         && pieces[i].Length() == Length(pieces[..i + 1])
         && 0 < |pieces[i].data| <= room && (i < |pieces| - 1 ==> |pieces[i].data| == room)
  }

  /** What the descriptors claim in all. */
  function Claimed(pieces: seq<Piece>): nat {
    if pieces == [] then 0 else Claimed(pieces[..|pieces| - 1]) + pieces[|pieces| - 1].Length()
  }

  /** From the beginning of a frame on, a call has room as long as maxlen covers the claims. */
  lemma {:induction false} ReadFromFirst(pieces: seq<Piece>, maxlen: nat)
    requires pieces != [] && pieces[0].First()
    ensures
      var r := Read(pieces, maxlen);
      && r.fs && (r.overrun <==> Claimed(pieces) > maxlen) && (!r.overrun ==> r.left == maxlen - Claimed(pieces))
  {
    hide LengthIn;
    var n := |pieces| - 1;
    if n > 0 {
      ReadFromFirst(pieces[..n], maxlen);
    } else {
      assert pieces[..0] == [];
    }
  }

  lemma {:induction false} GatheredLength(pieces: seq<Piece>, maxlen: nat, out: seq<byte>)
    requires pieces != [] && pieces[0].First() && Claimed(pieces) <= maxlen && Gathered(pieces, maxlen, out)
    ensures |out| == Claimed(pieces)
  {
    var n := |pieces| - 1;
    ReadFromFirst(pieces, maxlen);
    hide LengthIn, Read;
    var p := pieces[n];
    if n > 0 {
      GatheredLength(pieces[..n], maxlen, out[..|out| - p.Length()]);
    } else {
      assert pieces[..0] == [];
    }
  }

  lemma {:induction false} EndSeen(pieces: seq<Piece>, maxlen: nat)
    ensures Read(pieces, maxlen).ls <==> exists i :: 0 <= i < |pieces| && pieces[i].Last()
  {
    if pieces != [] {
      EndSeen(pieces[..|pieces| - 1], maxlen);
    }
  }

  lemma {:induction false} BeginningSeen(pieces: seq<Piece>, maxlen: nat)
    ensures Read(pieces, maxlen).fs <==> exists i :: 0 <= i < |pieces| && pieces[i].First()
  {
    if pieces != [] {
      BeginningSeen(pieces[..|pieces| - 1], maxlen);
    }
  }

  lemma LengthOfFirst(pieces: seq<Piece>, frame: seq<byte>, room: nat)
    requires Spread(pieces, frame, room)
    ensures |pieces| == 1 ==> Claimed(pieces) == |frame| == |pieces[0].data| && pieces[0].data == frame
    ensures |pieces| > 1 ==> Claimed(pieces) >= room + |frame| && |frame| > room
  {
    hide LengthIn;
    var n := |pieces| - 1;
    assert pieces[..n + 1] == pieces && pieces[..1] == [pieces[0]];
    assert [pieces[0]][..0] == [];
    if n > 0 {
      var front := pieces[..n];
      ClaimsOfFront(front);
      assert front[0] == pieces[0];
      FrontLength(front);
    } else {
      assert pieces == [pieces[0]];
      assert [] + pieces[0].data == pieces[0].data;
    }
  }

  lemma {:induction false} ClaimsOfFront(pieces: seq<Piece>)
    requires pieces != []
    ensures Claimed(pieces) >= pieces[0].Length()
  {
    if |pieces| > 1 {
      ClaimsOfFront(pieces[..|pieces| - 1]);
    }
  }

  lemma {:induction false} FrontLength(pieces: seq<Piece>)
    requires pieces != []
    ensures Length(pieces) >= |pieces[0].data|
  {
    if |pieces| > 1 {
      FrontLength(pieces[..|pieces| - 1]);
    }
  }

  /** A call that finds a frame, all of it, in the ring returns true if and only if maxlen covers the
      claims of all its descriptors, and returns the frame if and only if it fits one buffer: the
      status of every buffer claims the frame so far, and the code copies that many bytes from
      each.  With no more than two buffers of room it never returns a wrong frame. */
  lemma SpreadFrame(pieces: seq<Piece>, frame: seq<byte>, room: nat, maxlen: nat, out: seq<byte>)
    requires Spread(pieces, frame, room) && Gathered(pieces, maxlen, out)
    ensures
      var r := Read(pieces, maxlen);
      && (r.Delivered() <==> Claimed(pieces) <= maxlen)
      && (r.Delivered() && out == frame <==> |frame| <= room && |frame| <= maxlen)
      && (maxlen <= 2 * room && r.Delivered() ==> out == frame)
  {
    hide LengthIn;
    LengthOfFirst(pieces, frame, room);
    ReadFromFirst(pieces, maxlen);
    EndSeen(pieces, maxlen);
    var last := |pieces| - 1;
    assert pieces[last].Last();
    if |pieces| == 1 {
      assert pieces == [pieces[0]];
      assert pieces[..1] == pieces;
      WholeRead(pieces[0], maxlen, out);
    } else if Claimed(pieces) <= maxlen {
      GatheredLength(pieces, maxlen, out);
    }
  }

  /** A frame that has not arrived in full when it is read is lost: neither the call that reads its
      beginning nor the one that reads its end returns true. */
  lemma LateFrameLost(a: seq<Piece>, b: seq<Piece>, frame: seq<byte>, room: nat, maxlen: nat)
    requires a != [] && b != [] && Spread(a + b, frame, room)
    ensures !Read(a, maxlen).Delivered() && !Read(b, maxlen).Delivered()
  {
    hide LengthIn;
    EndSeen(a, maxlen);
    BeginningSeen(b, maxlen);
    forall i | 0 <= i < |a| ensures !a[i].Last() {
      assert (a + b)[i] == a[i];
    }
    forall i | 0 <= i < |b| ensures !b[i].First() {
      assert (a + b)[|a| + i] == b[i];
    }
  }
}

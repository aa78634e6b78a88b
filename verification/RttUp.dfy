/** The up channel of RTT, from target to host: rtt_aligned_mem_read, print_rtt and the polling of
    main/rtt.c, with the target running between any two accesses of the probe. */
module RttUp {
  import opened Arithmetic
  import opened TargetMemory
  import opened RttRing

  datatype Status = RTT_OK | RTT_IDLE | RTT_ERR

  /** The remainder the source computes is the next slot. */
  lemma SlotIsRemainder(from: nat, i: nat, size: nat)
    requires from < size && i <= size
    ensures (from + i) % size == Slot(from, i, size)
  {
    if from + i < size {
      SmallRemainder(from + i, size);
    } else {
      SmallRemainder(from + i - size, size);
      assert from + i == size + (from + i - size);
      Shifted(from + i - size, size);
    }
  }

  lemma SmallRemainder(n: nat, size: nat)
    requires n < size
    ensures n % size == n
  {
  }

  lemma Shifted(n: nat, size: nat)
    requires n < size
    ensures (n + size) % size == n
  {
    var q := (n + size) / size;
    assert n + size == size * q + (n + size) % size;
    Multiples(size, q);
  }

  lemma Multiples(size: nat, q: int)
    ensures q <= 0 ==> size * q <= 0
    ensures q >= 2 ==> size * q >= 2 * size
  {
  }

  /** n bytes of the queue from the k-th on, which lie side by side. */
  ghost predicate Stretch(t: Target, a: nat, k: nat, n: nat)
    reads t
  {
    && t.Valid() && k + n <= t.Used() && k < t.size
    && a == t.bufAddr + Slot(t.tail, k, t.size) && Slot(t.tail, k, t.size) + n <= t.size
  }

  lemma StretchByte(t: Target, a: nat, k: nat, n: nat, j: nat)
    requires Stretch(t, a, k, n) && j < n
    ensures |t.consumed| + k + j < |t.written| && a + j < ADDRESS_SPACE
    ensures t.mem(a + j) == t.written[|t.consumed| + k + j]
  {
    hide Slots, Distance;
    SlotAdd(t.tail, k, j, t.size);
    t.QueuedByte(k + j);
  }

  lemma UsedCount(t: Target)
    requires t.Valid()
    ensures t.Used() == |t.written| - |t.consumed|
  {
  }

  /** target_mem_read, byte by byte with the target running in between.  The bytes at lo.. are
      n bytes of the queue from the k-th on: they do not change under the probe. */
  method ReadBlock(t: Target, dest: array<byte>, off: nat, a: nat, len: nat, ghost lo: nat, ghost k: nat, ghost n: nat)
    returns (failed: bool)
    requires off + len <= dest.Length && a + len <= ADDRESS_SPACE && lo + n <= len && Stretch(t, a + lo, k, n)
    modifies t`mem, t`head, t`written, t`clock, t`accesses, dest
    ensures t.Valid() && old(t.written) <= t.written
    ensures failed == t.fails(old(t.accesses)) && t.accesses == old(t.accesses) + 1
    ensures |t.consumed| + k + n <= |old(t.written)|
    ensures !failed ==> dest[off + lo..off + lo + n] == old(t.written)[|t.consumed| + k..|t.consumed| + k + n]
    ensures dest[..off] == old(dest[..off]) && dest[off + len..] == old(dest[off + len..])
  {
    hide Slots, Distance, Slot;
    ghost var start, w := |t.consumed| + k, t.written;
    UsedCount(t);
    var i := 0;
    while i < len
      invariant 0 <= i <= len && t.Valid() && old(t.written) <= t.written && Stretch(t, a + lo, k, n)
      invariant t.accesses == old(t.accesses)
      invariant forall x | off + lo <= x < off + i && x < off + lo + n ::
        dest[x] == w[start + x - off - lo]
      invariant dest[..off] == old(dest[..off]) && dest[off + len..] == old(dest[off + len..])
    {
      UsedCount(t);
      t.Run();
      UsedCount(t);
      if lo <= i < lo + n {
        StretchByte(t, a + lo, k, n, i - lo);
      }
      dest[off + i] := t.mem(a + i);
      i := i + 1;
    }
    failed := t.Access();
    ghost var read, want := dest[off + lo..off + lo + n], w[start..start + n];
    forall j | 0 <= j < n ensures read[j] == want[j] {
      assert dest[off + lo + j] == w[start + j];
    }
    assert read == want;
  }

  /** rtt_aligned_mem_read: reads the whole words around the bytes asked for, then moves them to
      the front.  This needs up to 8 bytes more than asked for. */
  method AlignedRead(t: Target, dest: array<byte>, off: nat, src: nat, len: nat, ghost k: nat) returns (failed: bool)
    requires off + len + 8 <= dest.Length && Stretch(t, src, k, len) && len > 0
    modifies t`mem, t`head, t`written, t`clock, t`accesses, dest
    ensures t.Valid() && old(t.written) <= t.written
    ensures failed == t.fails(old(t.accesses)) && t.accesses == old(t.accesses) + 1
    ensures |t.consumed| + k + len <= |old(t.written)|
    ensures !failed ==> dest[off..off + len] == old(t.written)[|t.consumed| + k..|t.consumed| + k + len]
    ensures dest[..off] == old(dest[..off])
  {
    hide Slots, Distance, Slot;
    var offset := src % 4;
    var src0 := src - offset;
    var len0 := len + offset;
    if len0 % 4 != 0 {
      len0 := (len0 + 4) / 4 * 4;
    }
    WordsAround(src, len, t.bufAddr, t.size);
    if src0 == src && len0 == len {
      failed := ReadBlock(t, dest, off, src, len, 0, k, len);
      return;
    }
    failed := ReadBlock(t, dest, off, src0, len0, offset, k, len);
    MoveDown(dest, off, offset, len);
  }

  /** memmove towards the front. */
  method MoveDown(dest: array<byte>, off: nat, shift: nat, len: nat)
    requires off + shift + len <= dest.Length
    modifies dest
    ensures dest[off..off + len] == old(dest[off + shift..off + shift + len])
    ensures dest[..off] == old(dest[..off])
  {
    forall i | 0 <= i < len {
      dest[off + i] := dest[off + shift + i];
    }
  }

  lemma WordsAround(src: nat, len: nat, base: nat, size: nat)
    requires base <= src && src + len <= base + size <= ADDRESS_SPACE
    ensures
      var len0 := len + src % 4;
      var padded := if len0 % 4 != 0 then (len0 + 4) / 4 * 4 else len0;
      src - src % 4 + padded <= ADDRESS_SPACE && len0 <= padded <= len + 8 && padded % 4 == 0
  {
    var end := src + len;
    var len0 := len + src % 4;
    assert len0 == end - 4 * (src / 4);
    SameRemainder(end, src / 4);
    RoundedUp(len0);
    BelowTop(end);
  }

  lemma SameRemainder(n: nat, k: nat)
    requires n >= 4 * k
    ensures (n - 4 * k) % 4 == n % 4
  {
  }

  lemma RoundedUp(n: nat)
    ensures (n + 4) / 4 * 4 == n - n % 4 + 4
  {
  }

  lemma BelowTop(n: nat)
    ensures n <= ADDRESS_SPACE && n % 4 != 0 ==> n - n % 4 + 4 <= ADDRESS_SPACE
  {
  }

  /** The two stretches together are the queue as the probe knows it, cut to `cap` bytes. */
  lemma FirstStretch(from: nat, to: nat, size: nat, cap: nat)
    requires from < size && to < size && from > to && cap > 0
    ensures Slot(from, 0, size) == from && 0 < Min(size - from, cap) <= Distance(from, to, size)
  {
  }

  lemma SecondStretch(from: nat, to: nat, size: nat, cap: nat, done: nat)
    requires from < size && to < size && from != to && cap > 0
    requires done == if from > to then Min(size - from, cap) else 0
    ensures
      var at := Slot(from, done, size);
      && done <= Min(Distance(from, to, size), cap)
      && (to > at ==> to - at == Distance(from, to, size) - done)
      && (to <= at || done == cap ==> done == Min(Distance(from, to, size), cap))
  {
  }

  lemma MinIs(a: nat, b: nat, m: nat)
    requires m == if a > b then b else a
    ensures m == Min(a, b)
  {
  }

  /** What the probe knows of one channel. */
  class UpChannel {
    const t: Target
    // rtt_channel[i]: the copy of the control block made by the last poll
    var head: nat
    var tail: nat
    const xmit: array<byte>
    var emitted: seq<byte>        // handed to rtt_write

    constructor (t: Target, bufSize: nat)
      requires t.Valid() && t.consumed == [] && bufSize > 8
      ensures this.t == t && emitted == t.consumed && Ready() && fresh(xmit)
    {
      this.t := t;
      head, tail, emitted := 0, 0, [];
      xmit := new byte[bufSize];
    }

    ghost predicate Ready()
      reads this, t
    {
      t.Valid() && xmit.Length > 8
    }

    /** The copy was true when it was made: since then the target may have appended. */
    ghost predicate Fresh()
      reads this, t
    {
      && Ready() && head < t.size && tail == t.tail && Distance(tail, head, t.size) <= t.Used()
    }

    /** The probe moves the tail of the target on, giving n bytes back. */
    method WriteTail(ghost n: nat) returns (failed: bool)
      requires Ready() && n <= t.Used() && tail == Slot(t.tail, n, t.size)
      modifies t
      ensures t.Valid() && old(t.written) <= t.written && |old(t.consumed)| + n <= |old(t.written)|
      ensures failed == t.fails(old(t.accesses)) && t.accesses == old(t.accesses) + 1
      ensures t.consumed == if failed then old(t.consumed)
                            else old(t.consumed) + old(t.written)[|old(t.consumed)|..|old(t.consumed)| + n]
      ensures t.tail == if failed then old(t.tail) else tail
    {
      hide Slots, Distance, Slot;
      UsedCount(t);
      failed := t.Access();
      UsedCount(t);
      if !failed {
        TailMoves(n);
        t.consumed := t.consumed + t.written[|t.consumed|..|t.consumed| + n];
        t.tail := tail;
      }
    }

    lemma TailMoves(n: nat)
      requires Ready() && n <= t.Used() && tail == Slot(t.tail, n, t.size)
      ensures |t.consumed| + n <= |t.written| && tail < t.size
      ensures Distance(tail, t.head, t.size) == t.Used() - n
      ensures t.consumed + t.written[|t.consumed|..|t.consumed| + n]
              + Slots(t.mem, t.bufAddr, t.size, tail, t.Used() - n) == t.written
    {
      SlotsConcat(t.mem, t.bufAddr, t.size, t.tail, n, t.Used() - n);
      var moved := Slots(t.mem, t.bufAddr, t.size, t.tail, n);
      assert t.written[|t.consumed|..|t.consumed| + n] == moved;
      assert t.consumed + (moved + Slots(t.mem, t.bufAddr, t.size, tail, t.Used() - n)) == t.written;
    }
 
    /** The first n bytes of the queue, the continuation of w, are in the transmit buffer, and the
        local tail is behind them. */
    ghost predicate Fetched(w: seq<byte>, n: nat)
      reads this, t, xmit
    {
      && Ready() && w <= t.written && |t.consumed| + n <= |w| && n < t.size && n <= xmit.Length - 8
      && tail == Slot(t.tail, n, t.size)
      && xmit[..n] == w[|t.consumed|..|t.consumed| + n]
    }

    /** Appends a stretch of the queue to the transmit buffer and moves the local tail over it. */
    method FetchStretch(bytesRead: nat, len: nat, ghost w: seq<byte>) returns (failed: bool)
      requires Fetched(w, bytesRead) && 0 < len && |t.consumed| + bytesRead + len <= |w|
      requires tail + len <= t.size && bytesRead + len < t.size && bytesRead + len <= xmit.Length - 8
      modifies `tail, xmit, t`mem, t`head, t`written, t`clock, t`accesses
      ensures Ready() && old(t.written) <= t.written
      ensures failed == t.fails(old(t.accesses)) && t.accesses == old(t.accesses) + 1
      ensures !failed ==> Fetched(w, bytesRead + len)
    {
      hide Slots, Distance, Slot;
      UsedCount(t);
      ghost var start := |t.consumed|;
      ghost var first := xmit[..bytesRead];
      assert t.written[start + bytesRead..start + bytesRead + len] == w[start + bytesRead..start + bytesRead + len];
      failed := AlignedRead(t, xmit, bytesRead, t.bufAddr + tail, len, bytesRead);
      if failed {
        return;
      }
      assert xmit[..bytesRead + len] == first + xmit[bytesRead..bytesRead + len];
      SlotIsRemainder(tail, len, t.size);
      SlotAdd(t.tail, bytesRead, len, t.size);
      tail := (tail + len) % t.size;
    }

    /** The first stretch, from the tail to the end of the buffer if the queue wraps around. */
    method FetchToEnd(bytesFree: nat, ghost w: seq<byte>) returns (failed: bool, bytesRead: nat)
      requires Fresh() && head != tail && w == t.written && bytesFree == xmit.Length - 8
      modifies `tail, xmit, t`mem, t`head, t`written, t`clock, t`accesses
      ensures Ready() && w <= t.written
      ensures failed == Fault(t.fails, old(t.accesses), t.accesses)
      ensures old(t.accesses) <= t.accesses <= old(t.accesses) + 1
      ensures !failed ==>
        bytesRead == (if old(tail) > head then Min(t.size - old(tail), bytesFree) else 0) && Fetched(w, bytesRead)
    {
      UsedCount(t);
      assert |t.consumed| + Distance(tail, head, t.size) <= |w| && Distance(tail, head, t.size) < t.size;
      assert Fetched(w, 0) && bytesFree > 0;
      hide *;
      failed, bytesRead := false, 0;
      FaultNone(t.fails, t.accesses);
      FaultOne(t.fails, t.accesses);
      if tail > head {
        FirstStretch(tail, head, t.size, bytesFree);
        var len := t.size - tail;
        if len > bytesFree {
          len := bytesFree;
        }
        MinIs(t.size - tail, bytesFree, len);
        failed := FetchStretch(bytesRead, len, w);
        bytesRead := bytesRead + len;
      }
    }

    /** The second stretch, from the local tail to the head if the tail is before it. */
    method FetchToHead(bytesFree: nat, done: nat, ghost w: seq<byte>, ghost known: nat)
      returns (failed: bool, bytesRead: nat)
      requires Fetched(w, done) && head < t.size && |t.consumed| + known <= |w| && known < t.size
      requires done <= known && done + bytesFree == xmit.Length - 8
      requires head > tail ==> head - tail == known - done
      modifies `tail, xmit, t`mem, t`head, t`written, t`clock, t`accesses
      ensures Ready() && w <= t.written
      ensures failed == Fault(t.fails, old(t.accesses), t.accesses)
      ensures t.accesses == if old(tail) < head && bytesFree > 0 then old(t.accesses) + 1 else old(t.accesses)
      ensures !failed ==> Fetched(w, bytesRead)
      ensures !failed ==>
        bytesRead == if old(tail) < head && bytesFree > 0 then Min(known, done + bytesFree) else done
    {
      failed, bytesRead := false, done;
      FaultNone(t.fails, t.accesses);
      FaultOne(t.fails, t.accesses);
      if head > tail && bytesFree > 0 {
        var len := head - tail;
        if len > bytesFree {
          len := bytesFree;
        }
        hide Fetched, Ready, Fault;
        FetchedTail(w, done);
        failed := FetchStretch(done, len, w);
        bytesRead := done + len;
      }
    }

    /** The part of print_rtt that reads: up to two stretches, before and behind the wrap-around. */
    method Fetch(ghost w: seq<byte>) returns (failed: bool, bytesRead: nat)
      requires Fresh() && head != tail && w == t.written
      modifies `tail, xmit, t`mem, t`head, t`written, t`clock, t`accesses
      ensures Ready() && w <= t.written
      ensures failed == Fault(t.fails, old(t.accesses), t.accesses)
      ensures old(t.accesses) <= t.accesses <= old(t.accesses) + 2
      ensures !failed ==>
        bytesRead == Min(Distance(old(tail), head, t.size), xmit.Length - 8) > 0 && Fetched(w, bytesRead)
    {
      UsedCount(t);
      var bytesFree := xmit.Length - 8;
      ghost var start, cap, known, from := |t.consumed|, bytesFree, Distance(tail, head, t.size), tail;
      assert start + known <= |w| && known < t.size && cap > 0 && tail == t.tail && known > 0;
      hide *;
      ghost var a0 := t.accesses;
      failed, bytesRead := FetchToEnd(bytesFree, w);
      if failed {
        return;
      }
      ghost var a1 := t.accesses;
      FetchedTail(w, bytesRead);
      SecondStretch(from, head, t.size, cap, bytesRead);
      failed, bytesRead := FetchToHead(bytesFree - bytesRead, bytesRead, w, known);
      FaultConcat(t.fails, a0, a1, t.accesses);
    }

    lemma FetchedTail(w: seq<byte>, n: nat)
      requires Fetched(w, n)
      ensures t.tail < t.size && n < t.size && tail == Slot(t.tail, n, t.size)
    {
    }

    /** The copy of the control block makes sense. */
    predicate InRange()
      reads this
    {
      head < t.size && tail < t.size
    }

    /** print_rtt for a channel the target has set up: an error if and only if the copy is out of
        range or one of its accesses fails, and then nothing is given up or emitted. */
    method PrintRtt() returns (r: Status)
      requires Ready() && (InRange() ==> Fresh())
      modifies `tail, `emitted, xmit, t
      ensures Ready() && old(t.written) <= t.written
      ensures r == RTT_IDLE <==> old(InRange()) && head == old(tail)
      ensures r == RTT_ERR <==> !old(InRange()) || Fault(t.fails, old(t.accesses), t.accesses)
      ensures old(t.accesses) <= t.accesses <= old(t.accesses) + 3
      ensures r == RTT_OK ==>
        old(InRange()) && head < t.size && old(tail) < t.size &&
        var n := Min(Distance(old(tail), head, t.size), xmit.Length - 8);
        && 0 < n && |old(t.consumed)| + n <= |old(t.written)|
        && var bytes := old(t.written)[|old(t.consumed)|..|old(t.consumed)| + n];
        emitted == old(emitted) + bytes && t.consumed == old(t.consumed) + bytes
      ensures r != RTT_OK ==> emitted == old(emitted) && t.consumed == old(t.consumed) && t.tail == old(t.tail)
    {
      hide Slots, Fault;
      FaultNone(t.fails, t.accesses);
      if head >= t.size || tail >= t.size {
        return RTT_ERR;
      }
      if head == tail {
        return RTT_IDLE;
      }
      ghost var written, a0 := t.written, t.accesses;
      var failed, bytesRead := Fetch(written);
      if failed {
        return RTT_ERR;
      }
      ghost var later, a1 := t.written, t.accesses;
      failed := WriteTail(bytesRead);
      FaultOne(t.fails, a1);
      FaultConcat(t.fails, a0, a1, t.accesses);
      if failed {
        return RTT_ERR;
      }
      ghost var from := |old(t.consumed)|;
      assert later[from..from + bytesRead] == written[from..from + bytesRead];
      emitted := emitted + xmit[..bytesRead];
      return RTT_OK;
    }

    /** The channel's share of one poll_rtt: a new copy of the control block, then print_rtt.  It
        fails if and only if one of its accesses does; otherwise it emits all that was queued, or
        as much of it as the transmit buffer holds. */
    method Poll() returns (r: Status)
      requires Ready() && emitted == t.consumed
      modifies this, xmit, t
      ensures Ready() && emitted == t.consumed && old(t.written) <= t.written && old(emitted) <= emitted
      ensures emitted + t.Queued() == t.written
      ensures r == RTT_ERR <==> Fault(t.fails, old(t.accesses), t.accesses)
      ensures old(t.accesses) < t.accesses <= old(t.accesses) + 4
      ensures r != RTT_OK ==> emitted == old(emitted)
      ensures r != RTT_ERR ==> |emitted| >= |old(emitted)| + Min(old(t.Used()), xmit.Length - 8)
    {
      hide Slots, Slot, Fault;
      UsedCount(t);
      ghost var a0 := t.accesses;
      var failed := t.Access();
      UsedCount(t);
      FaultOne(t.fails, a0);
      if failed {
        return RTT_ERR;
      }
      head, tail := t.head, t.tail;
      r := PrintRtt();
      FaultConcat(t.fails, a0, a0 + 1, t.accesses);
    }

    /** Every run: whatever the target does and whichever accesses fail, what was emitted and what
        is still queued is, byte for byte, what the target ever wrote.  A run without a failing
        access emits all that was written before it, given one poll for each bufferful. */
    method Session(polls: nat) returns (errors: nat)
      requires Ready() && emitted == t.consumed
      modifies this, xmit, t
      ensures Ready() && emitted + t.Queued() == t.written
      ensures old(t.written) <= t.written && old(emitted) <= emitted
      ensures errors == 0 <==> !Fault(t.fails, old(t.accesses), t.accesses)
      ensures errors == 0 && polls * (xmit.Length - 8) >= old(t.Used()) ==> old(t.written) <= emitted
    {
      hide Slots, Slot, Fault, Distance;
      errors := 0;
      ghost var a0, start, cap, goal := t.accesses, |emitted|, xmit.Length - 8, |t.written|;
      FaultNone(t.fails, a0);
      UsedCount(t);
      for k := 0 to polls
        invariant Ready() && emitted == t.consumed && a0 <= t.accesses
        invariant old(t.written) <= t.written && old(emitted) <= emitted
        invariant errors == 0 <==> !Fault(t.fails, a0, t.accesses)
        invariant errors == 0 ==> |emitted| >= Min(goal, start + k * cap)
      {
        UsedCount(t);
        ghost var a1 := t.accesses;
        var r := Poll();
        FaultConcat(t.fails, a0, a1, t.accesses);
        OneMore(k, cap);
        if r == RTT_ERR {
          errors := errors + 1;
        }
      }
    }
  }

  lemma OneMore(k: nat, cap: int)
    ensures (k + 1) * cap == k * cap + cap
  {
  }
}

/** The searches for the RTT control block in main/rtt.c. */
module RttSearch {
  import opened Arithmetic
  import opened TargetMemory
  import opened RttHash

  /** Where a search of n bytes ended: at the byte that completes a match (fast search) or begins
      one (identifier search), at a chunk that cannot be read, or without a match. */
  datatype Outcome = Hit(at: nat) | ReadFailed | Nothing

  /** The address counter passes the end of the range without wrapping around. */
  predicate Ends(start: Address, end: Address, stride: nat)
    requires stride > 0
  {
    start < end ==> start + stride * ((end - start + stride - 1) / stride) < ADDRESS_SPACE
  }

  // ---------- The fast search ----------

  const STRIDE: nat := 128

  function Zeroes(n: nat): (s: seq<byte>)
    ensures |s| == n
  {
    seq(n, _ => 0)
  }

  /** The bytes the window slides over: 16 zeroes, then the range. */
  function Padded(m: Memory, start: nat, n: nat): (s: seq<byte>)
    ensures |s| == WINDOW + n
  {
    Zeroes(WINDOW) + m.Bytes(start, n)
  }

  /** Byte j completes a window with the hash of the identifier. */
  predicate Matches(m: Memory, start: nat, n: nat, j: nat)
    requires j < n
  {
    Hash(Padded(m, start, n)[j + 1..j + 1 + WINDOW]) == P
  }

  predicate ChunkReadable(m: Memory, start: nat, n: nat, j: nat)
    requires j <= n
  {
    m.readable(Wrap(start + j), Min(128, n - j))
  }

  /** The search said plainly: hash every window from scratch, in order. */
  function Scan(m: Memory, start: nat, n: nat, j: nat): Outcome
    requires j <= n
    decreases n - j
  {
    if j == n then Nothing
    else if j % STRIDE == 0 && !ChunkReadable(m, start, n, j) then ReadFailed
    else if Matches(m, start, n, j) then Hit(j)
    else Scan(m, start, n, j + 1)
  }

  /** The address the search reports; 0 stands for not found. */
  function Reported(start: nat, r: Outcome): Address {
    if r.Hit? then Wrap(start + r.at + ADDRESS_SPACE - WINDOW + 1) else 0
  }

  /** The identifier lies at offset k of the range. */
  predicate Present(m: Memory, start: nat, n: nat, k: nat) {
    k + WINDOW <= n && m.Bytes(start + k, WINDOW) == IDENT
  }

  lemma PresentMatches(m: Memory, start: nat, n: nat, k: nat)
    requires Present(m, start, n, k)
    ensures Matches(m, start, n, k + WINDOW - 1)
  {
    hide Hash;
    IdentHash();
    var s := Padded(m, start, n);
    assert s[k + WINDOW..k + 2 * WINDOW] == m.Bytes(start + k, WINDOW);
  }

  lemma {:induction false} ScanFirst(m: Memory, start: nat, n: nat, from: nat, j: nat)
    requires from <= n
    ensures Scan(m, start, n, from) == Hit(j) <==>
      && from <= j < n && Matches(m, start, n, j)
      && (forall k | from <= k < j :: !Matches(m, start, n, k))
      && (forall k | from <= k <= j :: k % STRIDE == 0 ==> ChunkReadable(m, start, n, k))
    decreases n - from
  {
    hide Matches, ChunkReadable;
    if from < n && !(from % STRIDE == 0 && !ChunkReadable(m, start, n, from)) && !Matches(m, start, n, from) {
      ScanFirst(m, start, n, from + 1, j);
    }
  }

  lemma {:induction false} ScanStops(m: Memory, start: nat, n: nat, from: nat, j: nat)
    requires from <= j < n && Matches(m, start, n, j)
    requires forall k | from <= k <= j :: k % STRIDE == 0 ==> ChunkReadable(m, start, n, k)
    ensures exists i | from <= i <= j :: Scan(m, start, n, from) == Hit(i)
    decreases j - from
  {
    hide Matches, ChunkReadable;
    if !Matches(m, start, n, from) {
      ScanStops(m, start, n, from + 1, j);
    } else {
      assert Scan(m, start, n, from) == Hit(from);
    }
  }

  /** The chunks of the range up to byte j can be read. */
  predicate ReadableTo(m: Memory, start: nat, n: nat, j: nat)
    requires j <= n
  {
    forall i | 0 <= i <= j :: i % 128 == 0 ==> ChunkReadable(m, start, n, i)
  }

  /** No occurrence is passed over, wherever it lies: with the memory readable up to its end, the
      search ends at the first occurrence, or before it at a window with the same hash. */
  lemma NoOccurrenceMissed(m: Memory, start: nat, n: nat, k: nat)
    requires Present(m, start, n, k) && ReadableTo(m, start, n, k + WINDOW - 1)
    ensures var r := Scan(m, start, n, 0); r.Hit? && r.at <= k + WINDOW - 1
  {
    hide Matches, Scan, ChunkReadable, Padded, Hash;
    PresentMatches(m, start, n, k);
    ScanStops(m, start, n, 0, k + WINDOW - 1);
  }

  /** An occurrence is reported at its address if and only if no earlier window collides and the
      memory can be read up to its end. */
  lemma OccurrenceReported(m: Memory, start: nat, n: nat, k: nat)
    requires Present(m, start, n, k)
    ensures Scan(m, start, n, 0) == Hit(k + WINDOW - 1) <==>
      && ReadableTo(m, start, n, k + WINDOW - 1)
      && forall j | 0 <= j < k + WINDOW - 1 :: !Matches(m, start, n, j)
    ensures Reported(start, Hit(k + WINDOW - 1)) == Wrap(start + k)
  {
    hide Matches, Scan, ChunkReadable, Padded, Hash;
    PresentMatches(m, start, n, k);
    ScanFirst(m, start, n, 0, k + WINDOW - 1);
  }

  lemma Advance(m: Memory, start: nat, n: nat, j: nat)
    requires j < n
    ensures Roll(Hash(Padded(m, start, n)[j..j + WINDOW]), Padded(m, start, n)[j], Padded(m, start, n)[j + WINDOW])
         == Hash(Padded(m, start, n)[j + 1..j + 1 + WINDOW])
  {
    hide Hash, Roll;
    var s := Padded(m, start, n);
    RollIsExact(s[j..j + WINDOW], s[j + WINDOW]);
    assert s[j..j + WINDOW][1..] + [s[j + WINDOW]] == s[j + 1..j + 1 + WINDOW];
  }

  lemma HashOfZeroes()
    ensures Hash(Zeroes(WINDOW)) == 0
  {
    hide Value;
    ValueEmpty();
    FourMore([], 0, 0, 0, 0);
    FourMore([0, 0, 0, 0], 0, 0, 0, 0);
    FourMore([0, 0, 0, 0, 0, 0, 0, 0], 0, 0, 0, 0);
    FourMore([0, 0, 0, 0, 0, 0, 0, 0, 0, 0, 0, 0], 0, 0, 0, 0);
    var four: seq<byte> := [0, 0, 0, 0];
    assert [] + four == four && Zeroes(WINDOW) == [0, 0, 0, 0, 0, 0, 0, 0, 0, 0, 0, 0] + four;
    assert [0, 0, 0, 0] + four == [0, 0, 0, 0, 0, 0, 0, 0];
    assert [0, 0, 0, 0, 0, 0, 0, 0] + four == [0, 0, 0, 0, 0, 0, 0, 0, 0, 0, 0, 0];
  }

  /** The bytes of a chunk follow the window in front of it. */
  lemma ChunkContents(m: Memory, start: nat, n: nat, a: nat, len: nat)
    requires a + len <= n
    ensures Padded(m, start, n)[a..a + WINDOW] + m.Bytes(Wrap(start + a), len)
         == Padded(m, start, n)[a..a + WINDOW + len]
  {
    m.BytesWrap(start + a, len);
    var s := Padded(m, start, n);
    assert s[a + WINDOW..a + WINDOW + len] == m.Bytes(start + a, len);
  }

  lemma TailOfChunk(b: seq<byte>, s: seq<byte>, a: nat)
    requires a + WINDOW + STRIDE <= |s| && b == s[a..a + WINDOW + STRIDE]
    ensures b[STRIDE..] == s[a + STRIDE..a + STRIDE + WINDOW]
  {
  }

  /** The old tail of the buffer moves to its front, and a chunk is read in behind it. */
  method LoadChunk(m: Memory, buf: array<byte>, addr: Address, size: nat) returns (failed: bool)
    requires buf.Length == WINDOW + STRIDE && size <= STRIDE
    modifies buf
    ensures failed == !m.readable(addr, size)
    ensures !failed ==> buf[..WINDOW + size] == old(buf[STRIDE..]) + m.Bytes(addr, size)
  {
    forall i | 0 <= i < WINDOW {
      buf[i] := buf[STRIDE + i];
    }
    assert buf[..WINDOW] == old(buf[STRIDE..]);
    failed := m.Read(buf, WINDOW, addr, size);
    if !failed {
      assert buf[..WINDOW + size] == buf[..WINDOW] + buf[WINDOW..WINDOW + size];
    }
  }

  /** The inner loop: `t` is the hash of the window in front of the chunk. */
  method ScanChunk(buf: array<byte>, size: nat, t0: nat, ghost m: Memory, ghost start: nat, ghost n: nat, ghost a: nat)
    returns (t: nat, i: nat)
    requires buf.Length == WINDOW + STRIDE && 0 < size <= STRIDE && a % STRIDE == 0 && a + size <= n
    requires buf[..WINDOW + size] == Padded(m, start, n)[a..a + WINDOW + size]
    requires t0 == Hash(Padded(m, start, n)[a..a + WINDOW]) && ChunkReadable(m, start, n, a)
    ensures i <= size && (i == size ==> t == Hash(Padded(m, start, n)[a + size..a + size + WINDOW]))
    ensures Scan(m, start, n, a) == if i < size then Hit(a + i) else Scan(m, start, n, a + size)
  {
    hide Scan, Matches, Hash, Padded, Roll, Num, ChunkReadable;
    ghost var s := Padded(m, start, n);
    t := t0;
    i := 0;
    while i < size
      invariant 0 <= i <= size
      invariant t == Hash(s[a + i..a + i + WINDOW])
      invariant Scan(m, start, n, a) == Scan(m, start, n, a + i)
    {
      Advance(m, start, n, a + i);
      ScanStep(m, start, n, a + i);
      assert buf[i] == buf[..WINDOW + size][i] && buf[i + WINDOW] == buf[..WINDOW + size][i + WINDOW];
      t := Roll(t, buf[i], buf[i + WINDOW]);
      if t == P {
        return;
      }
      i := i + 1;
    }
  }

  /** fast_search. */
  method FastSearch(m: Memory, start: Address, end: Address) returns (found: Address)
    requires start < end ==> Ends(start, end, STRIDE) || Scan(m, start, end - start, 0) != Nothing
    ensures found == if start < end then Reported(start, Scan(m, start, end - start, 0)) else 0
  {
    hide Scan, Matches, Hash, Padded, Roll, Num, ChunkReadable, Ends;
    var t := 0;
    var buf := new byte[WINDOW + STRIDE](_ => 0);
    ghost var a: nat := 0;
    var addr := start;
    ghost var n := if start < end then end - start else 0;
    ghost var s := Padded(m, start, n);
    PaddedFront(m, start, n);
    HashOfZeroes();
    assert buf[STRIDE..] == Zeroes(WINDOW);
    while addr < end
      invariant addr == start + a && a % STRIDE == 0 && (start < end ==> a < n + STRIDE)
      invariant addr < end ==> buf[STRIDE..] == s[a..a + WINDOW] && t == Hash(s[a..a + WINDOW])
      invariant start < end ==> Scan(m, start, n, 0) == Scan(m, start, n, Min(a, n))
      decreases n - a
    {
      var size := Min(STRIDE, end - addr);
      ScanStep(m, start, n, a);
      ReadableChunk(m, start, n, a);
      var failed := LoadChunk(m, buf, addr, size);
      if failed {
        return 0;
      }
      ChunkContents(m, start, n, a, size);
      var i;
      t, i := ScanChunk(buf, size, t, m, start, n, a);
      if i < size {
        return Wrap(addr + i + ADDRESS_SPACE - WINDOW + 1);
      }
      if size == STRIDE {
        assert buf[..] == buf[..WINDOW + size];
        TailOfChunk(buf[..], s, a);
        assert buf[STRIDE..] == buf[..][STRIDE..];
      }
      NextAddress(m, start, end, a, size);
      addr := Wrap(addr + STRIDE);
      a := a + STRIDE;
    }
    ScanEnd(m, start, n);
    found := 0;
  }

  /** A turn without a hit leads on without wrapping around. */
  lemma NextAddress(m: Memory, start: Address, end: Address, a: nat, size: nat)
    requires start < end && a % STRIDE == 0 && a < end - start && size == Min(STRIDE, end - start - a)
    requires Ends(start, end, STRIDE) || Scan(m, start, end - start, 0) != Nothing
    requires Scan(m, start, end - start, 0) == Scan(m, start, end - start, a + size)
    ensures start + a + STRIDE < ADDRESS_SPACE
  {
    hide Matches, ChunkReadable;
    if a + STRIDE >= end - start {
      assert Scan(m, start, end - start, end - start) == Nothing;
    }
  }

  /** The address counter after k turns. */
  function Counter(start: Address, k: nat): Address { Wrap(start + 128 * k) }

  /** Where a search finds nothing, its loop ends if and only if the counter passes the end of the
      range before it wraps around: behind that, it meets the same addresses again. */
  lemma LoopEnds(start: Address, end: Address)
    requires start < end
    ensures Ends(start, end, STRIDE) <==> exists k: nat :: Counter(start, k) >= end
  {
    hide Ends, Counter;
    if Ends(start, end, STRIDE) {
      var _ := CounterPasses(start, end);
    } else {
      forall k: nat ensures Counter(start, k) < end {
        CounterStays(start, end, k);
      }
    }
  }

  lemma CounterPasses(start: Address, end: Address) returns (k: nat)
    requires start < end && Ends(start, end, STRIDE)
    ensures Counter(start, k) >= end
  {
    k := (end - start + STRIDE - 1) / STRIDE;
  }

  lemma CounterStays(start: Address, end: Address, k: nat)
    requires start < end && !Ends(start, end, STRIDE)
    ensures Counter(start, k) < end
  {
    var turns := (end - start + STRIDE - 1) / STRIDE;
    hide Wrap;
    SameResidue(start + STRIDE * k, start);
    assert start + STRIDE * (turns - 1) < end;
    LastOfResidue(Wrap(start + STRIDE * k), start, turns);
  }

  lemma SameResidue(a: nat, start: nat)
    requires a % STRIDE == start % STRIDE
    ensures Wrap(a) % STRIDE == start % STRIDE
  {
    assert a == ADDRESS_SPACE * (a / ADDRESS_SPACE) + Wrap(a);
  }

  lemma LastOfResidue(a: nat, start: nat, turns: nat)
    requires a % STRIDE == start % STRIDE && a < ADDRESS_SPACE <= start + STRIDE * turns && turns > 0
    ensures a <= start + STRIDE * (turns - 1)
  {
    var q := a / STRIDE - start / STRIDE;
    assert a == start + STRIDE * q;
  }

  lemma ReadableChunk(m: Memory, start: Address, n: nat, j: nat)
    requires j <= n && start + j < ADDRESS_SPACE
    ensures ChunkReadable(m, start, n, j) == m.readable(start + j, Min(STRIDE, n - j)) && Wrap(start + j) == start + j
  {
  }

  lemma PaddedFront(m: Memory, start: nat, n: nat)
    ensures Padded(m, start, n)[0..WINDOW] == Zeroes(WINDOW)
  {
  }

  lemma ScanEnd(m: Memory, start: nat, n: nat)
    ensures Scan(m, start, n, n) == Nothing
  {
  }

  lemma ScanStep(m: Memory, start: nat, n: nat, j: nat)
    requires j < n
    ensures Scan(m, start, n, j) ==
      if j % STRIDE == 0 && !ChunkReadable(m, start, n, j) then ReadFailed
      else if Hash(Padded(m, start, n)[j + 1..j + 1 + WINDOW]) == P then Hit(j)
      else Scan(m, start, n, j + 1)
  {
  }
}

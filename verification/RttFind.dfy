/** Finding the RTT control block in main/rtt.c: the search for a configured identifier, and
    find_rtt with its checks of the channel counts. */
module RttFind {
  import opened Arithmetic
  import opened TargetMemory
  import opened RttHash
  import opened RttSearch

  // ---------- The search for an identifier ----------

  const BUFFER: nat := 128

  /** A C string that fits half the search buffer. */
  predicate Searchable(ident: seq<byte>) {
    0 < |ident| <= 64 && 0 !in ident
  }

  function Step(ident: seq<byte>): nat
    requires Searchable(ident)
  {
    BUFFER - |ident| - 1
  }

  /** strncmp over |b| characters, for equality: it stops at the end of either string. */
  predicate SameText(a: seq<byte>, b: seq<byte>)
    requires |a| == |b|
  {
    a == [] || (a[0] == b[0] && (a[0] == 0 || SameText(a[1..], b[1..])))
  }

  lemma {:induction false} SameTextIsEqual(a: seq<byte>, b: seq<byte>)
    requires |a| == |b| && 0 !in b
    ensures SameText(a, b) <==> a == b
  {
    if a != [] {
      SameTextIsEqual(a[1..], b[1..]);
      assert a == [a[0]] + a[1..] && b == [b[0]] + b[1..];
    }
  }

  predicate TextAt(m: Memory, start: nat, ident: seq<byte>, j: nat) {
    m.Bytes(start + j, |ident|) == ident
  }

  /** The search said plainly, chunk by chunk: offset o of the chunk at a is next. */
  function Seek(m: Memory, start: nat, n: nat, ident: seq<byte>, a: nat, o: nat): Outcome
    requires Searchable(ident)
    decreases n - a, BUFFER - o
  {
    if a >= n then Nothing
    else
      var size := Min(BUFFER, n - a);
      if !m.readable(Wrap(start + a), size) || o + |ident| + 1 >= size then
        Seek(m, start, n, ident, a + Step(ident), 0)
      else if TextAt(m, start, ident, a + o) then Hit(a + o)
      else Seek(m, start, n, ident, a, o + 1)
  }

  /** The chunk that begins at a, or the one of those behind it, that offset j is looked at in. */
  function ChunkOf(a: nat, j: nat, step: nat): (c: nat)
    requires step > 0
    ensures a <= j ==> a <= c <= j
    decreases j - a
  {
    if j < a + step then a else ChunkOf(a + step, j, step)
  }

  /** Offset j is looked at: two bytes of the range are behind a text there, and its chunk can be
      read.  A chunk that cannot is skipped, with all its offsets. */
  predicate LookedAt(m: Memory, start: nat, n: nat, ident: seq<byte>, a: nat, j: nat)
    requires Searchable(ident)
  {
    var c := ChunkOf(a, j, 127 - |ident|);
    a <= j && j + |ident| + 2 <= n && m.readable(Wrap(start + c), Min(128, n - c))
  }

  lemma LookedAtNext(m: Memory, start: nat, n: nat, ident: seq<byte>, a: nat, j: nat)
    requires Searchable(ident) && a + Step(ident) <= j
    ensures LookedAt(m, start, n, ident, a, j) == LookedAt(m, start, n, ident, a + Step(ident), j)
  {
  }

  /** The search finds exactly the first occurrence among the offsets it looks at. */
  lemma {:induction false} SeekFirst(m: Memory, start: nat, n: nat, ident: seq<byte>, a: nat, o: nat, j: nat)
    requires Searchable(ident) && o <= Step(ident)
    ensures Seek(m, start, n, ident, a, o) == Hit(j) <==>
      && a + o <= j && LookedAt(m, start, n, ident, a, j) && TextAt(m, start, ident, j)
      && forall k | a + o <= k < j :: LookedAt(m, start, n, ident, a, k) ==> !TextAt(m, start, ident, k)
    decreases n - a, BUFFER - o
  {
    hide TextAt, LookedAt;
    if a < n {
      var size := Min(BUFFER, n - a);
      if !m.readable(Wrap(start + a), size) || o + |ident| + 1 >= size {
        SeekFirst(m, start, n, ident, a + Step(ident), 0, j);
        NoneLookedAt(m, start, n, ident, a, o);
      } else {
        HereLookedAt(m, start, n, ident, a, o);
        if !TextAt(m, start, ident, a + o) {
          SeekFirst(m, start, n, ident, a, o + 1, j);
        }
      }
    } else {
      BeyondLookedAt(m, start, n, ident, a);
    }
  }

  lemma BeyondLookedAt(m: Memory, start: nat, n: nat, ident: seq<byte>, a: nat)
    requires Searchable(ident) && a >= n
    ensures forall k :: a <= k ==> !LookedAt(m, start, n, ident, a, k)
  {
  }

  /** Where the search leaves a chunk, nothing more of it is looked at. */
  lemma NoneLookedAt(m: Memory, start: nat, n: nat, ident: seq<byte>, a: nat, o: nat)
    requires Searchable(ident) && a < n
    requires !m.readable(Wrap(start + a), Min(BUFFER, n - a)) || o + |ident| + 1 >= Min(BUFFER, n - a)
    ensures forall k | a + o <= k ::
      LookedAt(m, start, n, ident, a, k) <==>
      a + Step(ident) <= k && LookedAt(m, start, n, ident, a + Step(ident), k)
  {
    forall k | a + o <= k
      ensures LookedAt(m, start, n, ident, a, k) <==>
              a + Step(ident) <= k && LookedAt(m, start, n, ident, a + Step(ident), k)
    {
      if a + Step(ident) <= k {
        LookedAtNext(m, start, n, ident, a, k);
      }
    }
  }

  lemma HereLookedAt(m: Memory, start: nat, n: nat, ident: seq<byte>, a: nat, o: nat)
    requires Searchable(ident) && a < n && m.readable(Wrap(start + a), Min(BUFFER, n - a))
    requires o + |ident| + 1 < Min(BUFFER, n - a)
    ensures LookedAt(m, start, n, ident, a, a + o)
  {
  }

  /** A single occurrence in the range is found if and only if at least two more bytes of the range
      are behind it and its chunk can be read. */
  lemma FoundUnlessLast(m: Memory, start: nat, n: nat, ident: seq<byte>, j: nat)
    requires Searchable(ident) && j + |ident| <= n && TextAt(m, start, ident, j)
    requires forall k | 0 <= k && k + |ident| <= n && k != j :: !TextAt(m, start, ident, k)
    ensures Seek(m, start, n, ident, 0, 0) == (if LookedAt(m, start, n, ident, 0, j) then Hit(j) else Nothing)
  {
    hide TextAt;
    SeekFirst(m, start, n, ident, 0, 0, j);
    var r := Seek(m, start, n, ident, 0, 0);
    SeekNeverFails(m, start, n, ident, 0, 0);
    hide Seek;
    if r.Hit? {
      SeekFirst(m, start, n, ident, 0, 0, r.at);
    }
  }

  lemma {:induction false} SeekNeverFails(m: Memory, start: nat, n: nat, ident: seq<byte>, a: nat, o: nat)
    requires Searchable(ident)
    ensures Seek(m, start, n, ident, a, o) != ReadFailed
    decreases n - a, BUFFER - o
  {
    hide TextAt;
    if a < n {
      SeekNeverFails(m, start, n, ident, a + Step(ident), 0);
      if o + |ident| + 1 < Min(BUFFER, n - a) {
        SeekNeverFails(m, start, n, ident, a, o + 1);
      }
    }
  }

  lemma BytesInside(m: Memory, start: nat, a: nat, size: nat, o: nat, len: nat)
    requires o + len <= size
    ensures m.Bytes(Wrap(start + a), size)[o..o + len] == m.Bytes(start + (a + o), len)
  {
    m.BytesWrap(start + a, size);
  }

  /** The offsets of one chunk. */
  method SeekChunk(buf: array<byte>, size: nat, ident: seq<byte>,
                   ghost m: Memory, ghost start: nat, ghost n: nat, ghost a: nat)
    returns (o: nat)
    requires Searchable(ident) && buf.Length == BUFFER && a < n && size == Min(BUFFER, n - a)
    requires m.readable(Wrap(start + a), size) && buf[..size] == m.Bytes(Wrap(start + a), size)
    ensures Seek(m, start, n, ident, a, 0)
         == if o + |ident| + 1 < size then Hit(a + o) else Seek(m, start, n, ident, a + Step(ident), 0)
  {
    hide TextAt, SameText;
    o := 0;
    while o + |ident| + 1 < size
      invariant Seek(m, start, n, ident, a, 0) == Seek(m, start, n, ident, a, o)
      decreases size - o
    {
      var text := buf[o..o + |ident|];
      PartOf(buf[..], size, o, |ident|);
      BytesInside(m, start, a, size, o, |ident|);
      SameTextIsEqual(text, ident);
      TextMeaning(m, start, ident, a + o);
      if SameText(text, ident) {
        return;
      }
      o := o + 1;
    }
  }

  lemma PartOf(s: seq<byte>, size: nat, o: nat, len: nat)
    requires o + len <= size <= |s|
    ensures s[..size][o..o + len] == s[o..o + len]
  {
  }

  lemma TextMeaning(m: Memory, start: nat, ident: seq<byte>, j: nat)
    ensures TextAt(m, start, ident, j) == (m.Bytes(start + j, |ident|) == ident)
  {
  }

  function Where(start: nat, r: Outcome): Address {
    if r.Hit? then Wrap(start + r.at) else 0
  }

  /** Reads a chunk and searches it; a chunk that cannot be read is skipped. */
  method ReadChunk(m: Memory, buf: array<byte>, addr: Address, size: nat, ident: seq<byte>,
                   ghost start: nat, ghost n: nat, ghost a: nat) returns (hit: bool, o: nat)
    requires Searchable(ident) && buf.Length == BUFFER && a < n && size == Min(BUFFER, n - a) && addr == start + a
    modifies buf
    ensures Seek(m, start, n, ident, a, 0) == if hit then Hit(a + o) else Seek(m, start, n, ident, a + Step(ident), 0)
  {
    hide TextAt, SameText, Seek, Searchable;
    o := 0;
    var failed := m.Read(buf, 0, addr, size);
    if failed {
      SkipChunk(m, start, n, ident, a);
      return false, 0;
    }
    assert buf[..size] == buf[0..size];
    o := SeekChunk(buf, size, ident, m, start, n, a);
    hit := o + |ident| + 1 < size;
  }

  /** The loop of memory_search over the chunks of a range. */
  method SearchRange(m: Memory, start: Address, end: Address, ident: seq<byte>, step: nat) returns (found: Address)
    requires start < end && Searchable(ident) && step == Step(ident) && step > 0
    requires Ends(start, end, step) || Seek(m, start, end - start, ident, 0, 0) != Nothing
    ensures found == Where(start, Seek(m, start, end - start, ident, 0, 0))
  {
    hide *;
    NoChunks(step);
    var buf := new byte[BUFFER];
    var addr := start;
    ghost var a: nat := 0;
    ghost var chunks: nat := 0;
    ghost var n := end - start;
    while addr < end
      invariant addr == start + a && ChunksTo(a, step, chunks)
      invariant Seek(m, start, n, ident, 0, 0) == Seek(m, start, n, ident, a, 0)
      decreases end - addr
    {
      var size := if end - addr < BUFFER then end - addr else BUFFER;
      ChunkSize(end - addr, size);
      var hit, o := ReadChunk(m, buf, addr, size, ident, start, n, a);
      if hit {
        WhereHit(start, a, o);
        return Wrap(addr + o);
      }
      NothingBeyond(m, start, n, ident, a + step);
      NextChunk(start, end, step, a, chunks);
      NoWrap(addr + step);
      addr := Wrap(addr + step);
      a, chunks := a + step, chunks + 1;
    }
    NothingBeyond(m, start, n, ident, a);
    found := 0;
  }

  lemma NoWrap(a: nat)
    ensures a < ADDRESS_SPACE ==> Wrap(a) == a
  {
  }

  lemma ChunkSize(left: nat, size: nat)
    requires size == if left < BUFFER then left else BUFFER
    ensures size == Min(BUFFER, left)
  {
  }

  /** memory_search. */
  method MemorySearch(m: Memory, start: Address, end: Address, ident: seq<byte>) returns (found: Address)
    requires 0 !in ident
    requires Searchable(ident) && start < end ==>
      Ends(start, end, Step(ident)) || Seek(m, start, end - start, ident, 0, 0) != Nothing
    ensures found ==
      if Searchable(ident) && start < end then Where(start, Seek(m, start, end - start, ident, 0, 0)) else 0
  {
    hide Seek, Where, Ends;
    found := 0;
    if |ident| == 0 || |ident| > BUFFER / 2 {
      return;
    }
    if start < end {
      found := SearchRange(m, start, end, ident, BUFFER - |ident| - 1);
    }
  }

  lemma WhereHit(start: nat, a: nat, o: nat)
    ensures Where(start, Hit(a + o)) == Wrap(start + a + o)
  {
  }

  lemma SkipChunk(m: Memory, start: Address, n: nat, ident: seq<byte>, a: nat)
    requires Searchable(ident) && a < n && start + a < ADDRESS_SPACE && !m.readable(start + a, Min(BUFFER, n - a))
    ensures Seek(m, start, n, ident, a, 0) == Seek(m, start, n, ident, a + Step(ident), 0)
  {
  }

  lemma NothingBeyond(m: Memory, start: nat, n: nat, ident: seq<byte>, a: nat)
    requires Searchable(ident)
    ensures a >= n ==> Seek(m, start, n, ident, a, 0) == Nothing && Where(start, Nothing) == 0
  {
  }

  predicate ChunksTo(a: nat, stride: nat, chunks: nat) { a == stride * chunks }

  lemma NoChunks(stride: nat)
    ensures ChunksTo(0, stride, 0)
  {
  }

  lemma NextChunk(start: Address, end: Address, stride: nat, a: nat, chunks: nat)
    requires stride > 0 && ChunksTo(a, stride, chunks) && start + a < end
    requires start + a + stride < end || Ends(start, end, stride)
    ensures start + a + stride < ADDRESS_SPACE && ChunksTo(a + stride, stride, chunks + 1)
  {
    var n := end - start;
    var k := (n + stride - 1) / stride;
    assert n + stride - 1 == stride * k + (n + stride - 1) % stride;
    assert stride * (chunks + 1) == stride * chunks + stride;
    MulOrder(stride, chunks, k);
  }

  lemma MulOrder(s: nat, c: nat, k: nat)
    requires s > 0
    ensures s * c < s * k ==> s * (c + 1) <= s * k
  {
    if c + 1 <= k {
      Distribute(s, c + 1, k - c - 1);
    } else {
      Distribute(s, k, c - k);
    }
  }

  lemma Distribute(s: nat, x: nat, y: nat)
    ensures s * (x + y) == s * x + s * y && s * y >= 0
  {
  }

  // ---------- Channel counts ----------

  const MAX_CHANNELS: nat := 16

  datatype Verdict = BadBlock | EmptyBlock | Channels(up: nat, down: nat)

  /** The checks of find_rtt on the two counts read from the target, in 32-bit arithmetic. */
  function Judge(up: Address, down: Address): Verdict {
    var up := if up > MAX_CHANNELS then MAX_CHANNELS else up;
    var down := if Wrap(up + down) > MAX_CHANNELS then MAX_CHANNELS - up else down;
    if up > 255 || down > 255 then BadBlock
    else if up == 0 && down == 0 then EmptyBlock
    else Channels(up, down)
  }

  /** Up channels come first and down channels get what is left of the table; a block is bad
      exactly when the sum of the counts wraps around. */
  lemma JudgeClamps(up: Address, down: Address)
    ensures Judge(up, down) == BadBlock <==> Min(up, MAX_CHANNELS) + down >= ADDRESS_SPACE
    ensures Judge(up, down) == EmptyBlock <==> up == 0 && down == 0
    ensures Judge(up, down).Channels? ==>
      Judge(up, down) == Channels(Min(up, MAX_CHANNELS), Min(down, MAX_CHANNELS - Min(up, MAX_CHANNELS)))
  {
  }

  /** Automatic selection: the first two up channels and the first down channel. */
  function AutoEnabled(up: nat, down: nat): (s: seq<bool>)
    ensures |s| == MAX_CHANNELS
  {
    seq(MAX_CHANNELS, i => (i < 2 && i < up) || (i == up && down > 0))
  }

  function Le32(s: seq<byte>): Address
    requires |s| == 4
  {
    FromDigits(Num(s[0]), Num(s[1]), Num(s[2]), Num(s[3]))
  }

  function FromDigits(a: nat, b: nat, c: nat, d: nat): Address
    requires a < 0x100 && b < 0x100 && c < 0x100 && d < 0x100
  {
    a + 0x100 * b + 0x1_0000 * c + 0x100_0000 * d
  }

  function CountsAt(m: Memory, cb: Address): Verdict {
    Judge(Le32(m.Bytes(cb + 16, 4)), Le32(m.Bytes(cb + 20, 4)))
  }

  /** The four bytes at a, least significant first. */
  function WordAt(m: Memory, a: nat): nat {
    m.byteAt(Wrap(a)) as int + 0x100 * (m.byteAt(Wrap(a + 1)) as int) + 0x1_0000 * (m.byteAt(Wrap(a + 2)) as int)
    + 0x100_0000 * (m.byteAt(Wrap(a + 3)) as int)
  }

  /** The number of up channels is the word behind the 16 bytes of the identifier, that of down
      channels the next. */
  lemma CountsLayout(m: Memory, cb: Address)
    ensures
      var up, down := WordAt(m, cb + 16), WordAt(m, cb + 20);
      && up < ADDRESS_SPACE && down < ADDRESS_SPACE && CountsAt(m, cb) == Judge(up, down)
      && (CountsAt(m, cb).Channels? <==> (up != 0 || down != 0) && Min(up, MAX_CHANNELS) + down < ADDRESS_SPACE)
      && (CountsAt(m, cb).Channels? ==>
            CountsAt(m, cb) == Channels(Min(up, MAX_CHANNELS), Min(down, MAX_CHANNELS - Min(up, MAX_CHANNELS))))
  {
    WordLayout(m, cb + 16);
    WordLayout(m, cb + 20);
    hide Le32, WordAt, Judge;
    JudgeClamps(WordAt(m, cb + 16), WordAt(m, cb + 20));
    JudgeKinds(WordAt(m, cb + 16), WordAt(m, cb + 20));
  }

  lemma JudgeKinds(up: Address, down: Address)
    ensures Judge(up, down).Channels? || Judge(up, down) == BadBlock || Judge(up, down) == EmptyBlock
  {
  }

  lemma WordLayout(m: Memory, a: nat)
    ensures WordAt(m, a) == Le32(m.Bytes(a, 4))
  {
    hide FromDigits, Num;
    var b := m.Bytes(a, 4);
    assert b[0] == m.byteAt(Wrap(a)) && b[1] == m.byteAt(Wrap(a + 1));
    assert b[2] == m.byteAt(Wrap(a + 2)) && b[3] == m.byteAt(Wrap(a + 3));
    NumIs(b[0]);
    NumIs(b[1]);
    NumIs(b[2]);
    NumIs(b[3]);
    DigitsAre(Num(b[0]), Num(b[1]), Num(b[2]), Num(b[3]));
  }

  lemma NumIs(b: byte)
    ensures Num(b) == b as int
  {
  }

  lemma DigitsAre(a: nat, b: nat, c: nat, d: nat)
    requires a < 0x100 && b < 0x100 && c < 0x100 && d < 0x100
    ensures FromDigits(a, b, c, d) == a + 0x100 * b + 0x1_0000 * c + 0x100_0000 * d
  {
  }

  datatype Region = Region(start: Address, end: Address)

  /** The search of the region comes to an end. */
  predicate RegionEnds(m: Memory, r: Region, ident: seq<byte>) {
    r.start < r.end ==>
      if ident == [] then
        Ends(r.start, r.end, STRIDE) || Scan(m, r.start, r.end - r.start, 0) != Nothing
      else
        Searchable(ident) ==>
          Ends(r.start, r.end, Step(ident)) || Seek(m, r.start, r.end - r.start, ident, 0, 0) != Nothing
  }

  /** What one search reports for a region, 0 for nothing. */
  function SearchOne(m: Memory, r: Region, ident: seq<byte>): Address {
    if r.start >= r.end then 0
    else if ident == [] then Reported(r.start, Scan(m, r.start, r.end - r.start, 0))
    else if Searchable(ident) then Where(r.start, Seek(m, r.start, r.end - r.start, ident, 0, 0))
    else 0
  }

  /** The first region that reports something. */
  function SearchAll(m: Memory, regions: seq<Region>, ident: seq<byte>): Address {
    if regions == [] then 0
    else if SearchOne(m, regions[0], ident) != 0 then SearchOne(m, regions[0], ident)
    else SearchAll(m, regions[1..], ident)
  }

  /** So does the search of every region that is searched: those up to the first hit. */
  predicate SearchEnds(m: Memory, regions: seq<Region>, ident: seq<byte>) {
    forall i | 0 <= i < |regions| :: SearchAll(m, regions[..i], ident) == 0 ==> RegionEnds(m, regions[i], ident)
  }

  lemma {:induction false} SearchMore(m: Memory, regions: seq<Region>, r: Region, ident: seq<byte>)
    ensures SearchAll(m, regions + [r], ident) ==
            if SearchAll(m, regions, ident) != 0 then SearchAll(m, regions, ident) else SearchOne(m, r, ident)
  {
    hide SearchOne;
    if regions == [] {
      assert [] + [r] == [r] && [r][1..] == [];
    } else {
      assert (regions + [r])[1..] == regions[1..] + [r];
      SearchMore(m, regions[1..], r, ident);
    }
  }

  /** The loop over the regions, which stops at the first hit. */
  method SearchRegions(m: Memory, regions: seq<Region>, ident: seq<byte>) returns (cbaddr: Address)
    requires 0 !in ident && SearchEnds(m, regions, ident)
    ensures cbaddr == SearchAll(m, regions, ident)
  {
    hide Scan, Seek, Ends, Searchable;
    cbaddr := 0;
    var k := 0;
    while k < |regions| && cbaddr == 0
      invariant 0 <= k <= |regions| && SearchAll(m, regions[..k], ident) == cbaddr
      invariant cbaddr != 0 ==> SearchAll(m, regions, ident) == cbaddr
    {
      var r := regions[k];
      assert RegionEnds(m, r, ident);
      if ident == [] {
        cbaddr := FastSearch(m, r.start, r.end);
      } else {
        cbaddr := MemorySearch(m, r.start, r.end, ident);
      }
      SearchMore(m, regions[..k], r, ident);
      assert regions[..k] + [r] == regions[..k + 1];
      k := k + 1;
      if cbaddr != 0 {
        FirstHitStays(m, regions, k, ident);
      }
    }
    assert regions[..|regions|] == regions;
  }

  lemma {:induction false} FirstHitStays(m: Memory, regions: seq<Region>, k: nat, ident: seq<byte>)
    requires k <= |regions| && SearchAll(m, regions[..k], ident) != 0
    ensures SearchAll(m, regions, ident) == SearchAll(m, regions[..k], ident)
  {
    hide SearchOne;
    if k > 0 {
      assert regions[..k][1..] == regions[1..][..k - 1];
      if SearchOne(m, regions[0], ident) == 0 {
        FirstHitStays(m, regions[1..], k - 1, ident);
      }
    }
  }

  lemma FirstReports(m: Memory, before: seq<Region>, r: Region, behind: seq<Region>, ident: seq<byte>)
    requires SearchAll(m, before, ident) == 0 && SearchOne(m, r, ident) != 0
    ensures SearchAll(m, before + [r] + behind, ident) == SearchOne(m, r, ident)
  {
    hide SearchOne;
    SearchMore(m, before, r, ident);
    assert (before + [r] + behind)[..|before| + 1] == before + [r];
    FirstHitStays(m, before + [r] + behind, |before| + 1, ident);
  }

  /** A control block behind regions that report nothing is found at its address, if no window
      before it collides and the memory can be read up to its end. */
  lemma BlockFound(m: Memory, before: seq<Region>, r: Region, behind: seq<Region>, n: nat, k: nat)
    requires SearchAll(m, before, []) == 0 && r.start + n == r.end && r.start + k > 0
    requires Present(m, r.start, n, k) && ReadableTo(m, r.start, n, k + 15)
    requires forall j | 0 <= j < k + 15 :: !Matches(m, r.start, n, j)
    ensures SearchAll(m, before + [r] + behind, []) == r.start + k
  {
    hide Scan, Seek, Matches, ChunkReadable, SearchAll;
    assert WINDOW == 16;
    OccurrenceReported(m, r.start, n, k);
    FirstReports(m, before, r, behind, []);
  }

  /** So is an identifier of the user, if it is the only one in its region, two more bytes of the
      region are behind it and its chunk can be read. */
  lemma TextFound(m: Memory, before: seq<Region>, r: Region, behind: seq<Region>, ident: seq<byte>, n: nat, j: nat)
    requires SearchAll(m, before, ident) == 0 && r.start + n == r.end && r.start + j > 0
    requires Searchable(ident) && j + |ident| <= n && TextAt(m, r.start, ident, j)
    requires LookedAt(m, r.start, n, ident, 0, j)
    requires forall k | 0 <= k && k + |ident| <= n && k != j :: !TextAt(m, r.start, ident, k)
    ensures SearchAll(m, before + [r] + behind, ident) == r.start + j
  {
    hide Scan, Seek, TextAt, LookedAt, SearchAll;
    FoundUnlessLast(m, r.start, n, ident, j);
    FirstReports(m, before, r, behind, ident);
  }

  class Rtt {
    var enabled: bool
    var found: bool
    var cbaddr: Address
    var numUp: nat
    var numDown: nat
    var autoChannel: bool
    var channelEnabled: seq<bool>
    var ident: seq<byte>
    var savedHeader: seq<byte>

    /** find_rtt over the RAM regions of the target, or the one region the user gave. */
    method FindRtt(m: Memory, regions: seq<Region>)
      requires enabled ==> 0 !in ident && SearchEnds(m, regions, ident)
      modifies `enabled, `found, `cbaddr, `numUp, `numDown, `channelEnabled, `savedHeader
      ensures !old(enabled) ==> !found && unchanged(`enabled, `cbaddr, `numUp, `numDown, `channelEnabled)
      ensures old(enabled) ==>
        var cb := SearchAll(m, regions, ident);
        var counted := cb != 0 && m.readable(Wrap(cb + 16), 8);
        var up, down := WordAt(m, cb + 16), WordAt(m, cb + 20);
        var good := (up != 0 || down != 0) && Min(up, 16) + down < 0x1_0000_0000;
        && cbaddr == cb
        && enabled == !(counted && !good)
        && found == (counted && good && m.readable(cb, 24))
        && (found ==>
              && numUp == Min(up, 16) && numDown == Min(down, 16 - numUp) && savedHeader == m.Bytes(cb, 24)
              && (autoChannel ==> channelEnabled == AutoEnabled(numUp, numDown)))
    {
      hide SearchAll, SearchEnds, CountsAt, AutoEnabled, Wrap, WordAt;
      found := false;
      if !enabled {
        return;
      }
      cbaddr := SearchRegions(m, regions, ident);
      CountsLayout(m, cbaddr);
      if cbaddr != 0 {
        CheckBlock(m);
      }
    }

    /** The part of find_rtt behind the search. */
    method CheckBlock(m: Memory)
      requires enabled && !found
      modifies `enabled, `found, `numUp, `numDown, `channelEnabled, `savedHeader
      ensures
        var counted := m.readable(Wrap(cbaddr + 16), 8);
        && enabled == !(counted && !CountsAt(m, cbaddr).Channels?)
        && found == (counted && CountsAt(m, cbaddr).Channels? && m.readable(cbaddr, 24))
        && (found ==>
              && CountsAt(m, cbaddr) == Channels(numUp, numDown) && savedHeader == m.Bytes(cbaddr, 24)
              && (autoChannel ==> channelEnabled == AutoEnabled(numUp, numDown)))
    {
      hide Le32, Num, AutoEnabled;
      var failed, up, down := ReadCounts(m, cbaddr);
      if failed {
        return;
      }
      numUp := up;
      if numUp > MAX_CHANNELS {
        numUp := MAX_CHANNELS;
      }
      numDown := down;
      if Wrap(numUp + numDown) > MAX_CHANNELS {
        numDown := MAX_CHANNELS - numUp;
      }
      if numUp > 255 || numDown > 255 {
        enabled := false;
        return;
      }
      if numUp == 0 && numDown == 0 {
        enabled := false;
        return;
      }
      if autoChannel {
        channelEnabled := SelectChannels(numUp, numDown);
      }
      failed := SaveHeader(m);
      if failed {
        return;
      }
      found := true;
    }

    /** Keeps the first 24 bytes of the block to compare with later. */
    method SaveHeader(m: Memory) returns (failed: bool)
      modifies `savedHeader
      ensures failed == !m.readable(cbaddr, 24) && (!failed ==> savedHeader == m.Bytes(cbaddr, 24))
    {
      var header := new byte[24];
      failed := m.Read(header, 0, cbaddr, 24);
      savedHeader := header[..];
      assert header[0..24] == header[..];
    }
  }

  method ReadCounts(m: Memory, cb: Address) returns (failed: bool, up: Address, down: Address)
    ensures failed == !m.readable(Wrap(cb + 16), 8)
    ensures !failed ==> CountsAt(m, cb) == Judge(up, down)
  {
    hide Le32, Num, Judge;
    var numBuf := new byte[8];
    failed := m.Read(numBuf, 0, Wrap(cb + 16), 8);
    if failed {
      return failed, 0, 0;
    }
    BothCounts(m, cb);
    assert numBuf[..4] == numBuf[0..8][..4] && numBuf[4..8] == numBuf[0..8][4..];
    up, down := Le32(numBuf[..4]), Le32(numBuf[4..8]);
  }

  method SelectChannels(up: nat, down: nat) returns (on: seq<bool>)
    requires up + down <= MAX_CHANNELS
    ensures on == AutoEnabled(up, down)
  {
    on := seq(MAX_CHANNELS, _ => false);
    on := on[0 := up > 0];
    on := on[1 := up > 1];
    if up < MAX_CHANNELS && down > 0 {
      on := on[up := true];
    }
  }

  lemma BothCounts(m: Memory, cb: Address)
    ensures m.Bytes(Wrap(cb + 16), 8)[..4] == m.Bytes(cb + 16, 4)
    ensures m.Bytes(Wrap(cb + 16), 8)[4..] == m.Bytes(cb + 20, 4)
  {
    m.BytesWrap(cb + 16, 8);
    m.BytesSplit(cb + 16, 4, 4);
  }
}

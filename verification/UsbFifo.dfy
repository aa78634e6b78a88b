/** The receive FIFO that all endpoints of the DWC core share,
    libopencm3/lib/usb/usb_dwc_common.c: packets are stored in whole words, and the driver and
    the callbacks it runs take them out word by word. */
module UsbFifo {
  import opened Arithmetic

  type byte = b: int | 0 <= b < 256 witness 0

  datatype Word = Word(b0: byte, b1: byte, b2: byte, b3: byte)

  function WordBytes(w: Word): seq<byte> { [w.b0, w.b1, w.b2, w.b3] }

  function Unpack(words: seq<Word>): (s: seq<byte>)
    ensures |s| == 4 * |words|
  {
    if words == [] then [] else WordBytes(words[0]) + Unpack(words[1..])
  }

  /** Byte 4i + j of a packet is byte j of word i. */
  lemma {:induction false} UnpackAt(words: seq<Word>, i: nat)
    requires i < |words|
    ensures
      var s := Unpack(words);
      && s[4 * i] == words[i].b0 && s[4 * i + 1] == words[i].b1
      && s[4 * i + 2] == words[i].b2 && s[4 * i + 3] == words[i].b3
  {
    if i > 0 {
      UnpackAt(words[1..], i - 1);
      assert Unpack(words)[4..] == Unpack(words[1..]);
    }
  }

  /** The words that n bytes occupy. */
  function Words(n: nat): nat { (n + 3) / 4 }

  lemma {:induction false} UnpackSlice(words: seq<Word>, i: nat)
    requires i <= |words|
    ensures Unpack(words)[4 * i..] == Unpack(words[i..])
    decreases i
  {
    if i > 0 {
      UnpackSlice(words[1..], i - 1);
      assert words[1..][i - 1..] == words[i..];
      assert Unpack(words)[4 * i..] == Unpack(words[1..])[4 * (i - 1)..];
    }
  }

  lemma TakeTake<T>(data: seq<T>, n: nat, m: nat)
    requires n + m <= |data|
    ensures data[..n] + data[n..][..m] == data[..n + m]
  {
  }

  lemma UnpackHead(words: seq<Word>)
    requires words != []
    ensures |WordBytes(words[0])| == 4 && Unpack(words)[..4] == WordBytes(words[0])
  {
  }

  /** Byte 4i onwards is word i. */
  lemma UnpackNext(words: seq<Word>, i: nat, n: nat)
    requires i < |words| && n <= 4
    ensures Unpack(words)[..4 * i + n] == Unpack(words)[..4 * i] + WordBytes(words[i])[..n]
  {
    hide Unpack, WordBytes;
    UnpackSlice(words, i);
    UnpackHead(words[i..]);
    var behind := Unpack(words[i..]);
    assert |behind| >= 4 && behind[..4][..n] == behind[..n];
    TakeTake(Unpack(words), 4 * i, n);
  }

  /** memcpy of the first n bytes of a word. */
  method Store(buf: array<byte>, at: nat, w: Word, n: nat)
    requires n <= 4 && at + n <= buf.Length
    modifies buf
    ensures buf[..at + n] == old(buf[..at]) + WordBytes(w)[..n]
    ensures buf[at + n..] == old(buf[at + n..])
  {
    forall k | 0 <= k < n {
      buf[at + k] := WordBytes(w)[k];
    }
  }

  /** What is left of a packet after a read: the read takes whole words. */
  function Left(left: nat, len: nat): nat {
    var used := 4 * Words(Min(len, left));
    if left < used then 0 else left - used
  }

  lemma WordsLeft(left: nat, len: nat)
    ensures Words(Min(len, left)) + Words(Left(left, len)) == Words(left)
  {
  }

  lemma WordsOfPart(left: nat, len: nat)
    ensures
      var got := Min(len, left);
      && Words(got) <= Words(left)
      && Words(got) == got / 4 + (if got % 4 == 0 then 0 else 1)
      && Left(left, len) == (if left < 4 * Words(got) then 0 else left - 4 * Words(got))
  {
  }

  /** What reads of the given sizes return: each starts at the next word. */
  function Reads<T>(data: seq<T>, left: nat, sizes: seq<nat>): seq<seq<T>>
    requires 4 * Words(left) <= |data|
    decreases |sizes|
  {
    if sizes == [] then []
    else
      var got := Min(sizes[0], left);
      var used := 4 * Words(got);
      [data[..got]] + Reads(data[used..], Left(left, sizes[0]), sizes[1..])
  }

  lemma NoMoreReads<T>(data: seq<T>, left: nat)
    requires 4 * Words(left) <= |data|
    ensures Reads(data, left, []) == [] && Join(Reads(data, left, [])) == []
  {
  }

  lemma ReadsStep(words: seq<Word>, left: nat, sizes: seq<nat>)
    requires Words(left) <= |words| && sizes != []
    ensures
      var got := Min(sizes[0], left);
      Reads(Unpack(words), left, sizes)
        == [Unpack(words)[..got]] + Reads(Unpack(words[Words(got)..]), Left(left, sizes[0]), sizes[1..])
  {
    UnpackSlice(words, Words(Min(sizes[0], left)));
  }

  class Driver {
    var fifo: seq<Word>
    var rxbcnt: nat

    /** One read of OTG_FIFO(0). */
    method Pop() returns (w: Word)
      requires fifo != []
      modifies `fifo
      ensures w == old(fifo)[0] && fifo == old(fifo)[1..]
    {
      w := fifo[0];
      fifo := fifo[1..];
    }

    /** While a packet is being handled its remaining rxbcnt bytes are in the FIFO. */
    ghost predicate Valid()
      reads this
    {
      Words(rxbcnt) <= |fifo|
    }

    /** dwc_ep_read_packet: takes whole words, and returns as many bytes as asked for and left. */
    method ReadPacket(buf: array<byte>, len: nat) returns (got: nat)
      requires Valid() && Min(len, rxbcnt) <= buf.Length
      modifies this, buf
      ensures Valid()
      ensures got == Min(len, old(rxbcnt))
      ensures fifo == old(fifo)[Words(got)..]
      ensures rxbcnt == Left(old(rxbcnt), len)
      ensures buf[..got] == Unpack(old(fifo))[..got]
      ensures buf[got..] == old(buf[got..])
    {
      hide Unpack, WordBytes, Words, Left;
      got := Min(len, rxbcnt);
      WordsOfPart(rxbcnt, len);
      WordsLeft(rxbcnt, len);
      ghost var words := fifo;
      var at := ReadWords(buf, got);
      var i := got - 4 * at;
      if i != 0 {
        UnpackNext(words, at, i);
        var extra := Pop();
        if rxbcnt < 4 {
          rxbcnt := 0;
        } else {
          rxbcnt := rxbcnt - 4;
        }
        Store(buf, 4 * at, extra, i);
      }
    }

    /** The loop over the whole words of a read. */
    method ReadWords(buf: array<byte>, got: nat) returns (at: nat)
      requires got <= rxbcnt && got <= buf.Length && got / 4 <= |fifo|
      modifies this, buf
      ensures at == got / 4
      ensures fifo == old(fifo)[at..] && rxbcnt == old(rxbcnt) - 4 * at
      ensures buf[..4 * at] == Unpack(old(fifo))[..4 * at] && buf[got..] == old(buf[got..])
    {
      hide Unpack, WordBytes;
      ghost var words := fifo;
      var i := got;
      at := 0;
      assert words[0..] == words;
      while i >= 4
        invariant i == got - 4 * at && at <= |words| && 4 * at <= got
        invariant fifo == words[at..] && rxbcnt == old(rxbcnt) - 4 * at
        invariant buf[..4 * at] == Unpack(words)[..4 * at]
        invariant buf[got..] == old(buf[got..])
      {
        UnpackNext(words, at, 4);
        var w := Pop();
        ghost var behind := buf[4 * at + 4..];
        Store(buf, 4 * at, w, 4);
        assert buf[got..] == behind[got - 4 * at - 4..];
        rxbcnt := rxbcnt - 4;
        i := i - 4;
        at := at + 1;
      }
    }

    /** The loop that discards what a callback left, and the reset behind it. */
    method Discard()
      requires Valid()
      modifies this
      ensures fifo == old(fifo)[Words(old(rxbcnt))..] && rxbcnt == 0
    {
      var i := 0;
      ghost var n := 0;
      assert fifo[0..] == fifo;
      while i < rxbcnt
        invariant i == 4 * n && n <= Words(rxbcnt) && rxbcnt == old(rxbcnt)
        invariant fifo == old(fifo)[n..]
        decreases rxbcnt - i
      {
        var _ := Pop();
        i := i + 4;
        n := n + 1;
      }
      rxbcnt := 0;
    }

    /** One read a callback makes, into a buffer of its own. */
    method CallbackRead(len: nat) returns (data: seq<byte>)
      requires Valid()
      modifies this
      ensures Valid()
      ensures data == Unpack(old(fifo))[..Min(len, old(rxbcnt))]
      ensures fifo == old(fifo)[Words(Min(len, old(rxbcnt)))..]
      ensures rxbcnt == Left(old(rxbcnt), len)
    {
      hide Unpack;
      var buf := new byte[Min(len, rxbcnt)];
      var got := ReadPacket(buf, len);
      assert buf[..got] == buf[..];
      data := buf[..];
    }

    /** The receive part of dwc_poll for a packet of bcnt bytes: a callback that makes reads of
        the given sizes, then the discard loop.  Whatever the callback reads, the packet leaves
        the FIFO exactly, and the packet behind it is untouched. */
    method Poll(bcnt: nat, sizes: seq<nat>) returns (parts: seq<seq<byte>>)
      requires Words(bcnt) <= |fifo|
      modifies this
      ensures fifo == old(fifo)[Words(bcnt)..] && rxbcnt == 0
      ensures parts == Reads(Unpack(old(fifo)), bcnt, sizes)
    {
      hide Unpack, Reads, Words, Left, Min;
      rxbcnt := bcnt;
      parts := [];
      ghost var words := fifo;
      ghost var popped: nat := 0;
      assert words[0..] == words && sizes[0..] == sizes;
      for k := 0 to |sizes|
        invariant Valid() && popped <= |words| && fifo == words[popped..]
        invariant popped + Words(rxbcnt) == Words(bcnt)
        invariant Reads(Unpack(words), bcnt, sizes) == parts + Reads(Unpack(fifo), rxbcnt, sizes[k..])
      {
        ghost var got, rest := Min(sizes[k], rxbcnt), sizes[k + 1..];
        assert sizes[k..][0] == sizes[k] && sizes[k..][1..] == rest;
        ReadsStep(fifo, rxbcnt, sizes[k..]);
        WordsLeft(rxbcnt, sizes[k]);
        SliceTwice(words, popped, Words(got));
        var data := CallbackRead(sizes[k]);
        popped := popped + Words(got);
        AppendThen(parts, data, Reads(Unpack(fifo), rxbcnt, rest));
        parts := parts + [data];
      }
      NoMoreReads(Unpack(fifo), rxbcnt);
      assert sizes[|sizes|..] == [] && parts + [] == parts;
      SliceTwice(words, popped, Words(rxbcnt));
      Discard();
    }
  }

  lemma SliceTwice<T>(s: seq<T>, a: nat, b: nat)
    ensures a + b <= |s| ==> s[a..][b..] == s[a + b..]
  {
  }

  lemma AppendThen<T>(parts: seq<T>, p: T, rest: seq<T>)
    ensures parts + ([p] + rest) == parts + [p] + rest
  {
  }

  function Join<T>(parts: seq<seq<T>>): seq<T> {
    if parts == [] then [] else parts[0] + Join(parts[1..])
  }

  /** Sizes none of which, except at the end of the packet, breaks a word. */
  predicate Aligned(left: nat, sizes: seq<nat>)
    decreases |sizes|
  {
    sizes == [] ||
    var got := Min(sizes[0], left);
    if got % 4 == 0 then Aligned(left - got, sizes[1..]) else left == got || Total(sizes[1..]) == 0
  }

  function Total(sizes: seq<nat>): nat {
    if sizes == [] then 0 else sizes[0] + Total(sizes[1..])
  }

  lemma {:induction false} NothingRead<T>(data: seq<T>, left: nat, sizes: seq<nat>)
    requires 4 * Words(left) <= |data|
    requires left == 0 || Total(sizes) == 0
    ensures Join(Reads(data, left, sizes)) == []
    decreases |sizes|
  {
    if sizes != [] {
      var got := Min(sizes[0], left);
      assert got == 0 && Words(got) == 0 && data[0..] == data && data[..0] == [];
      NothingRead(data, left, sizes[1..]);
      assert Reads(data, left, sizes)[1..] == Reads(data, left, sizes[1..]);
    }
  }

  lemma JoinCons<T>(head: seq<T>, tail: seq<seq<T>>)
    ensures Join([head] + tail) == head + Join(tail)
  {
    assert ([head] + tail)[1..] == tail;
  }

  lemma OneRead<T>(data: seq<T>, left: nat, sizes: seq<nat>)
    requires 4 * Words(left) <= |data| && sizes != []
    ensures
      var got := Min(sizes[0], left);
      && got <= 4 * Words(got) <= |data|
      && (got % 4 == 0 ==> 4 * Words(got) == got && Left(left, sizes[0]) == left - got)
      && 4 * Words(Left(left, sizes[0])) <= |data[4 * Words(got)..]|
      && Join(Reads(data, left, sizes))
         == data[..got] + Join(Reads(data[4 * Words(got)..], Left(left, sizes[0]), sizes[1..]))
  {
    var got := Min(sizes[0], left);
    WordsLeft(left, sizes[0]);
    JoinCons(data[..got], Reads(data[4 * Words(got)..], Left(left, sizes[0]), sizes[1..]));
  }

  /** Reads that respect words bring the packet out without gaps. */
  lemma {:induction false} AlignedReadsJoin<T>(data: seq<T>, left: nat, sizes: seq<nat>)
    requires 4 * Words(left) <= |data| && Aligned(left, sizes)
    ensures Join(Reads(data, left, sizes)) == data[..Min(Total(sizes), left)]
    decreases |sizes|
  {
    if sizes == [] {
      NoMoreReads(data, left);
      assert data[..0] == [];
    } else {
      hide Reads, Join, Words, Left;
      WordsCover(left);
      var got := Min(sizes[0], left);
      OneRead(data, left, sizes);
      if got % 4 == 0 {
        var rest := left - got;
        AlignedReadsJoin(data[got..], rest, sizes[1..]);
        TakeTake(data, got, Min(Total(sizes[1..]), rest));
      } else {
        NothingLeft(left, sizes[0]);
        NothingRead(data[4 * Words(got)..], Left(left, sizes[0]), sizes[1..]);
        assert data[..got] + [] == data[..got];
      }
    }
  }

  lemma WordsCover(n: nat)
    ensures n <= 4 * Words(n)
  {
  }

  lemma NothingLeft(left: nat, len: nat)
    ensures left == Min(len, left) ==> Left(left, len) == 0
  {
  }

  lemma {:induction false} FirstByteRead<T>(data: seq<T>, left: nat, sizes: seq<nat>)
    requires 4 * Words(left) <= |data| && left > 0 && Total(sizes) > 0
    ensures Join(Reads(data, left, sizes)) != [] && Join(Reads(data, left, sizes))[0] == data[0]
    decreases |sizes|
  {
    OneRead(data, left, sizes);
    hide Reads, Join;
    if Min(sizes[0], left) == 0 {
      assert data[0..] == data;
      FirstByteRead(data, left, sizes[1..]);
    }
  }

  /** The bytes of a packet, each named by its place in it. */
  predicate Numbered(data: seq<int>, from: int) {
    forall i | 0 <= i < |data| :: data[i] == from + i
  }

  lemma SamePrefix<T>(head: seq<T>, a: seq<T>, b: seq<T>)
    ensures head + a == head + b <==> a == b
  {
    assert (head + a)[|head|..] == a && (head + b)[|head|..] == b;
  }

  lemma MisalignedRead(left: nat, sizes: seq<nat>)
    requires !Aligned(left, sizes)
    ensures sizes != []
    ensures
      var got := Min(sizes[0], left);
      && got <= Min(Total(sizes), left) && Min(Total(sizes), left) - got == Min(Total(sizes[1..]), left - got)
      && if got % 4 == 0 then !Aligned(left - got, sizes[1..])
         else left > got && Total(sizes[1..]) > 0 && got < 4 * Words(got)
  {
  }

  /** A read that breaks a word loses the rest of it: what the next read brings out shows it. */
  lemma BrokenWordShows(data: seq<int>, from: int, left: nat, sizes: seq<nat>)
    requires 4 * Words(left) <= |data| && Numbered(data, from) && !Aligned(left, sizes)
    requires sizes != [] && Min(sizes[0], left) % 4 != 0
    ensures Join(Reads(data, left, sizes)) != data[..Min(Total(sizes), left)]
  {
    hide Reads, Join, Words, Left, Total, Aligned;
    WordsCover(left);
    MisalignedRead(left, sizes);
    OneRead(data, left, sizes);
    var got := Min(sizes[0], left);
    var used, total := 4 * Words(got), Min(Total(sizes), left);
    var behind := data[used..];
    var later := Join(Reads(behind, Left(left, sizes[0]), sizes[1..]));
    if Left(left, sizes[0]) == 0 {
      NothingRead(behind, 0, sizes[1..]);
      assert |data[..got] + later| == got < total;
    } else {
      WordsCover(Left(left, sizes[0]));
      FirstByteRead(behind, Left(left, sizes[0]), sizes[1..]);
      assert (data[..got] + later)[got] == behind[0] == data[used] == from + used;
      assert data[..total][got] == from + got;
    }
  }

  /** And only those: with bytes told apart by their place, reads bring out the packet without
      gaps exactly when none of them, except the last that finds anything, breaks a word. */
  lemma {:induction false} GaplessIffAligned(data: seq<int>, from: int, left: nat, sizes: seq<nat>)
    requires 4 * Words(left) <= |data| && Numbered(data, from)
    ensures Join(Reads(data, left, sizes)) == data[..Min(Total(sizes), left)] <==> Aligned(left, sizes)
    decreases |sizes|
  {
    hide Reads, Join, Words, Left, Total, Aligned;
    WordsCover(left);
    if Aligned(left, sizes) {
      AlignedReadsJoin(data, left, sizes);
    } else {
      MisalignedRead(left, sizes);
      var got := Min(sizes[0], left);
      if got % 4 != 0 {
        BrokenWordShows(data, from, left, sizes);
      } else {
        OneRead(data, left, sizes);
        var behind, more := data[got..], Min(Total(sizes[1..]), left - got);
        TakeTake(data, got, more);
        SamePrefix(data[..got], Join(Reads(behind, left - got, sizes[1..])), behind[..more]);
        GaplessIffAligned(behind, from + got, left - got, sizes[1..]);
      }
    }
  }
}

/** The packets of appendix D4 of the ARMv7-M Architecture Reference Manual, and what the decoder of
    main/traceswodecode.c makes of a stream of them. */
module TracePackets {
  import opened Arithmetic
  import opened WordBits
  import opened TraceSwo

  // ---------- The grammar ----------

  datatype TracePacket = TracePacket(header: byte, payload: seq<byte>)

  /** The two low bits of the header of a source packet tell the size of its payload. */
  function SourceSize(h: byte): nat {
    if h % 4 == 3 then 4 else h % 4
  }

  predicate Source(h: byte) { h % 4 != 0 }

  /** Bit 2 tells the packets of the DWT from those written by software. */
  predicate Software(h: byte) { Source(h) && h % 8 < 4 }
  predicate Hardware(h: byte) { Source(h) && h % 8 >= 4 }

  /** Timestamps and extension packets with their continuation bit set. */
  predicate Continued(h: byte) { !Source(h) && h >= 0x80 }

  /** Bytes with bit 7 set up to the last, which has it clear; in the fourth of an extension packet
      it is a bit like the others. */
  predicate Continues(h: byte, s: seq<byte>) {
    && 1 <= |s| <= 6
    && (forall i | 0 <= i < |s| - 1 :: s[i] >= 0x80)
    && (s[|s| - 1] < 0x80 || (h % 16 >= 8 && |s| == 4))
  }

  /** At least 47 zero bits, with those of the header, and a one. */
  predicate Synchronises(s: seq<byte>) {
    |s| >= 5 && s[|s| - 1] == 0x80 && forall i | 0 <= i < |s| - 1 :: s[i] == 0
  }

  predicate Grammatical(p: TracePacket) {
    if Source(p.header) then |p.payload| == SourceSize(p.header)
    else if Continued(p.header) then Continues(p.header, p.payload)
    else if p.header == 0 then Synchronises(p.payload)
    else p.payload == []
  }

  predicate AllGrammatical(packets: seq<TracePacket>) {
    forall i | 0 <= i < |packets| :: Grammatical(packets[i])
  }

  /** The bytes of the packets on the pin. */
  function Wire(packets: seq<TracePacket>): seq<byte> {
    if packets == [] then [] else [packets[0].header] + packets[0].payload + Wire(packets[1..])
  }

  /** The bit of the mask that stands for the channel in the upper five bits of a header. */
  predicate Listening(mask: nat, h: byte) { mask / Pow2(h / 8) % 2 == 1 }

  lemma EnabledIs(mask: nat, h: byte)
    ensures Enabled(mask, h) <==> Listening(mask, h)
  {
    BitIs(mask, h / 8);
  }

  /** What the decoder is for: the payloads software wrote to the enabled channels. */
  function Selected(packets: seq<TracePacket>, mask: nat): seq<byte> {
    if packets == [] then []
    else
      var p := packets[0];
      (if Software(p.header) && Listening(mask, p.header) then p.payload else []) + Selected(packets[1..], mask)
  }

  lemma {:induction false} WireConcat(a: seq<TracePacket>, b: seq<TracePacket>)
    ensures Wire(a + b) == Wire(a) + Wire(b)
    decreases |a|
  {
    if a == [] {
      assert a + b == b;
    } else {
      assert (a + b)[1..] == a[1..] + b;
      WireConcat(a[1..], b);
    }
  }

  lemma {:induction false} SelectedConcat(a: seq<TracePacket>, b: seq<TracePacket>, mask: nat)
    ensures Selected(a + b, mask) == Selected(a, mask) + Selected(b, mask)
    decreases |a|
  {
    hide Software, Listening;
    if a == [] {
      assert a + b == b;
    } else {
      assert (a + b)[1..] == a[1..] + b;
      SelectedConcat(a[1..], b, mask);
    }
  }

  // ---------- What the decoder reads ----------

  /** The payloads the decoder finds in bytes, under a mask that stays. */
  function Reading(bytes: seq<byte>, mask: nat): seq<byte>
    decreases |bytes|
  {
    if bytes == [] then []
    else
      var rest := bytes[1..];
      var n := Min(Size(bytes[0]), |rest|);
      (if Enabled(mask, bytes[0]) then rest[..n] else []) + Reading(rest[n..], mask)
  }

  lemma {:induction false} TakeEvents(bytes: seq<byte>, ready: nat -> bool, k: nat, n: nat, mask: nat)
    ensures
      var m := Min(n, |bytes|);
      Take(Events(bytes, ready, k), n, mask) == Taken(bytes[..m], Events(bytes[m..], ready, k + m), mask)
    decreases |bytes|
  {
    if n > 0 && bytes != [] {
      TakeEvents(bytes[1..], ready, k + 1, n - 1, mask);
      var m := Min(n, |bytes|);
      assert bytes[1..][m - 1..] == bytes[m..] && [bytes[0]] + bytes[1..][..m - 1] == bytes[..m];
      assert Events(bytes, ready, k)[1..] == Events(bytes[1..], ready, k + 1);
    } else {
      assert bytes[0..] == bytes;
    }
  }

  /** Whether USB is ready changes nothing of what is decoded. */
  lemma {:induction false} ReadingOfEvents(bytes: seq<byte>, ready: nat -> bool, k: nat, mask: nat)
    ensures Payloads(Events(bytes, ready, k), mask) == Reading(bytes, mask)
    decreases |bytes|
  {
    hide Payloads, Reading, Enabled, Size, Events;
    if bytes == [] {
      NoEvents(ready, k);
      NoPayloads(mask);
      ReadEmpty(mask);
    } else {
      var rest := bytes[1..];
      var n := Min(Size(bytes[0]), |rest|);
      EventsFirst(bytes, ready, k);
      PayloadsFirst(Events(bytes, ready, k), mask);
      TakeEvents(rest, ready, k + 1, Size(bytes[0]), mask);
      ReadFirst(bytes, mask);
      ReadingOfEvents(rest[n..], ready, k + 1 + n, mask);
    }
  }

  lemma EventsFirst(bytes: seq<byte>, ready: nat -> bool, k: nat)
    requires bytes != []
    ensures
      var e := Events(bytes, ready, k);
      e != [] && e[0] == Data(bytes[0], ready(k)) && e[1..] == Events(bytes[1..], ready, k + 1)
  {
  }

  lemma NoEvents(ready: nat -> bool, k: nat)
    ensures Events([], ready, k) == []
  {
  }

  lemma ReadFirst(bytes: seq<byte>, mask: nat)
    requires bytes != []
    ensures
      var rest := bytes[1..];
      var n := Min(Size(bytes[0]), |rest|);
      Reading(bytes, mask) == (if Enabled(mask, bytes[0]) then rest[..n] else []) + Reading(rest[n..], mask)
  {
    hide Enabled, Size;
  }

  lemma NoPayloads(mask: nat)
    ensures Payloads([], mask) == []
  {
  }

  lemma PayloadsFirst(events: seq<Event>, mask: nat)
    requires events != [] && events[0].Data?
    ensures
      var t := Take(events[1..], Size(events[0].ch), mask);
      Payloads(events, mask) == (if Enabled(mask, events[0].ch) then t.bytes else []) + Payloads(t.rest, t.mask)
  {
    hide Enabled, Size;
  }

  /** A packet whose size the decoder knows. */
  lemma ReadPacket(h: byte, payload: seq<byte>, rest: seq<byte>, mask: nat)
    requires |payload| == Size(h)
    ensures Reading([h] + payload + rest, mask) == (if Enabled(mask, h) then payload else []) + Reading(rest, mask)
  {
    hide Enabled, Size;
    var bytes := [h] + payload + rest;
    assert bytes[1..] == payload + rest;
    assert (payload + rest)[..|payload|] == payload && (payload + rest)[|payload|..] == rest;
  }

  /** Bytes that are all read as headers without a payload. */
  lemma {:induction false} ReadNothing(s: seq<byte>, rest: seq<byte>, mask: nat)
    requires forall i | 0 <= i < |s| :: Size(s[i]) == 0
    ensures Reading(s + rest, mask) == Reading(rest, mask)
    decreases |s|
  {
    hide Enabled, Size, Reading;
    if s == [] {
      assert s + rest == rest;
    } else {
      var more := s[1..] + rest;
      ReadNothing(s[1..], rest, mask);
      ReadPacket(s[0], [], more, mask);
      assert [s[0]] + [] + more == s + rest;
      assert [] + Reading(more, mask) == Reading(more, mask);
    }
  }

  // ---------- Packets the decoder misreads ----------

  /** The decoder knows no payload of such a packet: it reads the bytes as headers. */
  predicate Leaky(p: TracePacket) { Hardware(p.header) || Continued(p.header) }

  /** No packet is leaky, except perhaps the last with a payload of one byte. */
  predicate Harmless(packets: seq<TracePacket>) {
    forall i | 0 <= i < |packets| :: Leaky(packets[i]) ==> i == |packets| - 1 && |packets[i].payload| == 1
  }

  /** Any other packet is read as what it is. */
  lemma ReadAsMeant(p: TracePacket, rest: seq<byte>, mask: nat)
    requires Grammatical(p) && !Leaky(p)
    ensures Reading([p.header] + p.payload + rest, mask) ==
            (if Software(p.header) && Listening(mask, p.header) then p.payload else []) + Reading(rest, mask)
  {
    hide Enabled, Listening;
    EnabledIs(mask, p.header);
    if Software(p.header) {
      ReadPacket(p.header, p.payload, rest, mask);
    } else {
      ReadNothing([p.header] + p.payload, rest, mask);
    }
  }

  lemma {:induction false} ReadFront(packets: seq<TracePacket>, rest: seq<byte>, mask: nat)
    requires AllGrammatical(packets) && forall i | 0 <= i < |packets| :: !Leaky(packets[i])
    ensures Reading(Wire(packets) + rest, mask) == Selected(packets, mask) + Reading(rest, mask)
    decreases |packets|
  {
    hide Listening, Software, Leaky, Grammatical, Reading;
    if packets == [] {
      assert Wire(packets) + rest == rest;
    } else {
      var p, more := packets[0], Wire(packets[1..]) + rest;
      assert Grammatical(p) && !Leaky(p);
      assert Wire(packets) + rest == [p.header] + p.payload + more;
      ReadAsMeant(p, more, mask);
      ReadFront(packets[1..], rest, mask);
    }
  }

  lemma SelectedLeaky(p: TracePacket, mask: nat)
    requires Leaky(p)
    ensures Selected([p], mask) == []
  {
    assert [p][1..] == [];
  }

  /** Harmless packets are decoded right. */
  lemma ReadHarmless(packets: seq<TracePacket>, mask: nat)
    requires AllGrammatical(packets) && Harmless(packets)
    ensures Reading(Wire(packets), mask) == Selected(packets, mask)
  {
    hide Listening, Software, Reading, Selected;
    if packets != [] && Leaky(packets[|packets| - 1]) {
      var front, p := packets[..|packets| - 1], packets[|packets| - 1];
      assert packets == front + [p];
      WireConcat(front, [p]);
      WireOne(p);
      SelectedConcat(front, [p], mask);
      SelectedLeaky(p, mask);
      ReadFront(front, [p.header] + p.payload, mask);
      ReadTwo(p.header, p.payload, mask);
    } else {
      ReadFront(packets, [], mask);
      assert Wire(packets) + [] == Wire(packets);
      ReadEmpty(mask);
    }
  }

  lemma WireOne(p: TracePacket)
    ensures Wire([p]) == [p.header] + p.payload
  {
    assert [p][1..] == [];
  }

  lemma ReadEmpty(mask: nat)
    ensures Reading([], mask) == []
  {
  }

  /** A header read for nothing, and a header at the end. */
  lemma ReadTwo(h: byte, payload: seq<byte>, mask: nat)
    requires Size(h) == 0 && |payload| == 1
    ensures Reading([h] + payload, mask) == []
  {
    hide Enabled, Size;
    ReadPacket(h, [], payload, mask);
    assert [h] + [] + payload == [h] + payload;
    assert payload[1..] == [];
  }

  // ---------- Every other stream can be misread ----------

  /** The same packets with other payload bytes. */
  predicate SameShape(a: seq<TracePacket>, b: seq<TracePacket>) {
    |a| == |b| && forall i | 0 <= i < |a| :: a[i].header == b[i].header && |a[i].payload| == |b[i].payload|
  }

  /** All payload bytes of software packets replaced by c. */
  function Filled(packets: seq<TracePacket>, c: byte): seq<TracePacket> {
    seq(|packets|, i requires 0 <= i < |packets| => FilledOne(packets[i], c))
  }

  function FilledOne(p: TracePacket, c: byte): TracePacket {
    if Software(p.header) then p.(payload := seq(|p.payload|, _ => c)) else p
  }

  lemma FilledShape(packets: seq<TracePacket>, c: byte)
    requires AllGrammatical(packets)
    ensures AllGrammatical(Filled(packets, c)) && SameShape(packets, Filled(packets, c))
  {
    hide Continues, Synchronises;
  }

  lemma {:induction false} SelectedFilled(packets: seq<TracePacket>, c: byte, mask: nat)
    ensures forall i | 0 <= i < |Selected(Filled(packets, c), mask)| :: Selected(Filled(packets, c), mask)[i] == c
    decreases |packets|
  {
    hide Listening;
    if packets != [] {
      assert Filled(packets, c)[1..] == Filled(packets[1..], c);
      SelectedFilled(packets[1..], c, mask);
    }
  }

  /** The index of the first leaky packet. */
  lemma {:induction false} FirstLeaky(packets: seq<TracePacket>) returns (k: nat)
    requires !Harmless(packets)
    ensures k < |packets| && Leaky(packets[k]) && (forall i | 0 <= i < k :: !Leaky(packets[i]))
    ensures |packets[k].payload| != 1 || k + 1 < |packets|
  {
    hide Leaky;
    k := 0;
    while !Leaky(packets[k])
      invariant k < |packets| && forall i | 0 <= i < k :: !Leaky(packets[i])
      decreases |packets| - k
    {
      k := k + 1;
    }
  }

  /** The header whose payload byte the decoder lets through, disguised as payload. */
  function Bait(n: nat, h: byte): byte { if Hardware(h) || n == 1 then 0x01 else 0x81 }

  function BaitMask(n: nat, h: byte): nat { Pow2(Bait(n, h) / 8) }

  lemma BaitEnabled(n: nat, h: byte)
    ensures Enabled(BaitMask(n, h), Bait(n, h)) && Size(Bait(n, h)) == 1
  {
    PowerBit(Bait(n, h) / 8);
  }

  lemma {:induction false} PowerBit(k: nat)
    ensures Bit(Pow2(k), k)
    decreases k
  {
    if k > 0 {
      PowerBit(k - 1);
    }
  }

  lemma Baited(p: TracePacket)
    requires Grammatical(p) && Leaky(p)
    ensures |p.payload| > 0
    ensures Grammatical(p.(payload := p.payload[0 := Bait(|p.payload|, p.header)]))
  {
  }

  /** A leaky packet, with a bait in it, lets the byte behind the bait through. */
  lemma ReadBaited(h: byte, x: byte, b: byte, rest: seq<byte>, mask: nat)
    requires Size(h) == 0 && Size(x) == 1 && Enabled(mask, x)
    ensures Reading([h, x, b] + rest, mask) == [b] + Reading(rest, mask)
  {
    hide Enabled, Size, Reading;
    ReadPacket(h, [], [x, b] + rest, mask);
    assert [h] + [] + ([x, b] + rest) == [h, x, b] + rest;
    ReadPacket(x, [b], rest, mask);
    assert [x] + [b] + rest == [x, b] + rest;
    assert [] + Reading([x, b] + rest, mask) == Reading([x, b] + rest, mask);
  }

  ghost predicate Misread(packets: seq<TracePacket>, mask: nat) {
    Reading(Wire(packets), mask) != Selected(packets, mask)
  }

  lemma LeakyIsSilent(p: TracePacket)
    requires Leaky(p)
    ensures Size(p.header) == 0
  {
  }

  /** What follows the bait. */
  lemma BaitedWire(p: TracePacket, x: byte, more: seq<TracePacket>, c: byte)
    requires p.payload != [] && (|p.payload| > 1 || more != [])
    ensures
      var q := p.(payload := p.payload[0 := x]);
      var tail := p.payload[1..] + Wire(Filled(more, c));
      Wire([q] + Filled(more, c)) == [p.header, x] + tail && tail != []
      && (|p.payload| > 1 ==> tail[0] == p.payload[1])
      && (|p.payload| == 1 ==> tail[0] == more[0].header)
  {
    var q := p.(payload := p.payload[0 := x]);
    var fill := Filled(more, c);
    WireConcat([q], fill);
    WireOne(q);
    assert q.payload == [x] + p.payload[1..];
    assert [p.header] + q.payload + Wire(fill) == [p.header, x] + (p.payload[1..] + Wire(fill));
    if |p.payload| == 1 {
      assert p.payload[1..] == [];
      assert fill[0].header == more[0].header;
    }
  }

  /** Every other stream has payload bytes for which it is misread. */
  lemma LeakyMisread(packets: seq<TracePacket>) returns (q: seq<TracePacket>, mask: nat)
    requires AllGrammatical(packets) && !Harmless(packets)
    ensures SameShape(packets, q) && AllGrammatical(q) && Misread(q, mask)
  {
    hide Enabled, Software, Reading, Selected, Leaky, Grammatical, Bait, BaitMask, Wire, Filled, Size;
    var k := FirstLeaky(packets);
    var front, p, more := packets[..k], packets[k], packets[k + 1..];
    assert Grammatical(p);
    Baited(p);
    var x := Bait(|p.payload|, p.header);
    mask := BaitMask(|p.payload|, p.header);
    BaitEnabled(|p.payload|, p.header);
    var b := if |p.payload| > 1 then p.payload[1] else more[0].header;
    var c: byte := if b == 0 then 1 else 0;
    var bait, fill := p.(payload := p.payload[0 := x]), Filled(more, c);
    FilledShape(more, c);
    q := front + ([bait] + fill);
    BaitedShape(packets, k, bait, fill);
    BaitedWire(p, x, more, c);
    var tail := p.payload[1..] + Wire(fill);
    assert [p.header, x] + tail == [p.header, x, b] + tail[1..];
    LeakyIsSilent(p);
    WireConcat(front, [bait] + fill);
    ReadFront(front, Wire([bait] + fill), mask);
    ReadBaited(p.header, x, b, tail[1..], mask);
    SelectedConcat(front, [bait] + fill, mask);
    SelectedConcat([bait], fill, mask);
    LeakyStays(p, bait.payload);
    SelectedLeaky(bait, mask);
    SelectedFilled(more, c, mask);
    Differs(Selected(front, mask), b, Reading(tail[1..], mask), Selected(fill, mask), c);
    assert [] + Selected(fill, mask) == Selected(fill, mask);
  }

  lemma LeakyStays(p: TracePacket, payload: seq<byte>)
    ensures Leaky(p.(payload := payload)) == Leaky(p)
  {
  }

  lemma BaitedShape(packets: seq<TracePacket>, k: nat, bait: TracePacket, fill: seq<TracePacket>)
    requires k < |packets| && AllGrammatical(packets) && AllGrammatical(fill) && SameShape(packets[k + 1..], fill)
    requires Grammatical(bait) && bait.header == packets[k].header && |bait.payload| == |packets[k].payload|
    ensures
      var q := packets[..k] + ([bait] + fill);
      AllGrammatical(q) && SameShape(packets, q) && AllGrammatical(packets[..k])
  {
    hide Grammatical;
    var q := packets[..k] + ([bait] + fill);
    forall i | 0 <= i < |q|
      ensures Grammatical(q[i]) && q[i].header == packets[i].header && |q[i].payload| == |packets[i].payload|
    {
      if i > k {
        assert q[i] == fill[i - k - 1] && packets[i] == packets[k + 1..][i - k - 1];
      }
    }
  }

  lemma Differs(front: seq<byte>, b: byte, rest: seq<byte>, other: seq<byte>, c: byte)
    requires b != c && forall i | 0 <= i < |other| :: other[i] == c
    ensures front + ([b] + rest) != front + other
  {
    if other == [] {
      assert |front + ([b] + rest)| > |front + other|;
    } else {
      assert (front + ([b] + rest))[|front|] == b && (front + other)[|front|] == c;
    }
  }

  // ---------- Theorems ----------

  /** From power-up on, whatever is ready when, and no matter how the bytes are cut into calls. */
  lemma DecodedIsReading(bytes: seq<byte>, mask: nat, ready: nat -> bool, cut: nat, size: nat)
    requires size > 0 && cut <= |bytes|
    ensures
      var e := Events(bytes, ready, 0);
      && |e| == |bytes|
      && Run(Run(INITIAL.(mask := mask), e[..cut], size), e[cut..], size) == Run(INITIAL.(mask := mask), e, size)
      && Coherent(Run(INITIAL.(mask := mask), e, size), size)
      && Decoded(Run(INITIAL.(mask := mask), e, size)) == Reading(bytes, mask)
  {
    var start, e := INITIAL.(mask := mask), Events(bytes, ready, 0);
    EventsLength(bytes, ready, 0);
    RunConcat(start, e[..cut], e[cut..], size);
    assert e[..cut] + e[cut..] == e;
    RunValid(start, e, size);
    DecodesPayloads(start, e, size);
    ReadingOfEvents(bytes, ready, 0, mask);
    assert Decoded(start) == [];
    assert [] + Reading(bytes, mask) == Reading(bytes, mask);
  }

  lemma {:induction false} EventsLength(bytes: seq<byte>, ready: nat -> bool, k: nat)
    ensures |Events(bytes, ready, k)| == |bytes|
    decreases |bytes|
  {
    if bytes != [] {
      EventsLength(bytes[1..], ready, k + 1);
    }
  }

  /** For every harmless list of packets, whatever is ready when, no matter how the stream is cut:
      the enabled payloads are decoded, and they are what was written and what is still pending if
      and only if USB was ready for every full buffer. */
  lemma PacketsDecoded(packets: seq<TracePacket>, mask: nat, ready: nat -> bool, cut: nat, size: nat)
    requires size > 0 && cut <= |Wire(packets)| && AllGrammatical(packets) && Harmless(packets)
    ensures
      var e := Events(Wire(packets), ready, 0);
      && |e| == |Wire(packets)|
      && var u := Run(Run(INITIAL.(mask := mask), e[..cut], size), e[cut..], size);
      && Decoded(u) == Selected(packets, mask) && Coherent(u, size)
      && (Join(Written(u.flushed)) + u.pending == Selected(packets, mask) <==> AllSent(u.flushed))
  {
    hide Run, Reading, Selected, Wire, Harmless, AllGrammatical, Join, Written, AllSent;
    DecodedIsReading(Wire(packets), mask, ready, cut, size);
    ReadHarmless(packets, mask);
    var u := Run(INITIAL.(mask := mask), Events(Wire(packets), ready, 0), size);
    NothingDropped(u.flushed);
    SameEnd(Join(Written(u.flushed)), Flushed(u.flushed), u.pending);
  }

  ghost predicate DecodedRight(packets: seq<TracePacket>, mask: nat, ready: nat -> bool, size: nat) {
    Decoded(Run(INITIAL.(mask := mask), Events(Wire(packets), ready, 0), size)) == Selected(packets, mask)
  }

  /** The decoder is right for all payload bytes and all masks if and only if no packet of the DWT,
      timestamp or extension with a payload occurs, other than a last one of one byte. */
  lemma DecodedIffHarmless(packets: seq<TracePacket>, ready: nat -> bool, size: nat)
    requires size > 0 && AllGrammatical(packets)
    ensures Harmless(packets) <==>
      forall q: seq<TracePacket>, mask: nat :: SameShape(packets, q) && AllGrammatical(q) ==>
        DecodedRight(q, mask, ready, size)
  {
    hide Run, Reading, Selected, Wire, Harmless, AllGrammatical, SameShape;
    if Harmless(packets) {
      forall q: seq<TracePacket>, mask: nat | SameShape(packets, q) && AllGrammatical(q)
        ensures DecodedRight(q, mask, ready, size)
      {
        HarmlessShape(packets, q);
        DecodedIsReading(Wire(q), mask, ready, 0, size);
        ReadHarmless(q, mask);
      }
    } else {
      var q, mask := LeakyMisread(packets);
      DecodedIsReading(Wire(q), mask, ready, 0, size);
      assert !DecodedRight(q, mask, ready, size);
    }
  }

  lemma HarmlessShape(a: seq<TracePacket>, b: seq<TracePacket>)
    requires SameShape(a, b)
    ensures Harmless(a) == Harmless(b)
  {
  }

  /** A run in which that happens: a packet of the DWT with payload 01 in front of the letter A on
      channel 0.  The header of the letter comes out in its place. */
  lemma HeaderPrinted(ready: nat -> bool, size: nat)
    requires size > 0
    ensures
      var packets := [TracePacket(0x05, [0x01]), TracePacket(0x01, [0x41])];
      && AllGrammatical(packets) && Selected(packets, 1) == [0x41]
      && Decoded(Run(INITIAL.(mask := 1), Events(Wire(packets), ready, 0), size)) == [0x01]
  {
    hide Run, Reading;
    var p, q := TracePacket(0x05, [0x01]), TracePacket(0x01, [0x41]);
    assert [p, q] == [p] + [q] && [q][1..] == [];
    WireConcat([p], [q]);
    WireOne(p);
    WireOne(q);
    SelectedConcat([p], [q], 1);
    SelectedLeaky(p, 1);
    assert Bit(1, 0) && Listening(1, 0x01);
    var bytes := Wire([p, q]);
    assert bytes == [0x05, 0x01, 0x01] + [0x41];
    DecodedIsReading(bytes, 1, ready, 0, size);
    ReadBaited(0x05, 0x01, 0x01, [0x41], 1);
    ReadHeader(0x41, 1);
  }

  lemma ReadHeader(h: byte, mask: nat)
    ensures Reading([h], mask) == []
  {
    hide Enabled;
    assert [h][1..] == [];
  }

  // ---------- Dropped buffers ----------

  /** While USB is never ready, every full buffer is dropped: the rest of the output is all that
      is left. */
  lemma {:induction false} NothingWritten(s: State, bytes: seq<byte>, ready: nat -> bool, k: nat, size: nat)
    requires (forall n: nat :: !ready(n)) && forall i | 0 <= i < |s.flushed| :: !s.flushed[i].sent
    ensures
      var u := Run(s, Events(bytes, ready, k), size);
      forall i | 0 <= i < |u.flushed| :: !u.flushed[i].sent
    decreases |bytes|
  {
    hide Run, Step;
    if bytes == [] {
      RunNothing(s, size);
    } else {
      var e := Events(bytes, ready, k);
      EventsFirst(bytes, ready, k);
      RunFirst(s, e, size);
      StepUnsent(s, bytes[0], size);
      NothingWritten(Step(s, e[0], size), bytes[1..], ready, k + 1, size);
    }
  }

  lemma StepUnsent(s: State, ch: byte, size: nat)
    requires forall i | 0 <= i < |s.flushed| :: !s.flushed[i].sent
    ensures
      var u := Step(s, Data(ch, false), size);
      forall i | 0 <= i < |u.flushed| :: !u.flushed[i].sent
  {
  }

  lemma FlushedFull(f: seq<Flush>, size: nat)
    requires forall i | 0 <= i < |f| :: |f[i].data| == size
    ensures if f == [] then Flushed(f) == [] else |Flushed(f)| >= size
  {
  }

  /** So output is lost if and only if it fills a buffer. */
  lemma DroppedIffFull(packets: seq<TracePacket>, mask: nat, ready: nat -> bool, size: nat)
    requires size > 0 && AllGrammatical(packets) && Harmless(packets) && forall n: nat :: !ready(n)
    ensures
      var u := Run(INITIAL.(mask := mask), Events(Wire(packets), ready, 0), size);
      AllSent(u.flushed) <==> |Selected(packets, mask)| < size
  {
    hide Run, Reading, Selected, Wire, Harmless, AllGrammatical;
    var bytes := Wire(packets);
    DecodedIsReading(bytes, mask, ready, 0, size);
    ReadHarmless(packets, mask);
    NothingWritten(INITIAL.(mask := mask), bytes, ready, 0, size);
    var u := Run(INITIAL.(mask := mask), Events(bytes, ready, 0), size);
    FlushedFull(u.flushed, size);
    assert u.flushed != [] ==> !u.flushed[0].sent;
  }
}

/** The ITM stream decoder of main/traceswodecode.c, whose state outlives each call. */
module TraceSwo {
  import opened WordBits

  type byte = b: int | 0 <= b < 256 witness 0

  /** What reaches the decoder, in order: trace bytes and changes of the channel mask.  `ready`
      says whether the USB side would take a full buffer at that moment. */
  datatype Event = Data(ch: byte, ready: bool) | SetMask(mask: nat)

  /** How many payload bytes the decoder expects behind a header. */
  function Size(h: byte): (n: nat)
    ensures n <= 4
  {
    match h % 8
    case 1 => 1
    case 2 => 2
    case 3 => 4
    case _ => 0
  }

  predicate Enabled(mask: nat, h: byte) {
    Bit(mask, h / 8)
  }

  // ---------- The reference ----------

  /** The next payload bytes, at most n, with the events behind them and the mask by then. */
  datatype Taken = Taken(bytes: seq<byte>, rest: seq<Event>, mask: nat)

  function Take(events: seq<Event>, n: nat, mask: nat): (t: Taken)
    ensures |t.rest| <= |events| && |t.bytes| <= n
    decreases |events|
  {
    if n == 0 || events == [] then Taken([], events, mask)
    else match events[0]
      case SetMask(m) => Take(events[1..], n, m)
      case Data(ch, _) =>
        var t := Take(events[1..], n - 1, mask);
        t.(bytes := [ch] + t.bytes)
  }

  /** The payloads, in order, of all packets whose channel was enabled when their header came. */
  function Payloads(events: seq<Event>, mask: nat): seq<byte>
    decreases |events|
  {
    if events == [] then []
    else match events[0]
      case SetMask(m) => Payloads(events[1..], m)
      case Data(h, _) =>
        var t := Take(events[1..], Size(h), mask);
        (if Enabled(mask, h) then t.bytes else []) + Payloads(t.rest, t.mask)
  }

  // ---------- The decoder ----------

  datatype Flush = Flush(data: seq<byte>, sent: bool)

  /** The static variables, and the buffers handed over so far. */
  datatype State = State(mask: nat, pktLen: nat, printing: bool, pending: seq<byte>, flushed: seq<Flush>)

  const INITIAL := State(0, 0, false, [], [])

  function Flushed(f: seq<Flush>): seq<byte> {
    if f == [] then [] else Flushed(f[..|f| - 1]) + f[|f| - 1].data
  }

  /** All that was decoded: what was handed over and what is still in the buffer. */
  function Decoded(s: State): seq<byte> {
    Flushed(s.flushed) + s.pending
  }

  function Append(s: State, ch: byte, ready: bool, size: nat): State {
    var full := s.pending + [ch];
    if |full| == size then s.(pending := [], flushed := s.flushed + [Flush(full, ready)])
    else s.(pending := full)
  }

  function Step(s: State, e: Event, size: nat): State {
    match e
    case SetMask(m) => s.(mask := m)
    case Data(ch, ready) =>
      if s.pktLen == 0 then
        s.(pktLen := Size(ch), printing := Size(ch) != 0 && Enabled(s.mask, ch))
      else if s.pktLen <= 4 then
        var s' := if s.printing then Append(s, ch, ready, size) else s;
        s'.(pktLen := s.pktLen - 1)
      else
        s.(pending := [], pktLen := 0)
  }

  function Run(s: State, events: seq<Event>, size: nat): State
    decreases |events|
  {
    if events == [] then s else Run(Step(s, events[0], size), events[1..], size)
  }

  /** Every state reached: the packet length never leads to the recovery branch, the buffer is
      never full between bytes, and every buffer handed over was. */
  predicate Coherent(s: State, size: nat) {
    && s.pktLen <= 4
    && |s.pending| < size
    && (forall i :: 0 <= i < |s.flushed| ==> |s.flushed[i].data| == size)
  }

  lemma StepValid(s: State, e: Event, size: nat)
    requires Coherent(s, size)
    ensures Coherent(Step(s, e, size), size)
  {}

  lemma {:induction false} RunValid(s: State, events: seq<Event>, size: nat)
    requires Coherent(s, size)
    ensures Coherent(Run(s, events, size), size)
    decreases |events|
  {
    if events != [] {
      StepValid(s, events[0], size);
      RunValid(Step(s, events[0], size), events[1..], size);
    }
  }

  /** Where the stream is cut into calls makes no difference. */
  lemma {:induction false} RunConcat(s: State, a: seq<Event>, b: seq<Event>, size: nat)
    ensures Run(s, a + b, size) == Run(Run(s, a, size), b, size)
    decreases |a|
  {
    if a == [] {
      assert a + b == b;
    } else {
      assert (a + b)[1..] == a[1..] + b;
      RunConcat(Step(s, a[0], size), a[1..], b, size);
    }
  }

  lemma AppendDecodes(s: State, ch: byte, ready: bool, size: nat)
    ensures Decoded(Append(s, ch, ready, size)) == Decoded(s) + [ch]
    ensures Append(s, ch, ready, size).(pending := s.pending, flushed := s.flushed) == s
  {
    var f := s.flushed + [Flush(s.pending + [ch], ready)];
    assert f[..|f| - 1] == s.flushed;
    assert Flushed(s.flushed) + (s.pending + [ch]) == Flushed(s.flushed) + s.pending + [ch];
  }

  /** The bytes of one packet, counted down by the decoder, are those the reference takes;
      `u` is the state behind them. */
  lemma {:induction false} RunPayload(s: State, events: seq<Event>, size: nat) returns (u: State)
    requires Coherent(s, size)
    ensures var t := Take(events, s.pktLen, s.mask);
      && Coherent(u, size) && u.mask == t.mask
      && Decoded(u) == Decoded(s) + (if s.printing then t.bytes else [])
      && (t.rest != [] ==> u.pktLen == 0)
      && Run(s, events, size) == Run(u, t.rest, size)
    decreases |events|
  {
    hide Decoded, Append, Run;
    if s.pktLen == 0 || events == [] {
      u := s;
      assert Decoded(s) + [] == Decoded(s);
    } else {
      RunFirst(s, events, size);
      StepValid(s, events[0], size);
      u := RunPayload(Step(s, events[0], size), events[1..], size);
      PayloadStep(s, events[0], size);
      if events[0].Data? && s.printing {
        var t := Take(events[1..], s.pktLen - 1, s.mask);
        assert Decoded(s) + [events[0].ch] + t.bytes == Decoded(s) + ([events[0].ch] + t.bytes);
      }
    }
  }

  lemma RunFirst(s: State, events: seq<Event>, size: nat)
    requires events != []
    ensures Run(s, events, size) == Run(Step(s, events[0], size), events[1..], size)
  {}

  /** One event inside a packet. */
  lemma PayloadStep(s: State, e: Event, size: nat)
    requires Coherent(s, size) && s.pktLen > 0
    ensures var s' := Step(s, e, size);
      match e
      case SetMask(m) => s' == s.(mask := m) && Decoded(s') == Decoded(s)
      case Data(ch, _) =>
        && s'.mask == s.mask && s'.printing == s.printing && s'.pktLen == s.pktLen - 1
        && Decoded(s') == (if s.printing then Decoded(s) + [ch] else Decoded(s))
  {
    if e.Data? {
      AppendDecodes(s, e.ch, e.ready, size);
    }
  }

  /** From the start of a packet on, for every stream: what was handed over and what is pending
      make up the payloads of the packets that were enabled when their header arrived. */
  lemma {:induction false} DecodesPayloads(s: State, events: seq<Event>, size: nat)
    requires Coherent(s, size) && s.pktLen == 0
    ensures Decoded(Run(s, events, size)) == Decoded(s) + Payloads(events, s.mask)
    decreases |events|
  {
    hide Decoded, Append, Run;
    if events == [] {
      RunNothing(s, size);
      assert Decoded(s) == Decoded(s) + [];
    } else {
      RunFirst(s, events, size);
      var s' := Step(s, events[0], size);
      StepValid(s, events[0], size);
      HeaderStep(s, events[0], size);
      match events[0]
      case SetMask(m) => DecodesPayloads(s', events[1..], size);
      case Data(h, _) =>
        var t := Take(events[1..], s'.pktLen, s'.mask);
        var u := RunPayload(s', events[1..], size);
        if t.rest == [] {
          RunNothing(u, size);
        } else {
          DecodesPayloads(u, t.rest, size);
        }
        var p := if Enabled(s.mask, h) then t.bytes else [];
        assert Decoded(s) + p + Payloads(t.rest, t.mask) == Decoded(s) + (p + Payloads(t.rest, t.mask));
    }
  }

  lemma RunNothing(s: State, size: nat)
    ensures Run(s, [], size) == s
  {}

  /** One event between packets. */
  lemma HeaderStep(s: State, e: Event, size: nat)
    requires s.pktLen == 0
    ensures var s' := Step(s, e, size);
      && Decoded(s') == Decoded(s)
      && match e
         case SetMask(m) => s'.mask == m && s'.pktLen == 0
         case Data(h, _) =>
           s'.mask == s.mask && s'.pktLen == Size(h) && s'.printing == (Size(h) != 0 && Enabled(s.mask, h))
  {}

  // ---------- The decoder as programmed ----------

  /** The static variables of traceswodecode.c. */
  class Decoder {
    const buf: array<byte>
    var bufLen: nat
    var mask: nat
    var pktLen: nat
    var printing: bool
    ghost var flushed: seq<Flush>

    constructor (size: nat)
      requires size > 0
      ensures Valid() && fresh(buf) && buf.Length == size && Abstract() == INITIAL
    {
      buf := new byte[size];
      bufLen, mask, pktLen, printing, flushed := 0, 0, 0, false, [];
    }

    ghost predicate Valid()
      reads this, buf
    {
      bufLen < buf.Length && Coherent(Abstract(), buf.Length)
    }

    ghost function Abstract(): State
      reads this, buf
    {
      State(mask, pktLen, printing, buf[..if bufLen <= buf.Length then bufLen else 0], flushed)
    }

    /** traceswo_setmask. */
    method SetMask(mask: nat)
      requires Valid()
      modifies `mask
      ensures Valid() && Abstract() == Step(old(Abstract()), Event.SetMask(mask), buf.Length)
    {
      this.mask := mask;
    }

    /** traceswo_decode on one buffer of trace data; `given` are the full buffers written to USB. */
    method Decode(data: seq<byte>, ready: nat -> bool) returns (given: seq<seq<byte>>)
      requires Valid()
      modifies this, buf
      ensures Valid()
      ensures Abstract() == Run(old(Abstract()), Events(data, ready, 0), buf.Length)
      ensures old(flushed) <= flushed
      ensures given == Written(flushed[|old(flushed)|..])
    {
      hide Run, Step, Written;
      given := [];
      RunNothing(Abstract(), buf.Length);
      WrittenNothing();
      assert data[..0] == [] && flushed[|flushed|..] == [];
      for i := 0 to |data|
        invariant Valid()
        invariant Abstract() == Run(old(Abstract()), Events(data[..i], ready, 0), buf.Length)
        invariant old(flushed) <= flushed && given == Written(flushed[|old(flushed)|..])
      {
        EventsSnoc(data[..i], data[i], ready, 0);
        assert data[..i] + [data[i]] == data[..i + 1];
        RunConcat(old(Abstract()), Events(data[..i], ready, 0), [Data(data[i], ready(i))], buf.Length);
        RunOne(Abstract(), Data(data[i], ready(i)), buf.Length);
        ghost var before := flushed;
        var full := DecodeByte(data[i], ready(i));
        if full != [] {
          given := given + full;
        }
        WrittenConcat(before[|old(flushed)|..], flushed[|before|..]);
        assert flushed[|old(flushed)|..] == before[|old(flushed)|..] + flushed[|before|..];
        assert given == Written(flushed[|old(flushed)|..]);
      }
      assert data[..|data|] == data;
    }

    /** The body of the loop: the buffer written to USB, if any. */
    method DecodeByte(ch: byte, ready: bool) returns (given: seq<seq<byte>>)
      requires Valid()
      modifies this, buf
      ensures Valid() && Abstract() == Step(old(Abstract()), Data(ch, ready), buf.Length)
      ensures old(flushed) <= flushed && given == Written(flushed[|old(flushed)|..])
    {
      StepValid(Abstract(), Data(ch, ready), buf.Length);
      given := [];
      assert flushed[|flushed|..] == [];
      if pktLen == 0 {
        var size := ch % 8;
        if size == 1 {
          pktLen := 1;
        } else if size == 2 {
          pktLen := 2;
        } else if size == 3 {
          pktLen := 4;
        }
        printing := pktLen != 0 && Bit(mask, ch / 8);
      } else if pktLen <= 4 {
        if printing {
          ghost var pending := buf[..bufLen];
          buf[bufLen] := ch;
          bufLen := bufLen + 1;
          assert buf[..bufLen] == pending + [ch];
          if bufLen == buf.Length {
            assert buf[..] == buf[..bufLen];
            if ready {
              given := [buf[..]];
            }
            flushed := flushed + [Flush(pending + [ch], ready)];
            assert flushed[|old(flushed)|..] == [Flush(pending + [ch], ready)];
            WrittenOne(Flush(pending + [ch], ready));
            bufLen := 0;
          }
        }
        pktLen := pktLen - 1;
      } else {
        assert false; // the recovery branch is never taken
      }
    }
  }

  /** The trace bytes of one call as events; `ready` is asked by position. */
  function Events(data: seq<byte>, ready: nat -> bool, k: nat): seq<Event> {
    if data == [] then [] else [Data(data[0], ready(k))] + Events(data[1..], ready, k + 1)
  }

  lemma {:induction false} EventsSnoc(data: seq<byte>, ch: byte, ready: nat -> bool, k: nat)
    ensures Events(data + [ch], ready, k) == Events(data, ready, k) + [Data(ch, ready(k + |data|))]
    decreases |data|
  {
    if data == [] {
      assert [ch][1..] == [];
    } else {
      assert (data + [ch])[1..] == data[1..] + [ch];
      EventsSnoc(data[1..], ch, ready, k + 1);
    }
  }

  lemma RunOne(s: State, e: Event, size: nat)
    ensures Run(s, [e], size) == Step(s, e, size)
  {
    assert [e][1..] == [];
  }

  /** The buffers that were really written, as opposed to dropped because USB was not ready. */
  function Written(f: seq<Flush>): seq<seq<byte>> {
    if f == [] then [] else (if f[0].sent then [f[0].data] else []) + Written(f[1..])
  }

  lemma WrittenNothing()
    ensures Written([]) == []
  {}

  lemma WrittenOne(f: Flush)
    ensures Written([f]) == if f.sent then [f.data] else []
  {
    assert [f][1..] == [];
  }

  lemma {:induction false} WrittenConcat(f: seq<Flush>, g: seq<Flush>)
    ensures Written(f + g) == Written(f) + Written(g)
    decreases |f|
  {
    if f == [] {
      assert f + g == g;
    } else {
      assert (f + g)[1..] == f[1..] + g;
      WrittenConcat(f[1..], g);
    }
  }

  function Join(b: seq<seq<byte>>): seq<byte> {
    if b == [] then [] else b[0] + Join(b[1..])
  }

  /** USB was ready whenever the buffer was full. */
  predicate AllSent(f: seq<Flush>) {
    forall i :: 0 <= i < |f| ==> f[i].sent
  }

  lemma WrittenLast(f: seq<Flush>)
    requires f != []
    ensures
      var n := |f| - 1;
      && Join(Written(f)) == Join(Written(f[..n])) + (if f[n].sent then f[n].data else [])
      && (AllSent(f) <==> AllSent(f[..n]) && f[n].sent)
  {
    hide Join, Written;
    var n := |f| - 1;
    assert f == f[..n] + [f[n]];
    WrittenConcat(f[..n], [f[n]]);
    WrittenOne(f[n]);
    if f[n].sent {
      JoinConcat(Written(f[..n]), [f[n].data]);
      JoinOne(f[n].data);
    } else {
      assert Written(f[..n]) + [] == Written(f[..n]);
    }
  }

  lemma JoinOne(b: seq<byte>)
    ensures Join([b]) == b
  {
    assert [b][1..] == [];
  }

  /** Nothing is lost, and the buffers written are everything that was handed over, if and only if
      USB was ready for each. */
  lemma {:induction false} NothingDropped(f: seq<Flush>)
    requires forall i :: 0 <= i < |f| ==> f[i].data != []
    ensures Join(Written(f)) == Flushed(f) <==> AllSent(f)
    ensures |Join(Written(f))| <= |Flushed(f)|
  {
    if f != [] {
      hide Join, Written, AllSent;
      var n := |f| - 1;
      NothingDropped(f[..n]);
      WrittenLast(f);
      SameEnd(Join(Written(f[..n])), Flushed(f[..n]), f[n].data);
    }
  }

  lemma SameEnd(a: seq<byte>, b: seq<byte>, c: seq<byte>)
    ensures a + c == b + c <==> a == b
  {
    if a + c == b + c {
      assert a == (a + c)[..|a|] && b == (b + c)[..|b|];
    }
  }

  lemma {:induction false} JoinConcat(b: seq<seq<byte>>, c: seq<seq<byte>>)
    ensures Join(b + c) == Join(b) + Join(c)
    decreases |b|
  {
    if b == [] {
      assert b + c == c;
    } else {
      assert (b + c)[1..] == b[1..] + c;
      JoinConcat(b[1..], c);
    }
    if |c| == 1 {
      assert c[1..] == [];
      assert Join(c) == c[0];
    }
  }
}

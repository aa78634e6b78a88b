/** Which frames gdb_getpacket gets: the one behind any history, and the one behind a frame that
    was cut short. */
module GdbResync {
  import opened HexUtils
  import opened GdbPacket

  // ---------- Where a packet ends ----------

  lemma {:induction false} RestIsShorter(s: State, a: seq<bv8>, size: nat, noack: bool)
    ensures var run := Receive(s, a, size, noack); run.verdict.Packet? ==> |run.rest| < |a|
    decreases |a|
  {
    hide React;
    if a != [] && React(s, a[0], size, noack).verdict.Continue? {
      RestIsShorter(React(s, a[0], size, noack).verdict.state, a[1..], size, noack);
    }
  }

  /** Input behind a packet is left alone. */
  lemma {:induction false} PacketThen(s: State, a: seq<bv8>, b: seq<bv8>, size: nat, noack: bool)
    requires Receive(s, a, size, noack).verdict.Packet?
    ensures var run := Receive(s, a, size, noack);
      Receive(s, a + b, size, noack) == Run(run.verdict, run.replies, run.rest + b)
    decreases |a|
  {
    hide React;
    assert (a + b)[0] == a[0] && (a + b)[1..] == a[1..] + b;
    if React(s, a[0], size, noack).verdict.Continue? {
      PacketThen(React(s, a[0], size, noack).verdict.state, a[1..], b, size, noack);
    }
  }

  /** Whether a packet ends with the last character of `a` does not depend on what follows. */
  lemma EndsThere(s: State, a: seq<bv8>, b: seq<bv8>, p: seq<bv8>, replies: seq<bv8>, size: nat, noack: bool)
    ensures Receive(s, a + b, size, noack) == Run(Packet(p), replies, b) <==>
            Receive(s, a, size, noack) == Run(Packet(p), replies, [])
  {
    hide Receive;
    var run := Receive(s, a, size, noack);
    if run.verdict.Packet? {
      PacketThen(s, a, b, size, noack);
      assert run.rest + b == b ==> |run.rest| == 0;
      assert [] + b == b;
    } else {
      ReceiveConcat(s, a, b, size, noack);
      RestIsShorter(run.verdict.state, b, size, noack);
    }
  }

  // ---------- Outside a frame ----------

  predicate Break(c: bv8) { c == EOT || c == INTERRUPT }

  /** Without a start character no packet comes but an interrupt, and that with its character. */
  lemma {:induction false} NoStartNoPacket(s: State, a: seq<bv8>, size: nat, noack: bool)
    requires s.Idle? || s.Remote?
    requires START !in a && (a != [] ==> !Break(a[|a| - 1]))
    ensures var run := Receive(s, a, size, noack); run.verdict.Packet? ==> run.rest != []
    decreases |a|
  {
    if a != [] {
      var c := a[0];
      assert c in a && c != START;
      if React(s, c, size, noack).verdict.Packet? {
        assert Break(c) && !Break(a[|a| - 1]);
      } else {
        assert a[1..] != [] ==> a[1..][|a[1..]| - 1] == a[|a| - 1];
        NoStartNoPacket(React(s, c, size, noack).verdict.state, a[1..], size, noack);
      }
    }
  }

  lemma EscapedHasNoStart(c: bv8)
    ensures START !in Escaped(c)
  {
  }

  lemma {:induction false} BodyHasNoStart(p: seq<bv8>)
    ensures START !in Body(p)
    decreases |p|
  {
    if p != [] {
      EscapedHasNoStart(p[0]);
      BodyHasNoStart(p[1..]);
    }
  }

  predicate Plain(c: bv8) { c != START && !Break(c) }

  lemma DigitsArePlain(b: bv8)
    ensures Plain(UpperDigit(b)) && Plain(LowerDigit(b))
  {
  }

  /** What is behind the start character of a frame. */
  function Tail(p: seq<bv8>, upper: bv8, lower: bv8): seq<bv8> { Body(p) + [END, upper, lower] }

  lemma TailHasNoStart(p: seq<bv8>, upper: bv8, lower: bv8)
    requires Plain(upper) && Plain(lower)
    ensures START !in Tail(p, upper, lower) && |Tail(p, upper, lower)| >= 3
    ensures !Break(Tail(p, upper, lower)[|Tail(p, upper, lower)| - 1])
  {
    BodyHasNoStart(p);
  }

  // ---------- Inside a frame ----------

  lemma CaptureOverflows(got: seq<bv8>, sum: Checksum, c: bv8, size: nat, noack: bool)
    requires |got| + 1 >= size
    ensures Receive(Capture(got, sum), Escaped(c), size, noack) == Run(Continue(Idle), [], [])
  {
    hide Add;
    if Special(c) {
      var d := c ^ ESCAPE_XOR;
      assert [ESCAPE, d][1..] == [d] && [d][1..] == [];
      assert Receive(Escape(got, Add(sum, ESCAPE)), [d], size, noack) == Run(Continue(Idle), [], []);
    } else {
      assert [c][1..] == [];
    }
  }

  /** Characters captured before the body stay in the packet, if one comes at all. */
  lemma {:induction false} CapturedStays(got: seq<bv8>, sum: Checksum, p: seq<bv8>, upper: bv8, lower: bv8,
                                         size: nat, noack: bool)
    requires Plain(upper) && Plain(lower)
    ensures var run := Receive(Capture(got, sum), Tail(p, upper, lower), size, noack);
      run.verdict.Packet? && run.rest == [] ==> |run.verdict.packet| == |got| + |p|
    decreases |p|
  {
    hide Receive, Escaped, UnhexPair, Plain, Break;
    var tail := Tail(p, upper, lower);
    if p == [] {
      assert tail == [END, upper, lower] + [];
      FrameEnd(got, sum, upper, lower, [], size, noack);
      ReceiveNothing(Idle, size, noack);
    } else {
      var rest := Tail(p[1..], upper, lower);
      assert tail == Escaped(p[0]) + rest;
      if |got| + 1 < size {
        var next := Capture(got + [p[0]], Sum(sum, Escaped(p[0])));
        CaptureOne(got, sum, p[0], size, noack);
        ReceiveSilently(Capture(got, sum), Escaped(p[0]), next, rest, size, noack);
        CapturedStays(next.got, next.sum, p[1..], upper, lower, size, noack);
      } else {
        CaptureOverflows(got, sum, p[0], size, noack);
        ReceiveSilently(Capture(got, sum), Escaped(p[0]), Idle, rest, size, noack);
        TailHasNoStart(p[1..], upper, lower);
        NoStartNoPacket(Idle, rest, size, noack);
      }
    }
  }

  /** Behind an escape the start character is taken for data. */
  lemma EscapeTakesStart(s: State, p: seq<bv8>, upper: bv8, lower: bv8, size: nat, noack: bool)
    requires s.Escape? && Plain(upper) && Plain(lower)
    ensures var run := Receive(s, [START] + Tail(p, upper, lower), size, noack);
      run.verdict.Packet? && run.rest == [] ==> |run.verdict.packet| > |p|
  {
    hide Receive, Add, Plain, Break;
    var tail := Tail(p, upper, lower);
    ReceiveOne(s, START, tail, size, noack);
    if |s.got| + 1 < size {
      CapturedStays(s.got + [START ^ ESCAPE_XOR], Add(s.sum, START), p, upper, lower, size, noack);
    } else {
      TailHasNoStart(p, upper, lower);
      NoStartNoPacket(Idle, tail, size, noack);
    }
  }

  /** Inside the checksum the start character is taken for a digit: a packet ends too early, or
      the first reply is a refusal. */
  lemma ChecksumTakesStart(s: State, tail: seq<bv8>, size: nat, noack: bool)
    requires (s.Upper? || s.Lower?) && |tail| >= 3
    ensures var run := Receive(s, [START] + tail, size, noack);
      (run.verdict.Packet? && run.rest != []) || (!noack && run.replies != [] && run.replies[0] == NACK)
  {
    hide Receive, UnhexDigit;
    ReceiveOne(s, START, tail, size, noack);
    if s.Upper? {
      var rx := if noack then 0 else UnhexDigit(START) << 4;
      assert tail == [tail[0]] + tail[1..];
      ReceiveOne(Lower(s.got, s.sum, rx), tail[0], tail[1..], size, noack);
    }
  }

  // ---------- The next frame ----------

  /** A complete frame is received from the ready states, and from no other. */
  lemma ReceivedIffReady(s: State, p: seq<bv8>, rest: seq<bv8>, size: nat, noack: bool)
    requires |p| < size
    ensures Receive(s, Frame(p) + rest, size, noack) == Run(Packet(p), Acks(noack), rest) <==> Ready(s)
  {
    hide Receive, UnhexPair, UpperDigit, LowerDigit, Sum, Body, Plain;
    var sum := Sum(0, Body(p));
    var upper, lower := UpperDigit(ByteOf(sum)), LowerDigit(ByteOf(sum));
    if Ready(s) {
      SumIsTotal(0, Body(p));
      DigitsSpell(sum);
      FrameReceived(s, p, upper, lower, rest, size, noack);
    } else {
      var tail := Tail(p, upper, lower);
      assert Frame(p) == [START] + tail;
      EndsThere(s, Frame(p), rest, p, Acks(noack), size, noack);
      DigitsArePlain(ByteOf(sum));
      if s.Escape? {
        EscapeTakesStart(s, p, upper, lower, size, noack);
      } else if s.Remote? {
        ReceiveOne(s, START, tail, size, noack);
      } else {
        ChecksumTakesStart(s, tail, size, noack);
      }
    }
  }

  /** Behind any history that has not ended in a packet, the next frame is delivered, and nothing
      else is replied, if and only if the history left the receiver ready. */
  lemma DeliveredIffReady(history: seq<bv8>, p: seq<bv8>, rest: seq<bv8>, size: nat, noack: bool)
    requires |p| < size && Receive(Idle, history, size, noack).verdict.Continue?
    ensures var before := Receive(Idle, history, size, noack);
      Receive(Idle, history + Frame(p) + rest, size, noack) == Run(Packet(p), before.replies + Acks(noack), rest)
      <==> Ready(before.verdict.state)
  {
    hide Receive, Frame, Ready;
    var before := Receive(Idle, history, size, noack);
    assert history + Frame(p) + rest == history + (Frame(p) + rest);
    ReceiveConcat(Idle, history, Frame(p) + rest, size, noack);
    ReceivedIffReady(before.verdict.state, p, rest, size, noack);
    SamePrefix(before.replies, Receive(before.verdict.state, Frame(p) + rest, size, noack).replies, Acks(noack));
  }

  lemma SamePrefix(a: seq<bv8>, b: seq<bv8>, c: seq<bv8>)
    ensures a + b == a + c <==> b == c
  {
    if a + b == a + c {
      assert b == (a + b)[|a|..] && c == (a + c)[|a|..];
    }
  }

  /** A frame that is cut short costs the next one if and only if the cut follows an escape
      character or falls into the checksum: whatever the two payloads, wherever the cut. */
  lemma FrameBehindCut(q: seq<bv8>, k: nat, p: seq<bv8>, rest: seq<bv8>, size: nat, noack: bool)
    requires |q| < size && |p| < size && k < |Frame(q)|
    ensures Receive(Idle, Frame(q)[..k] + Frame(p) + rest, size, noack) == Run(Packet(p), Acks(noack), rest)
      <==> k <= |Frame(q)| - 3 && (k > 0 ==> Frame(q)[k - 1] != ESCAPE)
  {
    hide Receive, Frame, Ready;
    TruncatedFrame(q, k, size, noack);
    DeliveredIffReady(Frame(q)[..k], p, rest, size, noack);
    assert [] + Acks(noack) == Acks(noack);
    assert k > 0 ==> Frame(q)[..k][k - 1] == Frame(q)[k - 1];
  }
}

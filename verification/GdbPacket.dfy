/** GDB remote serial packets, main/gdb_packet.c: the receiver as a machine driven by one
    character at a time, the sender with its retransmissions, and the link between them. */
module GdbPacket {
  import opened HexUtils

  const START: bv8 := 0x24      // '$'
  const END: bv8 := 0x23        // '#'
  const ESCAPE: bv8 := 0x7d     // '}'
  const RUN_LENGTH: bv8 := 0x2a // '*'
  const ESCAPE_XOR: bv8 := 0x20
  const ACK: bv8 := 0x2b        // '+'
  const NACK: bv8 := 0x2d       // '-'
  const REMOTE_SOM: bv8 := 0x21 // '!'
  const REMOTE_EOM: bv8 := 0x23 // '#'
  const EOT: bv8 := 0x04
  const INTERRUPT: bv8 := 0x03

  // ---------- The frame ----------

  predicate Special(c: bv8) {
    c == START || c == END || c == ESCAPE || c == RUN_LENGTH
  }

  /** gdb_next_char: what goes on the wire for one character. */
  function Escaped(c: bv8): seq<bv8> {
    if Special(c) then [ESCAPE, c ^ ESCAPE_XOR] else [c]
  }

  function Body(p: seq<bv8>): seq<bv8> {
    if p == [] then [] else Escaped(p[0]) + Body(p[1..])
  }

  /** The running checksum, a uint8_t. */
  type Checksum = n: int | 0 <= n < 256 witness 0

  function ByteOf(n: Checksum): bv8 { n as bv8 }

  function Add(sum: int, c: bv8): Checksum {
    (sum + c as int) % 256
  }

  /** The checksum of a string, continued from `from`. */
  function Sum(from: Checksum, s: seq<bv8>): Checksum
    decreases |s|
  {
    if s == [] then from else Sum(Add(from, s[0]), s[1..])
  }

  /** The plain sum of the bytes. */
  function Total(s: seq<bv8>): nat {
    if s == [] then 0 else s[0] as int + Total(s[1..])
  }

  /** The checksum is the low byte of the sum. */
  lemma {:induction false} SumIsTotal(from: Checksum, s: seq<bv8>)
    ensures Sum(from, s) == (from + Total(s)) % 256
    decreases |s|
  {
    if s == [] {
      SmallRemainder(from);
    } else {
      AddIs(from, s[0]);
      SumIsTotal(Add(from, s[0]), s[1..]);
      RemainderAdds(from + s[0] as int, Total(s[1..]));
    }
  }

  lemma AddIs(sum: int, c: bv8)
    ensures Add(sum, c) == (sum + c as int) % 256
  {
  }

  lemma RemainderAdds(a: nat, b: nat)
    ensures (a % 256 + b) % 256 == (a + b) % 256
  {
  }

  function Frame(p: seq<bv8>): seq<bv8> {
    var sum := ByteOf(Sum(0, Body(p)));
    RawFrame(p, UpperDigit(sum), LowerDigit(sum))
  }

  /** A frame with arbitrary characters in the place of its checksum. */
  function RawFrame(p: seq<bv8>, upper: bv8, lower: bv8): seq<bv8> {
    [START] + Body(p) + [END, upper, lower]
  }

  lemma {:induction false} SumConcat(from: Checksum, s: seq<bv8>, t: seq<bv8>)
    ensures Sum(from, s + t) == Sum(Sum(from, s), t)
    decreases |s|
  {
    if s == [] {
      assert s + t == t;
    } else {
      assert (s + t)[1..] == s[1..] + t;
      SumConcat(Add(from, s[0]), s[1..], t);
    }
  }

  lemma {:induction false} BodyConcat(p: seq<bv8>, q: seq<bv8>)
    ensures Body(p + q) == Body(p) + Body(q)
  {
    if p == [] {
      assert p + q == q;
    } else {
      assert (p + q)[1..] == p[1..] + q;
      BodyConcat(p[1..], q);
    }
  }

  // ---------- The receiver ----------

  /** The states of gdb_getpacket with the characters captured so far and their sum.  Remote
      is the loop of consume_remote_packet: `offset` characters buffered, `first` in packet[0]. */
  datatype State =
    | Idle
    | Capture(got: seq<bv8>, sum: Checksum)
    | Escape(got: seq<bv8>, sum: Checksum)
    | Upper(got: seq<bv8>, sum: Checksum)
    | Lower(got: seq<bv8>, sum: Checksum, rx: bv8)
    | Remote(offset: nat, first: bv8)

  /** What one character brings about: a reply, and either a packet or the next state. */
  datatype Reaction = Reaction(replies: seq<bv8>, verdict: Verdict)
  datatype Verdict = Continue(state: State) | Packet(packet: seq<bv8>)

  /** The buffer overflow check at the end of the loop. */
  function Checked(s: State, size: nat): State {
    if (s.Capture? || s.Escape? || s.Upper? || s.Lower?) && |s.got| >= size then Idle else s
  }

  /** The test on packet[0] after a character was handled in PACKET_IDLE. */
  function AfterIdle(first: bv8, next: State): Verdict {
    if first == EOT || first == INTERRUPT then Packet([first]) else Continue(next)
  }

  function React(s: State, c: bv8, size: nat, noack: bool): Reaction {
    match s
    case Idle =>
      if c == START then Reaction([], AfterIdle(c, Capture([], 0)))
      else if c == REMOTE_SOM then Reaction([], Continue(Remote(0, c)))
      else Reaction([], AfterIdle(c, Idle))
    case Capture(got, sum) =>
      if c == START then Reaction([], Continue(Capture([], 0)))
      else if c == END then Reaction([], Continue(Upper(got, sum)))
      else if c == ESCAPE then Reaction([], Continue(Escape(got, Add(sum, c))))
      else Reaction([], Continue(Checked(Capture(got + [c], Add(sum, c)), size)))
    case Escape(got, sum) =>
      Reaction([], Continue(Checked(Capture(got + [c ^ ESCAPE_XOR], Add(sum, c)), size)))
    case Upper(got, sum) =>
      Reaction([], Continue(Lower(got, sum, if noack then 0 else UnhexDigit(c) << 4)))
    case Lower(got, sum, rx) =>
      if noack then Reaction([], Packet(got))
      else if (rx | UnhexDigit(c)) as int == sum then Reaction([ACK], Packet(got))
      else Reaction([NACK], Continue(Idle))
    case Remote(offset, first) =>
      if c == EOT then Reaction([], Packet([EOT]))
      else if c == REMOTE_SOM then Reaction([], Continue(Remote(0, first)))
      else if c == REMOTE_EOM then Reaction([], Continue(Idle))
      else if c == START then Reaction([], AfterIdle(first, Capture([], 0)))
      else if offset < size then Reaction([], Continue(Remote(offset + 1, if offset == 0 then c else first)))
      else Reaction([], Continue(Idle))
  }

  /** Reception of a stream: where it stopped, what was replied, what input is left. */
  datatype Run = Run(verdict: Verdict, replies: seq<bv8>, rest: seq<bv8>)

  function Receive(s: State, input: seq<bv8>, size: nat, noack: bool): Run
    decreases |input|
  {
    if input == [] then Run(Continue(s), [], [])
    else
      var reaction := React(s, input[0], size, noack);
      match reaction.verdict
      case Packet(_) => Run(reaction.verdict, reaction.replies, input[1..])
      case Continue(next) =>
        var run := Receive(next, input[1..], size, noack);
        run.(replies := reaction.replies + run.replies)
  }

  function Prepend(replies: seq<bv8>, run: Run): Run {
    run.(replies := replies + run.replies)
  }

  /** Input arriving in two parts. */
  lemma {:induction false} ReceiveConcat(s: State, a: seq<bv8>, b: seq<bv8>, size: nat, noack: bool)
    requires Receive(s, a, size, noack).verdict.Continue?
    ensures var first := Receive(s, a, size, noack);
      Receive(s, a + b, size, noack) == Prepend(first.replies, Receive(first.verdict.state, b, size, noack))
    decreases |a|
  {
    hide React;
    if a == [] {
      assert a + b == b;
    } else {
      var reaction := React(s, a[0], size, noack);
      var next := reaction.verdict.state;
      assert (a + b)[0] == a[0] && (a + b)[1..] == a[1..] + b;
      ReceiveConcat(next, a[1..], b, size, noack);
      var r1, r2 := Receive(next, a[1..], size, noack).replies,
                    Receive(Receive(s, a, size, noack).verdict.state, b, size, noack).replies;
      assert reaction.replies + (r1 + r2) == reaction.replies + r1 + r2;
    }
  }

  /** Input that is taken in silently. */
  lemma ReceiveSilently(s: State, a: seq<bv8>, next: State, b: seq<bv8>, size: nat, noack: bool)
    requires Receive(s, a, size, noack) == Run(Continue(next), [], [])
    ensures Receive(s, a + b, size, noack) == Receive(next, b, size, noack)
  {
    hide Receive;
    ReceiveConcat(s, a, b, size, noack);
    assert [] + Receive(next, b, size, noack).replies == Receive(next, b, size, noack).replies;
  }

  lemma XorTwice(c: bv8)
    ensures (c ^ ESCAPE_XOR) ^ ESCAPE_XOR == c
  {}

  /** One character, escaped or not, is captured as itself and adds its wire bytes to the sum. */
  lemma CaptureOne(got: seq<bv8>, sum: Checksum, c: bv8, size: nat, noack: bool)
    requires |got| + 1 < size
    ensures Receive(Capture(got, sum), Escaped(c), size, noack)
         == Run(Continue(Capture(got + [c], Sum(sum, Escaped(c)))), [], [])
  {
    hide Add;
    if Special(c) {
      var d := c ^ ESCAPE_XOR;
      XorTwice(c);
      assert [ESCAPE, d][1..] == [d] && [d][1..] == [];
      var s1 := Add(sum, ESCAPE);
      assert Receive(Escape(got, s1), [d], size, noack) == Run(Continue(Capture(got + [c], Add(s1, d))), [], []);
      assert Sum(sum, [ESCAPE, d]) == Sum(s1, [d]) == Add(s1, d);
    } else {
      assert [c][1..] == [];
      assert Sum(sum, [c]) == Add(sum, c);
    }
  }

  lemma {:induction false} CaptureBody(got: seq<bv8>, sum: Checksum, p: seq<bv8>, size: nat, noack: bool)
    requires |got| + |p| < size
    ensures Receive(Capture(got, sum), Body(p), size, noack)
         == Run(Continue(Capture(got + p, Sum(sum, Body(p)))), [], [])
    decreases |p|
  {
    hide Add, Escaped, Receive;
    if p == [] {
      assert got + p == got;
      ReceiveNothing(Capture(got, sum), size, noack);
    } else {
      var next := Capture(got + [p[0]], Sum(sum, Escaped(p[0])));
      CaptureOne(got, sum, p[0], size, noack);
      ReceiveSilently(Capture(got, sum), Escaped(p[0]), next, Body(p[1..]), size, noack);
      SumConcat(sum, Escaped(p[0]), Body(p[1..]));
      CaptureBody(next.got, next.sum, p[1..], size, noack);
      assert got + [p[0]] + p[1..] == got + p;
    }
  }

  lemma ReceiveNothing(s: State, size: nat, noack: bool)
    ensures Receive(s, [], size, noack) == Run(Continue(s), [], [])
  {}

  // ---------- Framing round trip ----------

  /** The states from which a packet start is recognised. */
  predicate Ready(s: State) {
    || s.Idle?
    || s.Capture?
    || (s.Remote? && s.first != EOT && s.first != INTERRUPT)
  }

  lemma ReceiveOne(s: State, c: bv8, t: seq<bv8>, size: nat, noack: bool)
    ensures var reaction := React(s, c, size, noack);
      match reaction.verdict
      case Packet(_) => Receive(s, [c] + t, size, noack) == Run(reaction.verdict, reaction.replies, t)
      case Continue(next) =>
        && Receive(s, [c] + t, size, noack) == Prepend(reaction.replies, Receive(next, t, size, noack))
        && (reaction.replies == [] ==> Receive(s, [c] + t, size, noack) == Receive(next, t, size, noack))
  {
    hide React;
    assert ([c] + t)[1..] == t;
    var next := React(s, c, size, noack).verdict;
    if next.Continue? {
      assert [] + Receive(next.state, t, size, noack).replies == Receive(next.state, t, size, noack).replies;
    }
  }

  lemma StartRecognised(s: State, t: seq<bv8>, size: nat, noack: bool)
    requires Ready(s)
    ensures Receive(s, [START] + t, size, noack) == Receive(Capture([], 0), t, size, noack)
  {
    assert ([START] + t)[1..] == t;
    assert [] + Receive(Capture([], 0), t, size, noack).replies == Receive(Capture([], 0), t, size, noack).replies;
  }

  /** What the packet `got` with these checksum characters brings about, if its sum is `sum`. */
  function Answer(got: seq<bv8>, sum: int, upper: bv8, lower: bv8, rest: seq<bv8>, size: nat, noack: bool): Run {
    if noack then Run(Packet(got), [], rest)
    else if UnhexPair(upper, lower) as int == sum then Run(Packet(got), [ACK], rest)
    else Prepend([NACK], Receive(Idle, rest, size, noack))
  }

  /** The end of a frame: the verdict depends on the checksum characters alone. */
  lemma FrameEnd(got: seq<bv8>, sum: Checksum, upper: bv8, lower: bv8, rest: seq<bv8>, size: nat, noack: bool)
    ensures Receive(Capture(got, sum), [END, upper, lower] + rest, size, noack) ==
            Answer(got, sum, upper, lower, rest, size, noack)
  {
    hide Receive, UnhexDigit;
    assert [END, upper, lower] + rest == [END] + ([upper] + ([lower] + rest));
    var rx := if noack then 0 else UnhexDigit(upper) << 4;
    ReceiveOne(Capture(got, sum), END, [upper] + ([lower] + rest), size, noack);
    ReceiveOne(Upper(got, sum), upper, [lower] + rest, size, noack);
    ReceiveOne(Lower(got, sum, rx), lower, rest, size, noack);
  }

  lemma FrameParts(p: seq<bv8>, upper: bv8, lower: bv8, rest: seq<bv8>)
    ensures RawFrame(p, upper, lower) + rest == [START] + (Body(p) + ([END, upper, lower] + rest))
  {
    hide Body;
  }

  /** A frame from its start to the characters of the checksum. */
  lemma FrameTaken(s: State, p: seq<bv8>, tail: seq<bv8>, size: nat, noack: bool)
    requires Ready(s) && |p| < size
    ensures Receive(s, [START] + (Body(p) + tail), size, noack) ==
            Receive(Capture(p, Sum(0, Body(p))), tail, size, noack)
  {
    hide Receive, Body, Sum;
    StartRecognised(s, Body(p) + tail, size, noack);
    CaptureBody([], 0, p, size, noack);
    assert [] + p == p;
    ReceiveSilently(Capture([], 0), Body(p), Capture(p, Sum(0, Body(p))), tail, size, noack);
  }

  lemma FrameAnswered(s: State, p: seq<bv8>, upper: bv8, lower: bv8, rest: seq<bv8>, size: nat, noack: bool)
    requires Ready(s) && |p| < size
    ensures Receive(s, RawFrame(p, upper, lower) + rest, size, noack) ==
            Answer(p, Total(Body(p)) % 256, upper, lower, rest, size, noack)
  {
    hide Receive, Answer, Body, Sum, Total, RawFrame;
    SumIsTotal(0, Body(p));
    FrameParts(p, upper, lower, rest);
    FrameTaken(s, p, [END, upper, lower] + rest, size, noack);
    FrameEnd(p, Sum(0, Body(p)), upper, lower, rest, size, noack);
  }

  /** From every ready state a complete frame shorter than the buffer is accepted exactly
      when its two last characters spell the sum of the bytes between start and end, modulo 256,
      and answered accordingly. */
  lemma FrameReceived(s: State, p: seq<bv8>, upper: bv8, lower: bv8, rest: seq<bv8>, size: nat, noack: bool)
    requires Ready(s) && |p| < size
    ensures Receive(s, RawFrame(p, upper, lower) + rest, size, noack) ==
      if noack then Run(Packet(p), [], rest)
      else if UnhexPair(upper, lower) as int == Total(Body(p)) % 256 then Run(Packet(p), [ACK], rest)
      else Prepend([NACK], Receive(Idle, rest, size, noack))
  {
    hide Receive, UnhexPair, Body, Sum, Total, RawFrame, Ready, Prepend;
    FrameAnswered(s, p, upper, lower, rest, size, noack);
  }

  function Acks(noack: bool): seq<bv8> { if noack then [] else [ACK] }

  /** What gdb_putpacket sends, gdb_getpacket returns: for every payload shorter than the
      buffer, whatever input came before as long as it left the receiver ready. */
  lemma RoundTrip(history: seq<bv8>, p: seq<bv8>, rest: seq<bv8>, size: nat, noack: bool)
    requires |p| < size
    requires Receive(Idle, history, size, noack).verdict.Continue?
    requires Ready(Receive(Idle, history, size, noack).verdict.state)
    ensures Receive(Idle, history + Frame(p) + rest, size, noack)
         == Run(Packet(p), Receive(Idle, history, size, noack).replies + Acks(noack), rest)
  {
    hide Receive, UnhexPair, UpperDigit, LowerDigit, Sum;
    var before := Receive(Idle, history, size, noack);
    var sum := Sum(0, Body(p));
    SumIsTotal(0, Body(p));
    DigitsSpell(sum);
    ReceiveConcat(Idle, history, Frame(p) + rest, size, noack);
    assert history + Frame(p) + rest == history + (Frame(p) + rest);
    FrameReceived(before.verdict.state, p, UpperDigit(ByteOf(sum)), LowerDigit(ByteOf(sum)), rest, size, noack);
  }

  lemma ByteOfValue(n: Checksum)
    ensures ByteOf(n) as int == n % 256
  {}

  lemma PairSpells(b: bv8)
    ensures UnhexPair(UpperDigit(b), LowerDigit(b)) as int == b as int
  {
    PairRoundTrip(b);
  }

  /** The two digits sent for a checksum are read back as that checksum. */
  lemma DigitsSpell(n: Checksum)
    ensures UnhexPair(UpperDigit(ByteOf(n)), LowerDigit(ByteOf(n))) as int == n
  {
    hide UnhexPair, UpperDigit, LowerDigit, ByteOf;
    ByteOfValue(n);
    PairSpells(ByteOf(n));
    SmallRemainder(n);
  }

  lemma SmallRemainder(n: Checksum)
    ensures n % 256 == n
  {
  }

  /** The frame in full: start, body, end, and the sum of the body modulo 256 as two digits. */
  function WireFrame(p: seq<bv8>): seq<bv8> {
    var n := Total(Body(p)) % 256;
    [0x24] + Body(p) + [0x23, DIGITS[n / 16], DIGITS[n % 16]]
  }

  lemma FrameLayout(p: seq<bv8>)
    ensures Frame(p) == WireFrame(p)
  {
    hide Body, UpperDigit, LowerDigit, ByteOf;
    SumIsTotal(0, Body(p));
    var n := Sum(0, Body(p));
    ByteOfValue(n);
    SmallRemainder(n);
    ByteDigits(ByteOf(n));
  }

  /** The four special characters are sent as two, the second with bit 5 flipped. */
  lemma EscapedLayout(c: bv8)
    ensures Escaped(c) == if c == 0x23 || c == 0x24 || c == 0x2a || c == 0x7d then [0x7d, c ^ 0x20] else [c]
  {
  }

  predicate Noise(c: bv8) {
    c != START && c != REMOTE_SOM && c != EOT && c != INTERRUPT
  }

  /** Noise between packets is swallowed without a trace. */
  lemma {:induction false} NoiseIgnored(noise: seq<bv8>, size: nat, noack: bool)
    requires forall i :: 0 <= i < |noise| ==> Noise(noise[i])
    ensures Receive(Idle, noise, size, noack) == Run(Continue(Idle), [], [])
    decreases |noise|
  {
    if noise != [] {
      NoiseIgnored(noise[1..], size, noack);
    }
  }

  // ---------- Truncated frames ----------

  /** Every cut through an escaped body falls behind a character or behind an escape. */
  lemma {:induction false} BodyCut(q: seq<bv8>, k: nat) returns (n: nat)
    requires k <= |Body(q)|
    ensures n <= |q|
    ensures
      || Body(q)[..k] == Body(q[..n])
      || (n < |q| && Special(q[n]) && Body(q)[..k] == Body(q[..n]) + [ESCAPE])
    decreases |q|
  {
    if k == 0 {
      n := 0;
      assert q[..0] == [];
    } else {
      var head := Escaped(q[0]);
      if k < |head| {
        n := 0;
        assert q[..0] == [] && Body(q)[..k] == [ESCAPE];
      } else {
        var m := BodyCut(q[1..], k - |head|);
        n := m + 1;
        assert q[..n][1..] == q[1..][..m] && q[..n][0] == q[0];
        assert Body(q)[..k] == head + Body(q[1..])[..k - |head|];
        assert Body(q[..n]) == head + Body(q[1..][..m]);
      }
    }
  }

  lemma EscapedEnd(c: bv8)
    ensures Escaped(c)[|Escaped(c)| - 1] != ESCAPE
  {}

  lemma {:induction false} BodyEnd(q: seq<bv8>)
    ensures q != [] ==> Body(q) != [] && Body(q)[|Body(q)| - 1] != ESCAPE
  {
    if q != [] {
      var n := |q| - 1;
      assert q == q[..n] + [q[n]];
      BodyConcat(q[..n], [q[n]]);
      assert [q[n]][1..] == [];
      assert Body([q[n]]) == Escaped(q[n]) + Body([]) == Escaped(q[n]);
      EscapedEnd(q[n]);
    }
  }

  /** After a frame that was cut short the receiver is ready for the next one if and only if
      the cut neither follows an escape character nor falls into the checksum. */
  lemma TruncatedFrame(q: seq<bv8>, k: nat, size: nat, noack: bool)
    requires |q| < size && k < |Frame(q)|
    ensures var t := Frame(q)[..k]; var run := Receive(Idle, t, size, noack);
      && run.verdict.Continue? && run.replies == []
      && (Ready(run.verdict.state) <==> k <= |Frame(q)| - 3 && (k > 0 ==> t[k - 1] != ESCAPE))
  {
    hide Body, Sum, Add, UpperDigit, LowerDigit;
    var t := Frame(q)[..k];
    if k == 0 {
      assert t == [];
    } else if k <= |Body(q)| + 1 {
      var cut := Body(q)[..k - 1];
      assert t == [START] + cut;
      StartRecognised(Idle, cut, size, noack);
      var n := BodyCut(q, k - 1);
      CutCaptured(q[..n], cut, size, noack);
      BodyEnd(q[..n]);
      if cut == Body(q[..n]) {
        assert k > 1 && n > 0 ==> t[k - 1] == cut[k - 2];
        BodyEmpty();
      }
    } else {
      var end := [END, UpperDigit(ByteOf(Sum(0, Body(q))))][..k - |Body(q)| - 1];
      assert t == [START] + (Body(q) + end);
      StartRecognised(Idle, Body(q) + end, size, noack);
      CaptureBody([], 0, q, size, noack);
      assert [] + q == q;
      ReceiveSilently(Capture([], 0), Body(q), Capture(q, Sum(0, Body(q))), end, size, noack);
      ChecksumCut(q, Sum(0, Body(q)), end, size, noack);
    }
  }

  lemma BodyEmpty()
    ensures Body([]) == []
  {}

  lemma CutCaptured(p: seq<bv8>, cut: seq<bv8>, size: nat, noack: bool)
    requires |p| < size && (cut == Body(p) || cut == Body(p) + [ESCAPE])
    ensures var run := Receive(Capture([], 0), cut, size, noack);
      && run.verdict.Continue? && run.replies == []
      && (cut == Body(p) ==> run.verdict.state.Capture?)
      && (cut == Body(p) + [ESCAPE] ==> run.verdict.state.Escape?)
  {
    hide Body;
    CaptureBody([], 0, p, size, noack);
    if cut == Body(p) + [ESCAPE] {
      var next := Capture([] + p, Sum(0, Body(p)));
      ReceiveSilently(Capture([], 0), Body(p), next, [ESCAPE], size, noack);
      assert [ESCAPE][1..] == [];
    }
  }

  lemma ChecksumCut(got: seq<bv8>, sum: Checksum, end: seq<bv8>, size: nat, noack: bool)
    requires end == [END] || (|end| == 2 && end[0] == END)
    ensures var run := Receive(Capture(got, sum), end, size, noack);
      run.verdict.Continue? && run.replies == [] && !Ready(run.verdict.state)
  {
    hide Receive, UnhexDigit;
    assert end == [END] + end[1..];
    ReceiveOne(Capture(got, sum), END, end[1..], size, noack);
    if |end| == 2 {
      var rx := if noack then 0 else UnhexDigit(end[1]) << 4;
      assert end[1..] == [end[1]] + [];
      ReceiveOne(Upper(got, sum), end[1], [], size, noack);
      ReceiveNothing(Lower(got, sum, rx), size, noack);
    } else {
      ReceiveNothing(Upper(got, sum), size, noack);
    }
  }
}

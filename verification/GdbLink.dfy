/** The two ends of the GDB link as main/gdb_packet.c programs them: gdb_putpacket with its
    retransmissions and gdb_getpacket working on its buffer, and the two coupled. */
module GdbLink {
  import opened HexUtils
  import opened GdbPacket

  // ---------- The sender ----------

  function Copies(frame: seq<bv8>, n: nat): seq<bv8> {
    if n == 0 then [] else Copies(frame, n - 1) + frame
  }

  /** How often a packet goes out when the answer to attempt k is reply(k): until the first
      acknowledgement, four times at most, once in no-ack mode. */
  function Attempts(noack: bool, reply: nat -> int, tries: nat): nat
    decreases 3 - tries
  {
    if noack || reply(tries) == ACK as int || tries >= 3 then tries + 1 else Attempts(noack, reply, tries + 1)
  }

  lemma {:induction false} AttemptsBounds(noack: bool, reply: nat -> int, tries: nat)
    requires tries <= 3
    ensures var n := Attempts(noack, reply, tries);
      && tries < n <= 4
      && (forall k :: tries <= k < n - 1 ==> !noack && reply(k) != ACK as int)
      && (n == 4 || noack || reply(n - 1) == ACK as int)
    decreases 3 - tries
  {
    if !noack && reply(tries) != ACK as int && tries < 3 {
      AttemptsBounds(noack, reply, tries + 1);
    }
  }

  /** gdb_next_char. */
  method NextChar(value: bv8, wire: seq<bv8>, csum: Checksum) returns (wire': seq<bv8>, csum': Checksum)
    ensures wire' == wire + Escaped(value) && csum' == Sum(csum, Escaped(value))
    ensures csum' == (csum + Total(Escaped(value))) % 256
  {
    SumIsTotal(csum, Escaped(value));
    if value == START || value == END || value == ESCAPE || value == RUN_LENGTH {
      wire' := wire + [ESCAPE];
      wire' := wire' + [value ^ ESCAPE_XOR];
      csum' := Add(Add(csum, ESCAPE), value ^ ESCAPE_XOR);
      assert [ESCAPE, value ^ ESCAPE_XOR][1..] == [value ^ ESCAPE_XOR];
      assert Sum(Add(csum, ESCAPE), [value ^ ESCAPE_XOR]) == csum';
    } else {
      wire' := wire + [value];
      csum' := Add(csum, value);
    }
  }

  /** The loop over one part of the payload. */
  method PutPart(packet: array<bv8>, size: nat, wire: seq<bv8>, csum: Checksum)
    returns (wire': seq<bv8>, csum': Checksum)
    requires size <= packet.Length
    ensures wire' == wire + Body(packet[..size]) && csum' == Sum(csum, Body(packet[..size]))
  {
    hide Escaped, Sum;
    wire', csum' := wire, csum;
    SumNothing(csum);
    for i := 0 to size
      invariant wire' == wire + Body(packet[..i])
      invariant csum' == Sum(csum, Body(packet[..i]))
    {
      BodySnoc(packet[..i], packet[i]);
      assert packet[..i] + [packet[i]] == packet[..i + 1];
      SumConcat(csum, Body(packet[..i]), Escaped(packet[i]));
      wire', csum' := NextChar(packet[i], wire', csum');
    }
  }

  lemma SumNothing(csum: Checksum)
    ensures Sum(csum, []) == csum
  {}

  lemma BodySnoc(p: seq<bv8>, c: bv8)
    ensures Body(p + [c]) == Body(p) + Escaped(c)
  {
    BodyConcat(p, [c]);
    assert [c][1..] == [];
    assert Body([c]) == Escaped(c) + Body([]) == Escaped(c);
  }

  /** gdb_putpacket2, and with an empty second part gdb_putpacket: everything it sends. */
  method PutPacket2(packet1: array<bv8>, size1: nat, packet2: array<bv8>, size2: nat, noack: bool, reply: nat -> int)
    returns (wire: seq<bv8>)
    requires size1 <= packet1.Length && size2 <= packet2.Length
    ensures wire == Copies(WireFrame(packet1[..size1] + packet2[..size2]), Attempts(noack, reply, 0))
  {
    hide Body, Sum, WireFrame;
    ghost var p := packet1[..size1] + packet2[..size2];
    FrameLayout(p);
    BodyConcat(packet1[..size1], packet2[..size2]);
    SumConcat(0, Body(packet1[..size1]), Body(packet2[..size2]));
    wire := [];
    var tries := 0;
    while true
      invariant tries <= 3
      invariant wire == Copies(Frame(p), tries)
      invariant Attempts(noack, reply, tries) == Attempts(noack, reply, 0)
      decreases 3 - tries
    {
      ghost var before := wire;
      var csum: Checksum := 0;
      wire := wire + [START];
      wire, csum := PutPart(packet1, size1, wire, csum);
      wire, csum := PutPart(packet2, size2, wire, csum);
      wire := wire + [END];
      wire := wire + [UpperDigit(ByteOf(csum))];
      wire := wire + [LowerDigit(ByteOf(csum))];
      assert wire == before + Frame(p);
      if noack || reply(tries) == ACK as int || tries >= 3 {
        return;
      }
      tries := tries + 1;
    }
  }

  // ---------- The link ----------

  /** A copy of a packet damaged on the way so that its checksum no longer matches. */
  datatype Damaged = Damaged(payload: seq<bv8>, upper: bv8, lower: bv8)

  predicate Mismatch(d: Damaged, size: nat) {
    |d.payload| < size && UnhexPair(d.upper, d.lower) as int != Total(Body(d.payload)) % 256
  }

  function Stream(copies: seq<Damaged>): seq<bv8> {
    if copies == [] then [] else RawFrame(copies[0].payload, copies[0].upper, copies[0].lower) + Stream(copies[1..])
  }

  function Refusals(n: nat): seq<bv8> {
    if n == 0 then [] else [NACK] + Refusals(n - 1)
  }

  lemma {:induction false} DamagedCopiesRefused(copies: seq<Damaged>, rest: seq<bv8>, size: nat)
    requires forall i :: 0 <= i < |copies| ==> Mismatch(copies[i], size)
    ensures Receive(Idle, Stream(copies) + rest, size, false)
         == Prepend(Refusals(|copies|), Receive(Idle, rest, size, false))
    decreases |copies|
  {
    hide Receive, RawFrame, UnhexPair, Total;
    if copies == [] {
      assert Stream(copies) + rest == rest;
    } else {
      var d := copies[0];
      assert Mismatch(d, size);
      var tail := Stream(copies[1..]) + rest;
      assert Stream(copies) + rest == RawFrame(d.payload, d.upper, d.lower) + tail;
      FrameReceived(Idle, d.payload, d.upper, d.lower, tail, size, false);
      DamagedCopiesRefused(copies[1..], rest, size);
      var r := Receive(Idle, rest, size, false).replies;
      assert [NACK] + (Refusals(|copies| - 1) + r) == [NACK] + Refusals(|copies| - 1) + r;
    }
  }

  lemma {:induction false} RefusalsLength(n: nat)
    ensures |Refusals(n)| == n
  {
    if n > 0 {
      RefusalsLength(n - 1);
    }
  }

  lemma {:induction false} RefusalsAt(n: nat, k: nat)
    requires k < n
    ensures |Refusals(n)| == n && Refusals(n)[k] == NACK
    decreases n
  {
    if n > 1 {
      RefusalsAt(n - 1, if k == 0 then 0 else k - 1);
    }
  }

  /** Up to three damaged copies are repaired by retransmission: the receiver answers them with
      refusals, takes the good copy, and the sender, reading exactly these answers, sends
      exactly as many copies as the receiver consumed. */
  lemma RetransmissionDelivers(copies: seq<Damaged>, p: seq<bv8>, rest: seq<bv8>, size: nat, reply: nat -> int)
    requires |p| < size && |copies| <= 3
    requires forall i :: 0 <= i < |copies| ==> Mismatch(copies[i], size)
    requires var run := Receive(Idle, Stream(copies) + Frame(p) + rest, size, false);
      forall k :: 0 <= k < |run.replies| ==> reply(k) == run.replies[k] as int
    ensures Receive(Idle, Stream(copies) + Frame(p) + rest, size, false)
         == Run(Packet(p), Refusals(|copies|) + [ACK], rest)
    ensures Attempts(false, reply, 0) == |copies| + 1
  {
    hide Receive, Frame, Mismatch, Stream;
    assert Stream(copies) + Frame(p) + rest == Stream(copies) + (Frame(p) + rest);
    DamagedCopiesRefused(copies, Frame(p) + rest, size);
    ReceiveNothing(Idle, size, false);
    RoundTrip([], p, rest, size, false);
    assert [] + Frame(p) + rest == Frame(p) + rest && [] + [ACK] == [ACK];
    var replies := Refusals(|copies|) + [ACK];
    forall k | 0 <= k < |copies| ensures |Refusals(|copies|)| == |copies| && reply(k) == NACK as int {
      RefusalsAt(|copies|, k);
    }
    RefusalsLength(|copies|);
    assert replies[|copies|] == ACK;
    AttemptsCount(reply, 0, |copies|);
  }

  lemma {:induction false} AttemptsCount(reply: nat -> int, tries: nat, n: nat)
    requires tries <= n <= 3
    requires forall k :: tries <= k < n ==> reply(k) == NACK as int
    requires reply(n) == ACK as int
    ensures Attempts(false, reply, tries) == n + 1
    decreases n - tries
  {
    if tries < n {
      AttemptsCount(reply, tries + 1, n);
    }
  }

  /** A fourth damaged copy exhausts the sender: it has given up before a good copy could go out. */
  lemma FourRefusalsGiveUp(copies: seq<Damaged>, size: nat, reply: nat -> int)
    requires |copies| == 4
    requires forall i :: 0 <= i < 4 ==> Mismatch(copies[i], size)
    requires forall k :: 0 <= k < 4 ==> reply(k) == NACK as int
    ensures Receive(Idle, Stream(copies), size, false) == Run(Continue(Idle), Refusals(4), [])
    ensures Attempts(false, reply, 0) == 4
  {
    hide Receive, Mismatch, Stream;
    DamagedCopiesRefused(copies, [], size);
    assert Stream(copies) + [] == Stream(copies);
    ReceiveNothing(Idle, size, false);
    assert Refusals(4) + [] == Refusals(4);
    AttemptsBounds(false, reply, 0);
  }
}

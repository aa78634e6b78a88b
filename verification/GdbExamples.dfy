/** Frames as they are seen on the wire, with the answers they get. */
module GdbExamples {
  import opened HexUtils
  import opened GdbPacket

  lemma BodyFirst(c: bv8, rest: seq<bv8>)
    ensures Body([c] + rest) == Escaped(c) + Body(rest)
  {
    hide Escaped;
    assert ([c] + rest)[1..] == rest;
  }

  lemma TotalFirst(c: bv8, rest: seq<bv8>)
    ensures Total([c] + rest) == c as int + Total(rest)
  {
    assert ([c] + rest)[1..] == rest;
  }

  lemma Empty()
    ensures Body([]) == [] && Total([]) == 0
  {
  }

  /** The body "OK" is sent as it is; its bytes add up to 0x9A. */
  lemma BodyOfOk()
    ensures Body([0x4f, 0x4b]) == [0x4f, 0x4b] && Total([0x4f, 0x4b]) == 0x9a
  {
    hide Body, Total;
    Empty();
    BodyFirst(0x4b, []);
    BodyFirst(0x4f, [0x4b]);
    TotalFirst(0x4b, []);
    TotalFirst(0x4f, [0x4b]);
    assert [0x4f as bv8] + [0x4b] == [0x4f, 0x4b] && [0x4b as bv8] + [] == [0x4b];
    assert Escaped(0x4f) == [0x4f] && Escaped(0x4b) == [0x4b];
  }

  /** "OK" is sent as "$OK#9A". */
  lemma FrameOfOk()
    ensures Frame([0x4f, 0x4b]) == [0x24, 0x4f, 0x4b, 0x23, 0x39, 0x41]
  {
    hide Body, Total, Frame;
    BodyOfOk();
    FrameLayout([0x4f, 0x4b]);
  }

  /** "#" is sent as "$}\x03#80". */
  lemma FrameOfHash()
    ensures Frame([0x23]) == [0x24, 0x7d, 0x03, 0x23, 0x38, 0x30]
  {
    hide Body, Total, Frame;
    Empty();
    BodyFirst(0x23, []);
    TotalFirst(0x03, []);
    TotalFirst(0x7d, [0x03]);
    assert [0x23 as bv8] + [] == [0x23] && [0x7d as bv8] + [0x03] == [0x7d, 0x03] && [0x03 as bv8] + [] == [0x03];
    assert Escaped(0x23) == [0x7d, 0x03] && [0x7d as bv8, 0x03] + [] == [0x7d, 0x03];
    FrameLayout([0x23]);
  }

  /** Control-C and control-D are packets of their own. */
  lemma Interrupts(rest: seq<bv8>, size: nat, noack: bool)
    ensures Receive(Idle, [0x03] + rest, size, noack) == Run(Packet([0x03]), [], rest)
    ensures Receive(Idle, [0x04] + rest, size, noack) == Run(Packet([0x04]), [], rest)
  {
    hide Receive;
    ReceiveOne(Idle, 0x03, rest, size, noack);
    ReceiveOne(Idle, 0x04, rest, size, noack);
  }

  predicate Plain(body: seq<bv8>) {
    forall c | c in body :: c !in {0x21, 0x23, 0x24, 0x03, 0x04}
  }

  /** How a remote control packet may end behind up to `size` characters: "#" leaves no trace of it,
      control-D is a packet of its own, "$" starts a frame and one character too many drops it. */
  lemma RemoteEnds(body: seq<bv8>, x: bv8, rest: seq<bv8>, size: nat, noack: bool)
    requires |body| <= size && Plain(body)
    ensures Receive(Idle, [0x21] + body + [0x23] + rest, size, noack) == Receive(Idle, rest, size, noack)
    ensures Receive(Idle, [0x21] + body + [0x04] + rest, size, noack) == Run(Packet([0x04]), [], rest)
    ensures Receive(Idle, [0x21] + body + [0x24] + rest, size, noack) == Receive(Idle, [0x24] + rest, size, noack)
    ensures |body| == size && Plain([x]) ==>
      Receive(Idle, [0x21] + body + [x] + rest, size, noack) == Receive(Idle, rest, size, noack)
  {
    hide Receive;
    var first := if body == [] then 0x21 else body[0];
    assert first == 0x21 || first in body;
    assert Plain([x]) ==> x in [x];
    forall c: bv8
      ensures Receive(Idle, [0x21] + body + [c] + rest, size, noack) ==
              Receive(Remote(|body|, first), [c] + rest, size, noack)
    {
      assert [0x21] + body + [c] + rest == [0x21] + (body + ([c] + rest));
      ReceiveOne(Idle, 0x21, body + ([c] + rest), size, noack);
      RemoteBody(0, 0x21, body, [c] + rest, size, noack);
    }
    ReceiveOne(Remote(|body|, first), 0x23, rest, size, noack);
    ReceiveOne(Remote(|body|, first), 0x04, rest, size, noack);
    ReceiveOne(Remote(|body|, first), 0x24, rest, size, noack);
    ReceiveOne(Remote(|body|, first), x, rest, size, noack);
    ReceiveOne(Idle, 0x24, rest, size, noack);
  }

  /** A second "!" starts the remote control packet anew, with the whole buffer to itself. */
  lemma RemoteRestarts(body: seq<bv8>, again: seq<bv8>, rest: seq<bv8>, size: nat, noack: bool)
    requires |body| <= size && Plain(body) && |again| <= size && Plain(again)
    ensures Receive(Idle, [0x21] + body + [0x21] + again + [0x23] + rest, size, noack) ==
            Receive(Idle, rest, size, noack)
  {
    hide Receive;
    var tail := again + ([0x23] + rest);
    var first := if body == [] then 0x21 else body[0];
    assert [0x21] + body + [0x21] + again + [0x23] + rest == [0x21] + (body + ([0x21] + tail));
    ReceiveOne(Idle, 0x21, body + ([0x21] + tail), size, noack);
    RemoteBody(0, 0x21, body, [0x21] + tail, size, noack);
    ReceiveOne(Remote(|body|, first), 0x21, tail, size, noack);
    RemoteBody(0, first, again, [0x23] + rest, size, noack);
    ReceiveOne(Remote(|again|, if again == [] then first else again[0]), 0x23, rest, size, noack);
  }

  lemma {:induction false} RemoteBody(offset: nat, first: bv8, body: seq<bv8>, rest: seq<bv8>, size: nat, noack: bool)
    requires offset + |body| <= size && Plain(body)
    ensures var next := Remote(offset + |body|, if offset == 0 && body != [] then body[0] else first);
      Receive(Remote(offset, first), body + rest, size, noack) == Receive(next, rest, size, noack)
    decreases |body|
  {
    hide Receive;
    if body == [] {
      assert body + rest == rest;
    } else {
      assert body[0] in body && forall c | c in body[1..] :: c in body;
      assert body + rest == [body[0]] + (body[1..] + rest);
      ReceiveOne(Remote(offset, first), body[0], body[1..] + rest, size, noack);
      RemoteBody(offset + 1, if offset == 0 then body[0] else first, body[1..], rest, size, noack);
    }
  }

  /** "$OK#9a" is a packet, with either kind of digits, and "$OK#9b" is refused. */
  lemma AnswersToOk(size: nat)
    requires size > 2
    ensures Receive(Idle, [0x24, 0x4f, 0x4b, 0x23, 0x39, 0x61], size, false) == Run(Packet([0x4f, 0x4b]), [0x2b], [])
    ensures Receive(Idle, [0x24, 0x4f, 0x4b, 0x23, 0x39, 0x41], size, false) == Run(Packet([0x4f, 0x4b]), [0x2b], [])
    ensures Receive(Idle, [0x24, 0x4f, 0x4b, 0x23, 0x39, 0x62], size, false) == Run(Continue(Idle), [0x2d], [])
  {
    hide Receive, Body, Total;
    var p: seq<bv8> := [0x4f, 0x4b];
    BodyOfOk();
    forall low: bv8 ensures RawFrame(p, 0x39, low) + [] == [0x24, 0x4f, 0x4b, 0x23, 0x39, low] {
    }
    assert UnhexPair(0x39, 0x61) == 0x9a && UnhexPair(0x39, 0x41) == 0x9a && UnhexPair(0x39, 0x62) == 0x9b;
    FrameReceived(Idle, p, 0x39, 0x61, [], size, false);
    FrameReceived(Idle, p, 0x39, 0x41, [], size, false);
    FrameReceived(Idle, p, 0x39, 0x62, [], size, false);
    ReceiveNothing(Idle, size, false);
    assert [0x2d] + [] == [0x2d];
  }
}

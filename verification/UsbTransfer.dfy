/** Whole control transfers: a host that follows section 8.5.3 of the USB 2.0 specification
    coupled to the device of UsbControl. */
module UsbTransfer {
  import opened UsbControl

  // ---------- Reading: the data stage ----------

  /** Section 8.5.3.2: the host stops at a short packet, or once it has all it asked for. */
  predicate HostStops(packet: seq<byte>, received: seq<byte>, wLength: nat, z: Sizes) {
    |packet| < z.packet || |received| >= wLength
  }

  datatype HostView = Finished(received: seq<byte>, control: Control) | Starved(control: Control, actions: seq<Action>)

  /** The host takes `packet`, which the device has written, and asks on until it stops. */
  function ReadStage(c: Control, packet: seq<byte>, received: seq<byte>, z: Sizes): HostView
    requires z.packet > 0
    decreases |c.data|, c.needsZlp, c.phase == DATA_IN
  {
    var received := received + packet;
    if HostStops(packet, received, c.req.wLength, z) then Finished(received, c)
    else
      var r := In(c, z);
      if c.phase == DATA_IN then ReadStage(r.control, r.actions[0].packet, received, z)
      else Starved(r.control, r.actions)
  }

  /** Host and device in step: `reply` is the answer of the handlers, `packet` was just written,
      `received` is what the host had before it. */
  predicate InStep(c: Control, packet: seq<byte>, received: seq<byte>, reply: seq<byte>, z: Sizes)
    requires z.packet > 0
  {
    var r := received + packet;
    && |reply| <= c.req.wLength
    && r + c.data == reply
    && match c.phase
       case DATA_IN =>
         && |packet| == z.packet && Multiple(|r|, z.packet)
         && if c.data == [] then !c.needsZlp && NeedsZlp(|reply|, c.req.wLength, z.packet)
            else c.needsZlp == NeedsZlp(|reply|, c.req.wLength, z.packet)
       case LAST_DATA_IN =>
         && c.data == [] && !c.needsZlp && (|packet| < z.packet || |reply| == c.req.wLength)
       case _ => false
  }

  /** In step, the host stops at this packet if and only if the device considers it the last. */
  lemma StopTogether(c: Control, packet: seq<byte>, received: seq<byte>, reply: seq<byte>, z: Sizes)
    requires z.packet > 0 && InStep(c, packet, received, reply, z)
    ensures HostStops(packet, received + packet, c.req.wLength, z) <==> c.phase == LAST_DATA_IN
  {}

  lemma MulBounds(p: nat, k: int)
    ensures k <= 0 ==> p * k <= 0
    ensures k >= 2 ==> p * k >= 2 * p
  {}

  lemma MultipleAdd(a: nat, p: nat)
    requires p > 0 && Multiple(a, p)
    ensures Multiple(a + p, p)
  {
    var k := (a + p) / p - a / p;
    assert (a + p) % p == p - p * k;
    MulBounds(p, k);
  }

  lemma MultipleRest(a: nat, b: nat, p: nat)
    requires 0 < b <= p && Multiple(a, p) && Multiple(a + b, p)
    ensures b == p
  {
    var k := (a + b) / p - a / p;
    assert b == p * k;
    MulBounds(p, k);
  }

  /** The next packet keeps host and device in step. */
  lemma ChunkInStep(c: Control, packet: seq<byte>, received: seq<byte>, reply: seq<byte>, z: Sizes)
    requires z.packet > 0 && InStep(c, packet, received, reply, z) && c.phase == DATA_IN
    ensures var r := In(c, z);
      && |r.actions| == 1 && r.actions[0].Write?
      && InStep(r.control, r.actions[0].packet, received + packet, reply, z)
      && r.control.req == c.req && r.control.complete == c.complete && r.control.address == c.address
  {
    hide Multiple;
    var done := received + packet;
    if |c.data| > z.packet {
      assert done + c.data[..z.packet] + c.data[z.packet..] == done + c.data;
      MultipleAdd(|done|, z.packet);
    } else {
      assert done + c.data + [] == reply;
      if c.data != [] && c.needsZlp {
        MultipleRest(|done|, |c.data|, z.packet);
      }
      if |c.data| == z.packet {
        MultipleAdd(|done|, z.packet);
      }
    }
  }

  lemma {:induction false} ReadStageDelivers(c: Control, packet: seq<byte>, received: seq<byte>, reply: seq<byte>,
                                             z: Sizes)
    requires z.packet > 0 && InStep(c, packet, received, reply, z)
    ensures var view := ReadStage(c, packet, received, z);
      && view.Finished? && view.received == reply
      && view.control == c.(phase := LAST_DATA_IN, data := [], needsZlp := false)
    decreases |c.data|, c.needsZlp, c.phase == DATA_IN
  {
    hide Multiple;
    StopTogether(c, packet, received, reply, z);
    if c.phase == DATA_IN {
      var r := In(c, z);
      ChunkInStep(c, packet, received, reply, z);
      ReadStageDelivers(r.control, r.actions[0].packet, received + packet, reply, z);
    } else {
      assert received + packet + [] == received + packet;
    }
  }

  lemma FirstChunkInStep(c: Control, reply: seq<byte>, z: Sizes)
    requires z.packet > 0 && |reply| <= c.req.wLength && c.data == reply
    requires c.needsZlp == NeedsZlp(|reply|, c.req.wLength, z.packet)
    ensures var r := SendChunk(c, z.packet);
      && |r.actions| == 1 && r.actions[0].Write?
      && InStep(r.control, r.actions[0].packet, [], reply, z)
      && r.control.(phase := IDLE, data := [], needsZlp := false) == c.(phase := IDLE, data := [], needsZlp := false)
  {
    MultipleItself(z.packet);
    hide Multiple;
    if |reply| > z.packet {
      assert [] + reply[..z.packet] + reply[z.packet..] == reply;
      assert [] + reply[..z.packet] == reply[..z.packet];
    } else {
      assert [] + reply + [] == reply && [] + reply == reply;
      if c.needsZlp {
        MultipleRest(0, |reply|, z.packet);
      }
    }
  }

  lemma MultipleItself(p: nat)
    requires p > 0
    ensures Multiple(0, p) && Multiple(p, p)
  {}

  // ---------- Reading: the whole transfer ----------

  /** How a transfer ended: with the data the host has and what else happened, or stalled. */
  datatype Transfer =
    | Done(received: seq<byte>, control: Control, actions: seq<Action>)
    | Refused(control: Control, actions: seq<Action>)

  /** SETUP, the data stage, and the status stage in which the host sends an empty packet. */
  function ControlRead(c: Control, req: Request, answer: Answer, z: Sizes): Transfer
    requires z.packet > 0
    requires DeviceToHost(req) && req.wLength > 0
  {
    var r0 := Setup(c, req, answer, z);
    if answer.NotSupported? then Refused(r0.control, r0.actions)
    else
      match ReadStage(r0.control, r0.actions[0].packet, [], z)
      case Starved(c1, stalled) => Refused(c1, r0.actions + stalled)
      case Finished(received, c1) =>
        var r2 := In(c1, z);
        var r3 := Out(r2.control, [], NotSupported, z);
        Done(received, r3.control, r2.actions + r3.actions)
  }

  /** From whatever state a control read starts: the host receives exactly the answer, the
      device is idle afterwards, and a callback that was asked for came once. */
  lemma ControlReadDelivers(c: Control, req: Request, reply: seq<byte>, callback: bool, z: Sizes)
    requires z.packet > 0 && DeviceToHost(req)
    requires req.wLength > 0 && |reply| <= req.wLength
    ensures var t := ControlRead(c, req, Handled(reply, callback), z);
      && t.Done? && t.received == reply
      && t.control.phase == IDLE && t.control.address == c.address
      && t.actions == if callback then [Complete(req)] else []
  {
    hide Multiple, ReadStage;
    var c0 := c.(req := req, data := reply, complete := callback, needsZlp := NeedsZlp(|reply|, req.wLength, z.packet));
    var r0 := Setup(c, req, Handled(reply, callback), z);
    assert r0 == SendChunk(c0, z.packet);
    FirstChunkInStep(c0, reply, z);
    ReadStageDelivers(r0.control, r0.actions[0].packet, [], reply, z);
  }

  /** A control read that no handler takes is answered by a stall, and by nothing else. */
  lemma ControlReadRefused(c: Control, req: Request, z: Sizes)
    requires z.packet > 0 && DeviceToHost(req) && req.wLength > 0
    ensures var t := ControlRead(c, req, NotSupported, z);
      t.Refused? && t.actions == [Stall] && t.control.phase == IDLE && t.control.address == c.address
  {
    SetupRefused(c, req, z);
  }

  // ---------- Writing ----------

  /** The packets in which a host sends its data: full ones, and the rest. */
  function Split(payload: seq<byte>, packet: nat): seq<seq<byte>>
    requires packet > 0
  {
    if |payload| <= packet then [payload] else [payload[..packet]] + Split(payload[packet..], packet)
  }

  /** The data stage: the packets go out one after the other until the device stalls. */
  function WriteStage(c: Control, packets: seq<seq<byte>>, answer: Answer, z: Sizes): Result
    decreases |packets|
  {
    if packets == [] then Result(c, [])
    else
      var r := Out(c, packets[0], answer, z);
      if r.control.phase == IDLE then r
      else
        var rest := WriteStage(r.control, packets[1..], answer, z);
        Result(rest.control, r.actions + rest.actions)
  }

  /** SETUP, the data stage, and the status stage in which the host takes an empty packet. */
  function ControlWrite(c: Control, req: Request, payload: seq<byte>, answer: Answer, z: Sizes): Result
    requires z.packet > 0 && !DeviceToHost(req) && req.wLength > 0
  {
    var r0 := Setup(c, req, answer, z);
    if r0.control.phase == IDLE then r0
    else
      var r1 := WriteStage(r0.control, Split(payload, z.packet), answer, z);
      if r1.control.phase == IDLE then r1
      else
        var r2 := In(r1.control, z);
        Result(r2.control, r1.actions + r2.actions)
  }

  lemma {:induction false} WriteStageDelivers(c: Control, sent: seq<byte>, left: seq<byte>, answer: Answer, z: Sizes)
    requires z.packet > 0 && left != [] && c.data == sent && |sent| + |left| == c.req.wLength
    requires c.phase == (if |left| > z.packet then DATA_OUT else LAST_DATA_OUT)
    ensures WriteStage(c, Split(left, z.packet), answer, z) ==
      match answer
      case NotSupported => Result(c.(phase := IDLE, data := []), [Handle(sent + left), Stall])
      case Handled(data, callback) =>
        Result(c.(phase := STATUS_IN, data := [], complete := c.complete || callback), [Handle(sent + left), Write([])])
    decreases |left|
  {
    var packets := Split(left, z.packet);
    if |left| > z.packet {
      var first, rest := left[..z.packet], left[z.packet..];
      assert packets[0] == first && packets[1..] == Split(rest, z.packet);
      assert first[..z.packet] == first;
      var r := Out(c, first, answer, z);
      assert sent + first + rest == sent + left;
      WriteStageDelivers(r.control, sent + first, rest, answer, z);
      var tail := WriteStage(r.control, packets[1..], answer, z).actions;
      assert [] + tail == tail;
    } else {
      assert packets == [left] && packets[1..] == [] && left[..|left|] == left;
      var a := Out(c, left, answer, z).actions;
      assert a + [] == a;
    }
  }

  /** A control write that fits the buffer hands the handlers exactly what the host sent, once;
      afterwards the device is idle, and unless the request was refused the callback came and
      a new address is in force. */
  lemma ControlWriteDelivers(c: Control, req: Request, payload: seq<byte>, answer: Answer, z: Sizes)
    requires z.packet > 0 && !DeviceToHost(req)
    requires 0 < |payload| == req.wLength
    ensures var r := ControlWrite(c, req, payload, answer, z);
      && r.control.phase == IDLE
      && if req.wLength > z.buffer then r.actions == [Stall]
         else match answer
           case NotSupported => r.actions == [Handle(payload), Stall]
           case Handled(_, callback) =>
             r.actions == [Handle(payload), Write([])] + (if callback then [Complete(req)] else [])
                          + (if req.bmRequestType == 0 && req.bRequest == SET_ADDRESS
                              then [SetAddress(req.wValue)] else [])
  {
    if req.wLength <= z.buffer {
      var r0 := Setup(c, req, answer, z);
      WriteStageDelivers(r0.control, [], payload, answer, z);
      assert [] + payload == payload;
    }
  }

  /** A request without data: SETUP, then the status stage.  This is how SET_ADDRESS works: the
      address comes into force after the host has taken the status packet. */
  lemma ControlNoData(c: Control, req: Request, data: seq<byte>, callback: bool, z: Sizes)
    requires z.packet > 0 && req.wLength == 0
    ensures var r0 := Setup(c, req, Handled(data, callback), z);
      var r1 := In(r0.control, z);
      && r0.actions == [Write([])] && r0.control.address == c.address
      && r1.control.phase == IDLE
      && r1.actions == (if callback then [Complete(req)] else [])
           + (if req.bmRequestType == 0 && req.bRequest == SET_ADDRESS
                              then [SetAddress(req.wValue)] else [])
      && r1.control.address == (if req.bmRequestType == 0 && req.bRequest == SET_ADDRESS then req.wValue else c.address)
  {}
}

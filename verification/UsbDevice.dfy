/** The control endpoint as programmed in libopencm3/lib/usb/usb_control.c: fields, buffer
    pointers and lengths, proved to move as the machine of UsbControl. */
module UsbDevice {
  import opened Arithmetic
  import opened UsbControl

  /** What a request handler leaves behind: the pointer and length it put into control_state,
      and whether it registered a completion callback. */
  datatype Reply = Reply(handled: bool, buf: array<byte>, len: nat, callback: bool)

  lemma InvariantFacts(c: Control, z: Sizes)
    requires Invariant(c, z)
    ensures c.phase == IDLE || c.phase == STATUS_IN || c.phase == STATUS_OUT || c.phase == LAST_DATA_IN ==> c.data == []
  {}

  class Device {
    const maxPacket: nat
    const ctrlBuffer: array<byte>
    var phase: Phase
    var req: Request
    var buf: array<byte>
    var off: nat
    var len: nat
    var needsZlp: bool
    var complete: bool
    var address: uint16

    constructor (maxPacket: nat, size: nat)
      requires maxPacket > 0
      ensures Valid() && phase == IDLE && fresh(ctrlBuffer) && ctrlBuffer.Length == size && this.maxPacket == maxPacket
    {
      this.maxPacket := maxPacket;
      var b := new byte[size];
      ctrlBuffer, buf := b, b;
      phase, off, len, needsZlp, complete, address := IDLE, 0, 0, false, false, 0;
      req := Request(0, 0, 0, 0, 0);
    }

    function Limits(): Sizes
      reads this
    {
      Sizes(maxPacket, ctrlBuffer.Length)
    }

    /** ctrl_buf and ctrl_len: bytes to send from `off` on, or bytes received from 0 on. */
    ghost function Data(): seq<byte>
      reads this, buf
    {
      if (OutPhase(Shape()) || phase == DATA_IN) && off + len <= buf.Length then buf[off..off + len] else []
    }

    ghost function Shape(): Control
      reads this
    {
      Control(phase, req, [], needsZlp, complete, address)
    }

    ghost function Abstract(): Control
      reads this, buf
    {
      Shape().(data := Data())
    }

    ghost predicate Valid()
      reads this, buf, ctrlBuffer
    {
      && maxPacket > 0
      && Invariant(Abstract(), Limits())
      && (OutPhase(Shape()) ==> buf == ctrlBuffer && off == 0 && len <= buf.Length)
      && (phase == DATA_IN ==> off + len <= buf.Length)
    }

    method StallTransaction() returns (actions: seq<Action>)
      modifies this
      ensures Result(Abstract(), actions) == Stalled(old(Abstract()))
      ensures buf == old(buf)
    {
      phase := IDLE;
      actions := [Stall];
    }

    /** usb_control_send_chunk: `data` is what ctrl_buf and ctrl_len denote. */
    method SendChunk(ghost data: seq<byte>) returns (actions: seq<Action>)
      requires maxPacket > 0 && off + len <= buf.Length && data == buf[off..off + len]
      modifies this
      ensures buf == old(buf) && (phase == DATA_IN ==> off + len <= buf.Length)
      ensures phase == DATA_IN || phase == LAST_DATA_IN
      ensures Result(Abstract(), actions) == UsbControl.SendChunk(old(Shape()).(data := data), maxPacket)
    {
      if len > maxPacket {
        actions := [Write(buf[off..off + maxPacket])];
        assert buf[off..off + maxPacket] == data[..maxPacket];
        phase := DATA_IN;
        off := off + maxPacket;
        len := len - maxPacket;
        assert buf[off..off + len] == data[maxPacket..];
      } else {
        actions := [Write(buf[off..off + len])];
        phase := if needsZlp then DATA_IN else LAST_DATA_IN;
        needsZlp := false;
        len := 0;
        off := 0; // ctrl_buf = NULL
        assert Data() == [];
      }
    }

    /** usb_control_recv_chunk: negative when the packet is too short. */
    method RecvChunk(packet: seq<byte>) returns (size: int, actions: seq<Action>)
      requires Valid() && OutPhase(Shape())
      modifies this, ctrlBuffer
      ensures buf == old(buf) && req == old(req) && needsZlp == old(needsZlp) && complete == old(complete)
      ensures address == old(address)
      ensures var wanted := old(Wanted(Abstract(), Limits()));
        wanted >= 0 && if |packet| < wanted then size < 0 && Result(Abstract(), actions) == Stalled(old(Abstract()))
        else size == wanted && actions == [] && phase == old(phase) && off == 0 && len <= buf.Length
             && len == old(len) + wanted
             && buf[..len] == old(Abstract()).data + packet[..wanted]
    {
      ghost var data := Data();
      assert data == buf[..len];
      var packetSize := Min(maxPacket, req.wLength - len);
      var got := Min(packetSize, |packet|);
      forall i | 0 <= i < got {
        ctrlBuffer[len + i] := packet[i];
      }
      if got != packetSize {
        actions := StallTransaction();
        size := -1;
      } else {
        len := len + got;
        actions := [];
        size := packetSize;
        assert buf[..len] == data + packet[..got];
      }
    }

    method SetupRead(reply: Reply) returns (actions: seq<Action>)
      requires maxPacket > 0 && (reply.handled ==> reply.len <= reply.buf.Length)
      requires !complete
      modifies this
      ensures (phase == DATA_IN ==> off + len <= buf.Length) && !OutPhase(Shape())
      ensures buf == if reply.handled then reply.buf else ctrlBuffer
      ensures Result(Abstract(), actions)
           == UsbControl.SetupRead(old(Shape()),
              if reply.handled then Handled(reply.buf[..reply.len], reply.callback) else NotSupported, Limits())
    {
      buf, off, len := ctrlBuffer, 0, req.wLength;
      if reply.handled {
        buf, len, complete := reply.buf, reply.len, reply.callback;
        if req.wLength != 0 {
          needsZlp := NeedsZlp(len, req.wLength, maxPacket);
          assert buf[0..len] == buf[..len];
          actions := SendChunk(buf[..len]);
        } else {
          actions := [Write([])];
          phase := STATUS_IN;
        }
      } else {
        actions := StallTransaction();
      }
    }

    method SetupWrite() returns (actions: seq<Action>)
      requires maxPacket > 0
      modifies this
      ensures OutPhase(Shape()) ==> buf == ctrlBuffer && off == 0 && len == 0
      ensures phase != DATA_IN
      ensures Result(Abstract(), actions) == UsbControl.SetupWrite(old(Shape()), Limits())
    {
      if req.wLength > ctrlBuffer.Length {
        actions := StallTransaction();
        return;
      }
      buf, off, len := ctrlBuffer, 0, 0;
      phase := if req.wLength > maxPacket then DATA_OUT else LAST_DATA_OUT;
      assert Data() == [];
      actions := [];
    }

    /** _usbd_control_setup, with the request that arrived in the SETUP packet. */
    method ControlSetup(request: Request, reply: Reply) returns (actions: seq<Action>)
      requires Valid() && (reply.handled ==> reply.len <= reply.buf.Length)
      modifies this
      ensures Valid()
      ensures Result(Abstract(), actions)
           == Setup(old(Abstract()), request,
              if reply.handled then Handled(reply.buf[..reply.len], reply.callback) else NotSupported, Limits())
    {
      ghost var before := Abstract();
      ghost var answer := if reply.handled then Handled(reply.buf[..reply.len], reply.callback) else NotSupported;
      hide Invariant, NeedsZlp, UsbControl.SetupRead, UsbControl.SetupWrite, UsbControl.SendChunk;
      StepKeepsInvariant(before, SetupEvent(request, answer), Limits());
      SetupAlike(before, before.(data := []), request, answer, Limits());
      req := request;
      complete := false;
      if req.wLength == 0 || DeviceToHost(req) {
        actions := SetupRead(reply);
      } else {
        actions := SetupWrite();
      }
    }

    /** The case LAST_DATA_OUT: the last chunk, the handlers, and the status packet. */
    method LastDataOut(packet: seq<byte>, reply: Reply) returns (actions: seq<Action>)
      requires Valid() && phase == LAST_DATA_OUT
      modifies this, ctrlBuffer
      ensures buf == old(buf) && !OutPhase(Shape()) && phase != DATA_IN
      ensures Result(Abstract(), actions)
           == Out(old(Abstract()), packet,
              if reply.handled then Handled([], reply.callback) else NotSupported, Limits())
    {
      hide Invariant;
      var size;
      size, actions := RecvChunk(packet);
      if size >= 0 {
        actions := [Handle(buf[..len])];
        if reply.handled {
          complete := complete || reply.callback;
          actions := actions + [Write([])];
          phase := STATUS_IN;
        } else {
          var stall := StallTransaction();
          actions := actions + stall;
        }
      }
    }

    /** The case DATA_OUT. */
    method DataOut(packet: seq<byte>) returns (actions: seq<Action>)
      requires Valid() && phase == DATA_OUT
      modifies this, ctrlBuffer
      ensures buf == old(buf) && (OutPhase(Shape()) ==> off == 0 && len <= buf.Length) && phase != DATA_IN
      ensures Result(Abstract(), actions) == Out(old(Abstract()), packet, NotSupported, Limits())
    {
      hide Invariant;
      var size;
      size, actions := RecvChunk(packet);
      if size >= 0 {
        if req.wLength - len <= maxPacket {
          phase := LAST_DATA_OUT;
        }
        assert Data() == buf[..len];
      }
    }

    /** _usbd_control_out: the host has sent `packet`. */
    method ControlOut(packet: seq<byte>, reply: Reply) returns (actions: seq<Action>)
      requires Valid() && (reply.handled ==> reply.len <= reply.buf.Length)
      modifies this, ctrlBuffer
      ensures Valid()
      ensures Result(Abstract(), actions)
           == Out(old(Abstract()), packet,
              if reply.handled then Handled([], reply.callback) else NotSupported, Limits())
    {
      hide Invariant;
      ghost var before := Abstract();
      ghost var answer := if reply.handled then Handled([], reply.callback) else NotSupported;
      StepKeepsInvariant(before, OutEvent(packet, answer), Limits());
      match phase {
        case DATA_OUT =>
          actions := DataOut(packet);
        case LAST_DATA_OUT =>
          actions := LastDataOut(packet, reply);
        case STATUS_OUT =>
          InvariantFacts(before, Limits());
          phase := IDLE;
          actions := if complete then [Complete(req)] else [];
          complete := false;
        case _ =>
          actions := StallTransaction();
      }
    }

    /** _usbd_control_in: the host has taken the packet last written. */
    method ControlIn() returns (actions: seq<Action>)
      requires Valid()
      modifies this
      ensures Valid()
      ensures Result(Abstract(), actions) == In(old(Abstract()), Limits())
    {
      hide Invariant, Multiple;
      StepKeepsInvariant(Abstract(), InEvent, Limits());
      InvariantFacts(Abstract(), Limits());
      match phase {
        case DATA_IN =>
          actions := SendChunk(Data());
        case LAST_DATA_IN =>
          phase := STATUS_OUT;
          actions := [];
        case STATUS_IN =>
          actions := if complete then [Complete(req)] else [];
          if req.bmRequestType == 0 && req.bRequest == SET_ADDRESS {
            address := req.wValue;
            actions := actions + [SetAddress(req.wValue)];
          }
          phase := IDLE;
        case _ =>
          actions := StallTransaction();
      }
    }
  }

  // ---------- Request handlers ----------

  datatype Verdict = NOTSUPP | HANDLED | NEXT_CALLBACK

  /** A slot of user_control_callback; `act` is what the handler behind it decides. */
  datatype Slot = Empty | Handler(kind: bv8, mask: bv8, act: Request -> Verdict)

  predicate Matches(bmRequestType: byte, mask: bv8, kind: bv8) {
    (bmRequestType as bv8) & mask == kind
  }

  /** Its kind is the request's under its mask, and it does not pass the request on. */
  predicate Responsible(s: Slot, req: Request) {
    s.Handler? && (req.bmRequestType as bv8) & s.mask == s.kind && s.act(req) != NEXT_CALLBACK
  }

  lemma ResponsibleIs(s: Slot, req: Request)
    ensures Responsible(s, req) <==>
      s.Handler? && Matches(req.bmRequestType, s.mask, s.kind) && s.act(req) != NEXT_CALLBACK
  {
  }

  /** The decision of the first handler that is responsible. */
  function Decision(handlers: seq<Slot>, req: Request, others: Verdict): Verdict {
    if handlers == [] then others
    else if Responsible(handlers[0], req) then handlers[0].act(req)
    else Decision(handlers[1..], req, others)
  }

  /** The table of handlers: the slots in use are the first ones. */
  class Handlers {
    const slots: array<Slot>

    constructor ()
      ensures Valid() && Registered() == [] && fresh(slots) && slots.Length == 4
    {
      slots := new Slot[4](_ => Empty);
    }

    function Used(i: nat): nat
      requires i <= slots.Length
      reads slots
      decreases slots.Length - i
    {
      if i == slots.Length || slots[i].Empty? then i else Used(i + 1)
    }

    lemma UsedIsPrefix(i: nat)
      requires i <= slots.Length
      ensures i <= Used(i) <= slots.Length
      ensures forall k | i <= k < Used(i) :: !slots[k].Empty?
      ensures Used(i) < slots.Length ==> slots[Used(i)].Empty?
      decreases slots.Length - i
    {
      if i < slots.Length && !slots[i].Empty? {
        UsedIsPrefix(i + 1);
      }
    }

    /** Behind the first empty slot there is no handler. */
    ghost predicate Valid()
      reads this, slots
    {
      forall k, l | 0 <= k < l < slots.Length :: slots[k].Empty? ==> slots[l].Empty?
    }

    ghost function Registered(): seq<Slot>
      reads this, slots
    {
      UsedIsPrefix(0);
      slots[..Used(0)]
    }

    /** usbd_register_control_callback. */
    method Register(kind: bv8, mask: bv8, act: Request -> Verdict) returns (result: int)
      requires Valid()
      modifies slots
      ensures Valid()
      ensures result == if |old(Registered())| < slots.Length then 0 else -1
      ensures Registered() == old(Registered()) + if result == 0 then [Handler(kind, mask, act)] else []
    {
      UsedIsPrefix(0);
      ghost var before := Registered();
      for i := 0 to slots.Length
        invariant Valid() && slots[..] == old(slots[..])
        invariant forall k | 0 <= k < i :: !slots[k].Empty?
      {
        if slots[i].Empty? {
          assert Used(0) == i;
          assert forall k | i < k < slots.Length :: slots[k].Empty?;
          slots[i] := Handler(kind, mask, act);
          UsedIsPrefix(0);
          assert Used(0) > i;
          assert i + 1 < slots.Length ==> slots[i + 1].Empty?;
          assert Used(0) == i + 1 && slots[..i + 1] == slots[..i] + [slots[i]];
          assert slots[..i] == before;
          assert Registered() == before + [Handler(kind, mask, act)];
          return 0;
        }
      }
      return -1;
    }

    /** The loop of usb_control_request_dispatch: the first responsible handler among all that
        were registered decides; `others` is what the built-in handlers would say. */
    method Dispatch(req: Request, others: Verdict) returns (verdict: Verdict)
      requires Valid()
      ensures verdict == Decision(Registered(), req, others)
    {
      hide Matches, Responsible;
      UsedIsPrefix(0);
      ghost var r := Registered();
      for i := 0 to slots.Length
        invariant i <= |r|
        invariant Decision(r, req, others) == Decision(r[i..], req, others)
      {
        if slots[i].Empty? {
          assert r[i..] == [];
          return others;
        }
        assert slots[i] == r[i] == r[i..][0] && r[i..][1..] == r[i + 1..];
        ResponsibleIs(slots[i], req);
        if Matches(req.bmRequestType, slots[i].mask, slots[i].kind) {
          var result := slots[i].act(req);
          if result == HANDLED || result == NOTSUPP {
            return result;
          }
        }
      }
      assert r[slots.Length..] == [];
      return others;
    }
  }
}

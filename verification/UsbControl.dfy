/** Control transfers on endpoint 0, libopencm3/lib/usb/usb_control.c: the device side of
    section 8.5.3 of the USB 2.0 specification as a state machine over SETUP, IN and OUT. */
module UsbControl {
  import opened Arithmetic

  type byte = b: int | 0 <= b < 256 witness 0
  type uint16 = n: int | 0 <= n < 0x1_0000 witness 0

  const SET_ADDRESS: byte := 5

  datatype Request = Request(bmRequestType: byte, bRequest: byte, wValue: uint16, wIndex: uint16, wLength: uint16)

  /** bmRequestType & 0x80. */
  predicate DeviceToHost(req: Request) {
    req.bmRequestType >= 0x80
  }

  datatype Phase = IDLE | DATA_IN | LAST_DATA_IN | STATUS_IN | DATA_OUT | LAST_DATA_OUT | STATUS_OUT

  /** What the request handlers answer: data for the host (the bytes at ctrl_buf, ctrl_len of
      them) and whether they asked to be called back on completion. */
  datatype Answer = Handled(data: seq<byte>, callback: bool) | NotSupported

  /** control_state.  `data` are the bytes still to be sent in the IN phases, those received so
      far in the OUT phases, and empty otherwise.  `address` is the address last given to the driver. */
  datatype Control =
    Control(phase: Phase, req: Request, data: seq<byte>, needsZlp: bool, complete: bool, address: uint16)

  /** What the device does besides changing its state. */
  datatype Action =
    | Write(packet: seq<byte>)
    | Stall
    | Handle(received: seq<byte>)
    | Complete(req: Request)
    | SetAddress(address: uint16)

  datatype Result = Result(control: Control, actions: seq<Action>)

  /** Endpoint 0 packets hold `packet` bytes, the control buffer `buffer`. */
  datatype Sizes = Sizes(packet: nat, buffer: nat)

  predicate Multiple(n: nat, p: nat)
    requires p > 0
  {
    n % p == 0
  }

  /** A short answer whose length is a multiple of the packet size must end in an empty packet. */
  predicate NeedsZlp(len: nat, wLength: nat, packet: nat)
    requires packet > 0
  {
    len < wLength && len != 0 && Multiple(len, packet)
  }

  function Stalled(c: Control): Result {
    Result(c.(phase := IDLE, data := []), [Stall])
  }

  function SendChunk(c: Control, packet: nat): Result {
    if |c.data| > packet then
      Result(c.(phase := DATA_IN, data := c.data[packet..]), [Write(c.data[..packet])])
    else
      Result(c.(phase := if c.needsZlp then DATA_IN else LAST_DATA_IN, needsZlp := false, data := []), [Write(c.data)])
  }

  function SetupRead(c: Control, answer: Answer, z: Sizes): Result
    requires z.packet > 0
  {
    match answer
    case NotSupported => Stalled(c)
    case Handled(data, callback) =>
      if c.req.wLength != 0 then
        var needsZlp := NeedsZlp(|data|, c.req.wLength, z.packet);
        SendChunk(c.(data := data, complete := callback, needsZlp := needsZlp), z.packet)
      else
        Result(c.(phase := STATUS_IN, data := [], complete := callback), [Write([])])
  }

  function SetupWrite(c: Control, z: Sizes): Result {
    if c.req.wLength > z.buffer then Stalled(c)
    else Result(c.(phase := if c.req.wLength > z.packet then DATA_OUT else LAST_DATA_OUT, data := []), [])
  }

  /** A SETUP transaction; `answer` is what the handlers would say if they were asked. */
  function Setup(c: Control, req: Request, answer: Answer, z: Sizes): Result
    requires z.packet > 0
  {
    var c := c.(req := req, complete := false);
    if req.wLength == 0 || DeviceToHost(req) then SetupRead(c, answer, z) else SetupWrite(c, z)
  }

  /** How much of the next OUT packet is wanted. */
  function Wanted(c: Control, z: Sizes): int {
    Min(z.packet, c.req.wLength - |c.data|)
  }

  function Receive(c: Control, packet: seq<byte>, z: Sizes): Control
    requires 0 <= Wanted(c, z) <= |packet|
  {
    c.(data := c.data + packet[..Wanted(c, z)])
  }

  /** An OUT transaction that brought `packet`. */
  function Out(c: Control, packet: seq<byte>, answer: Answer, z: Sizes): Result {
    match c.phase
    case DATA_OUT =>
      if !(0 <= Wanted(c, z) <= |packet|) then Stalled(c)
      else
        var c' := Receive(c, packet, z);
        Result(if c.req.wLength - |c'.data| <= z.packet then c'.(phase := LAST_DATA_OUT) else c', [])
    case LAST_DATA_OUT =>
      if !(0 <= Wanted(c, z) <= |packet|) then Stalled(c)
      else
        var c' := Receive(c, packet, z);
        var asked := Handle(c'.data);
        (match answer
         case NotSupported => Result(c'.(phase := IDLE, data := []), [asked, Stall])
         case Handled(data, callback) =>
           Result(c'.(phase := STATUS_IN, data := [], complete := c.complete || callback), [asked, Write([])]))
    case STATUS_OUT =>
      Result(c.(phase := IDLE, complete := false), if c.complete then [Complete(c.req)] else [])
    case _ => Stalled(c)
  }

  /** An IN transaction: the host has taken the packet last written. */
  function In(c: Control, z: Sizes): Result {
    match c.phase
    case DATA_IN => SendChunk(c, z.packet)
    case LAST_DATA_IN => Result(c.(phase := STATUS_OUT), [])
    case STATUS_IN =>
      var called := if c.complete then [Complete(c.req)] else [];
      if c.req.bmRequestType == 0 && c.req.bRequest == SET_ADDRESS then
        Result(c.(phase := IDLE, address := c.req.wValue), called + [SetAddress(c.req.wValue)])
      else
        Result(c.(phase := IDLE), called)
    case _ => Stalled(c)
  }

  datatype Event = SetupEvent(req: Request, answer: Answer) | OutEvent(packet: seq<byte>, answer: Answer) | InEvent

  function Step(c: Control, e: Event, z: Sizes): Result
    requires z.packet > 0
  {
    match e
    case SetupEvent(req, answer) => Setup(c, req, answer, z)
    case OutEvent(packet, answer) => Out(c, packet, answer, z)
    case InEvent => In(c, z)
  }

  // ---------- Stalls ----------

  /** A SETUP whose request no handler takes, if it is to be asked at once: the device stalls. */
  lemma SetupRefused(c: Control, req: Request, z: Sizes)
    requires z.packet > 0 && (req.wLength == 0 || req.bmRequestType >= 0x80)
    ensures var r := Setup(c, req, NotSupported, z);
      r.actions == [Stall] && r.control.phase == IDLE && r.control.data == [] && r.control.address == c.address
  {
  }

  /** What makes the device stall: a request no handler takes, a control write larger than the
      buffer, a packet shorter than what is missing, and a token the phase does not expect. */
  predicate Stalls(c: Control, e: Event, z: Sizes) {
    match e
    case SetupEvent(req, answer) =>
      if req.wLength == 0 || req.bmRequestType >= 0x80 then answer.NotSupported? else req.wLength > z.buffer
    case OutEvent(packet, answer) =>
      if c.phase == DATA_OUT then |packet| < z.packet
      else if c.phase == LAST_DATA_OUT then |packet| < c.req.wLength - |c.data| || answer.NotSupported?
      else c.phase != STATUS_OUT
    case InEvent => c.phase != DATA_IN && c.phase != LAST_DATA_IN && c.phase != STATUS_IN
  }

  /** It stalls then and only then; after a stall it is idle, under the same address, and a stall
      is all it does unless the handlers were asked about received data first. */
  lemma StallsExactly(c: Control, e: Event, z: Sizes)
    requires z.packet > 0 && Invariant(c, z)
    ensures var r := Step(c, e, z);
      && (Stall in r.actions <==> Stalls(c, e, z))
      && (Stall in r.actions ==>
            && r.control.phase == IDLE && r.control.data == [] && r.control.address == c.address
            && if c.phase == LAST_DATA_OUT && e.OutEvent? && |e.packet| >= c.req.wLength - |c.data| then
                 |r.actions| == 2 && r.actions[0].Handle? && r.actions[1] == Stall
               else r.actions == [Stall])
  {
    match e
    case SetupEvent(_, _) => hide Invariant, NeedsZlp;
    case OutEvent(_, _) => hide DeviceToHost;
    case InEvent => hide Invariant;
  }

  // ---------- Every interleaving of events ----------

  /** What holds in every reachable state: while data is expected it fits the buffer, DATA_OUT
      means that more than one packet is to come and LAST_DATA_OUT that at most one is. */
  predicate Invariant(c: Control, z: Sizes) {
    && (c.phase == IDLE || c.phase == STATUS_IN || c.phase == STATUS_OUT || c.phase == LAST_DATA_IN ==> c.data == [])
    && (c.phase == DATA_OUT || c.phase == LAST_DATA_OUT ==>
          |c.data| <= c.req.wLength <= z.buffer && !DeviceToHost(c.req) && c.req.wLength > 0 && !c.complete)
    && (c.phase == DATA_OUT ==> c.req.wLength - |c.data| > z.packet)
    && (c.phase == LAST_DATA_OUT ==> 0 < c.req.wLength - |c.data| <= z.packet)
    && (c.phase == DATA_IN ==> c.data != [] || !c.needsZlp)
    && (c.phase == STATUS_OUT ==> DeviceToHost(c.req))
    && (c.phase == DATA_IN || c.phase == LAST_DATA_IN ==> DeviceToHost(c.req))
  }

  lemma SetupKeepsInvariant(c: Control, req: Request, answer: Answer, z: Sizes)
    requires z.packet > 0
    ensures Invariant(Setup(c, req, answer, z).control, z)
  {
  }

  lemma OutKeepsInvariant(c: Control, packet: seq<byte>, answer: Answer, z: Sizes)
    requires Invariant(c, z)
    ensures Invariant(Out(c, packet, answer, z).control, z)
  {
  }

  lemma StepKeepsInvariant(c: Control, e: Event, z: Sizes)
    requires z.packet > 0 && Invariant(c, z)
    ensures Invariant(Step(c, e, z).control, z)
  {
    hide Setup, Out;
    match e
    case SetupEvent(req, answer) => SetupKeepsInvariant(c, req, answer, z);
    case OutEvent(packet, answer) => OutKeepsInvariant(c, packet, answer, z);
    case InEvent =>
  }

  /** The OUT packets that arrived since the last SETUP, kept beside the machine. */
  datatype History = History(control: Control, heard: seq<seq<byte>>, actions: seq<Action>)

  function Observe(h: History, e: Event, z: Sizes): History
    requires z.packet > 0
  {
    var r := Step(h.control, e, z);
    History(r.control,
      match e
      case SetupEvent(_, _) => []
      case OutEvent(packet, _) => h.heard + [packet]
      case InEvent => h.heard,
      h.actions + r.actions)
  }

  function Run(h: History, events: seq<Event>, z: Sizes): History
    requires z.packet > 0
  {
    if events == [] then h else Observe(Run(h, events[..|events| - 1], z), events[|events| - 1], z)
  }

  /** What OUT packets amount to: of each the first max-packet bytes, wLength bytes in all. */
  function Assembled(heard: seq<seq<byte>>, wLength: nat, packet: nat): (s: seq<byte>)
    ensures |s| <= wLength
  {
    if heard == [] then []
    else
      var s := Assembled(heard[..|heard| - 1], wLength, packet);
      var p := heard[|heard| - 1];
      s + p[..Min(|p|, Min(packet, wLength - |s|))]
  }

  predicate OutPhase(c: Control) {
    c.phase == DATA_OUT || c.phase == LAST_DATA_OUT
  }

  /** The machine and what it heard agree. */
  predicate Agrees(h: History, z: Sizes) {
    && Invariant(h.control, z)
    && (OutPhase(h.control) ==> h.control.data == Assembled(h.heard, h.control.req.wLength, z.packet))
  }

  lemma AssembledAppend(heard: seq<seq<byte>>, p: seq<byte>, wLength: nat, packet: nat)
    ensures
      var s := Assembled(heard, wLength, packet);
      Assembled(heard + [p], wLength, packet) == s + p[..Min(|p|, Min(packet, wLength - |s|))]
  {
    assert (heard + [p])[..|heard|] == heard;
  }

  /** Received data moves from the wire to the buffer. */
  lemma OutCollects(c: Control, e: Event, z: Sizes)
    requires z.packet > 0 && Invariant(c, z) && OutPhase(Step(c, e, z).control)
    ensures e.OutEvent? ==>
      && OutPhase(c) && 0 <= Wanted(c, z) <= |e.packet|
      && Step(c, e, z).control.data == c.data + e.packet[..Wanted(c, z)]
      && Step(c, e, z).control.req == c.req
    ensures e.SetupEvent? ==> Step(c, e, z).control.data == []
    ensures !e.InEvent?
  {
    hide DeviceToHost;
  }

  lemma ObserveAgrees(h: History, e: Event, z: Sizes)
    requires z.packet > 0 && Agrees(h, z)
    ensures Agrees(Observe(h, e, z), z)
  {
    hide Step, Assembled, Invariant;
    StepKeepsInvariant(h.control, e, z);
    if OutPhase(Step(h.control, e, z).control) {
      OutCollects(h.control, e, z);
      if e.OutEvent? {
        AssembledAppend(h.heard, e.packet, h.control.req.wLength, z.packet);
      } else {
        NothingAssembled(Step(h.control, e, z).control.req.wLength, z.packet);
      }
    }
  }

  lemma NothingAssembled(wLength: nat, packet: nat)
    ensures Assembled([], wLength, packet) == []
  {
  }

  lemma {:induction false} RunAgrees(h: History, events: seq<Event>, z: Sizes)
    requires z.packet > 0 && Agrees(h, z)
    ensures Agrees(Run(h, events, z), z)
    decreases |events|
  {
    if events != [] {
      RunAgrees(h, events[..|events| - 1], z);
      ObserveAgrees(Run(h, events[..|events| - 1], z), events[|events| - 1], z);
    }
  }

  /** The handlers are asked about received data only in the last OUT of the data stage. */
  lemma HandlersAsked(c: Control, e: Event, z: Sizes, a: Action)
    requires z.packet > 0 && Invariant(c, z) && a in Step(c, e, z).actions && a.Handle?
    ensures e.OutEvent? && c.phase == LAST_DATA_OUT && 0 <= Wanted(c, z) <= |e.packet|
    ensures a.received == c.data + e.packet[..Wanted(c, z)]
    ensures |a.received| == c.req.wLength <= z.buffer
  {
    hide DeviceToHost;
  }

  /** Over every interleaving of SETUP, OUT and IN: when the handlers are asked about received
      data, they see exactly wLength bytes, namely those of the OUT packets since the SETUP. */
  lemma HandlersSeeWholeData(h: History, events: seq<Event>, e: Event, z: Sizes)
    requires z.packet > 0 && Agrees(h, z)
    ensures var before := Run(h, events, z);
      var after := Observe(before, e, z);
      forall a | a in Step(before.control, e, z).actions && a.Handle? ::
        && e.OutEvent?
        && |a.received| == before.control.req.wLength <= z.buffer
        && a.received == Assembled(after.heard, before.control.req.wLength, z.packet)
  {
    hide Step, Run, Assembled, Invariant;
    RunAgrees(h, events, z);
    var before := Run(h, events, z);
    forall a | a in Step(before.control, e, z).actions && a.Handle?
      ensures e.OutEvent? && |a.received| == before.control.req.wLength <= z.buffer
      ensures a.received == Assembled(Observe(before, e, z).heard, before.control.req.wLength, z.packet)
    {
      HandlersAsked(before.control, e, z, a);
      AssembledAppend(before.heard, e.packet, before.control.req.wLength, z.packet);
    }
  }

  /** Two states that no event will ever tell apart: needsZlp counts in the data stage only. */
  predicate Alike(c: Control, d: Control) {
    c.(needsZlp := d.needsZlp) == d && (c.phase == DATA_IN ==> c == d)
  }

  lemma SetupAlike(c: Control, d: Control, req: Request, answer: Answer, z: Sizes)
    requires z.packet > 0 && c.address == d.address
    ensures Alike(Setup(c, req, answer, z).control, Setup(d, req, answer, z).control)
    ensures Setup(c, req, answer, z).actions == Setup(d, req, answer, z).actions
    ensures c.needsZlp == d.needsZlp ==> Setup(c, req, answer, z) == Setup(d, req, answer, z)
  {
    hide NeedsZlp, DeviceToHost;
  }

  lemma OutAlike(c: Control, d: Control, packet: seq<byte>, answer: Answer, z: Sizes)
    requires Alike(c, d)
    ensures Alike(Out(c, packet, answer, z).control, Out(d, packet, answer, z).control)
    ensures Out(c, packet, answer, z).actions == Out(d, packet, answer, z).actions
  {
  }

  lemma InAlike(c: Control, d: Control, z: Sizes)
    requires Alike(c, d)
    ensures Alike(In(c, z).control, In(d, z).control) && In(c, z).actions == In(d, z).actions
  {
  }

  lemma StepAlike(c: Control, d: Control, e: Event, z: Sizes)
    requires z.packet > 0 && (Alike(c, d) || (e.SetupEvent? && c.address == d.address))
    ensures Alike(Step(c, e, z).control, Step(d, e, z).control) && Step(c, e, z).actions == Step(d, e, z).actions
  {
    hide Setup, Out, In;
    match e
    case SetupEvent(req, answer) => SetupAlike(c, d, req, answer, z);
    case OutEvent(packet, answer) => OutAlike(c, d, packet, answer, z);
    case InEvent => InAlike(c, d, z);
  }

  /** A SETUP starts afresh: whatever transfer it aborts, in whatever phase, all that the device
      does from then on is the same; only the address it has been given lives on. */
  lemma {:induction false} SetupStartsAfresh(h: History, g: History, events: seq<Event>, z: Sizes)
    requires z.packet > 0 && events != [] && events[0].SetupEvent?
    requires h.control.address == g.control.address && h.actions == g.actions
    ensures
      var a, b := Run(h, events, z), Run(g, events, z);
      Alike(a.control, b.control) && a.heard == b.heard && a.actions == b.actions
    decreases |events|
  {
    hide Step, Alike;
    var front, last := events[..|events| - 1], events[|events| - 1];
    if |events| > 1 {
      SetupStartsAfresh(h, g, front, z);
    }
    StepAlike(Run(h, front, z).control, Run(g, front, z).control, last, z);
  }

  /** The address changes in no other event than the end of the status stage of SET_ADDRESS. */
  lemma AddressOnlyAfterStatus(c: Control, e: Event, z: Sizes)
    requires z.packet > 0
    ensures var r := Step(c, e, z);
      r.control.address != c.address ==>
        && e.InEvent? && c.phase == STATUS_IN && c.req.bmRequestType == 0 && c.req.bRequest == 5
        && r.control.address == c.req.wValue && r.control.phase == IDLE
        && SetAddress(c.req.wValue) in r.actions
  {}
}

/** gdb_getpacket and consume_remote_packet of main/gdb_packet.c working on the caller's
    buffer, proved to behave as the receiver machine of GdbPacket. */
module GdbReceiver {
  import opened HexUtils
  import opened GdbPacket

  datatype PacketState = IDLE | GDB_CAPTURE | GDB_ESCAPE | GDB_CHECKSUM_UPPER | GDB_CHECKSUM_LOWER

  /** What the local variables of gdb_getpacket stand for. */
  function Meaning(state: PacketState, packet: seq<bv8>, offset: nat, checksum: Checksum, rx: bv8): State
    requires state == IDLE || offset <= |packet|
  {
    match state
    case IDLE => Idle
    case GDB_CAPTURE => Capture(packet[..offset], checksum)
    case GDB_ESCAPE => State.Escape(packet[..offset], checksum)
    case GDB_CHECKSUM_UPPER => Upper(packet[..offset], checksum)
    case GDB_CHECKSUM_LOWER => Lower(packet[..offset], checksum, rx)
  }

  /** What the rest of a run is, once the machine is where `verdict` says: finished with a
      packet, or to be continued on the rest of the input. */
  ghost function Rest(verdict: Verdict, input: seq<bv8>, size: nat, noack: bool): Run {
    match verdict
    case Packet(_) => Run(verdict, [], input)
    case Continue(s) => Receive(s, input, size, noack)
  }

  function AfterRemote(first: bv8, state: PacketState): Verdict {
    AfterIdle(first, if state == GDB_CAPTURE then Capture([], 0) else Idle)
  }

  lemma RestStep(s: State, input: seq<bv8>, size: nat, noack: bool)
    requires input != []
    ensures var reaction := React(s, input[0], size, noack);
      Receive(s, input, size, noack) == Prepend(reaction.replies, Rest(reaction.verdict, input[1..], size, noack))
  {
    hide React;
    var reaction := React(s, input[0], size, noack);
    assert reaction.replies + [] == reaction.replies;
  }

  /** consume_remote_packet: the loop that swallows a remote control packet.  `closed` is EOT,
      `capture` the start of a GDB packet; with neither the machine is idle again or, when
      `starved`, out of input.  Processing the packet itself is not modelled. */
  method ConsumeRemote(packet: array<bv8>, size: nat, input: seq<bv8>, noack: bool)
    returns (state: PacketState, used: nat, starved: bool)
    requires 0 < size < packet.Length
    requires packet[0] == REMOTE_SOM
    modifies packet
    ensures used <= |input| && (state == IDLE || state == GDB_CAPTURE)
    ensures var run := Receive(Remote(0, REMOTE_SOM), input, size, noack);
      if starved then used == |input| && run.verdict.Continue? && run.replies == []
      else run == Rest(AfterRemote(packet[0], state), input[used..], size, noack)
  {
    hide Receive;
    var offset := 0;
    used := 0;
    state := IDLE;
    while true
      invariant used <= |input| && offset <= size
      invariant packet[0] != EOT
      invariant Receive(Remote(0, REMOTE_SOM), input, size, noack)
             == Receive(Remote(offset, packet[0]), input[used..], size, noack)
      decreases |input| - used
    {
      if used == |input| {
        ReceiveNothing(Remote(offset, packet[0]), size, noack);
        return state, used, true;
      }
      var rx := input[used];
      RestStep(Remote(offset, packet[0]), input[used..], size, noack);
      assert forall r: Run :: Prepend([], r) == r;
      assert input[used..][1..] == input[used + 1..];
      used := used + 1;
      if rx == EOT {
        packet[0] := rx;
        return IDLE, used, false;
      } else if rx == REMOTE_SOM {
        offset := 0;
      } else if rx == REMOTE_EOM {
        packet[offset] := 0;
        packet[0] := 0;
        return IDLE, used, false;
      } else if rx == START {
        return GDB_CAPTURE, used, false;
      } else if offset < size {
        packet[offset] := rx;
        offset := offset + 1;
      } else {
        packet[0] := 0;
        return IDLE, used, false;
      }
    }
  }

  /** The cases GDB_CAPTURE and GDB_ESCAPE, with the overflow check behind the switch. */
  method CaptureCases(packet: array<bv8>, size: nat, noack: bool, c: bv8,
                      state: PacketState, offset: nat, checksum: Checksum, ghost rx: bv8)
    returns (state': PacketState, offset': nat, checksum': Checksum)
    requires state == GDB_CAPTURE || state == GDB_ESCAPE
    requires offset < size < packet.Length
    modifies packet
    ensures state' != IDLE ==> offset' < size
    ensures offset' <= size
    ensures React(old(Meaning(state, packet[..], offset, checksum, rx)), c, size, noack)
         == Reaction([], Continue(Meaning(state', packet[..], offset', checksum', rx)))
  {
    hide Add;
    ghost var got := packet[..offset];
    state', offset', checksum' := state, offset, checksum;
    if state == GDB_CAPTURE && c == START {
      offset', checksum' := 0, 0;
    } else if state == GDB_CAPTURE && c == END {
      state' := GDB_CHECKSUM_UPPER;
    } else {
      checksum' := Add(checksum, c);
      if state == GDB_CAPTURE && c == ESCAPE {
        state' := GDB_ESCAPE;
      } else {
        packet[offset] := if state == GDB_ESCAPE then c ^ ESCAPE_XOR else c;
        offset' := offset + 1;
        assert packet[..offset'] == got + [packet[offset]];
        state' := GDB_CAPTURE;
      }
    }
    if offset' >= size {
      state' := IDLE;
    }
  }

  /** The case GDB_CHECKSUM_LOWER: the answer, and whether the packet is complete. */
  method LowerCase(packet: array<bv8>, size: nat, noack: bool, c: bv8, offset: nat, checksum: Checksum, rx: bv8)
    returns (rx': bv8, replies: seq<bv8>, finished: bool)
    requires offset < size < packet.Length
    requires noack ==> rx == 0
    modifies packet
    ensures noack ==> rx' == 0
    ensures finished ==> packet[offset] == 0
    ensures React(old(Lower(packet[..offset], checksum, rx)), c, size, noack)
         == Reaction(replies, if finished then Packet(packet[..offset]) else Continue(Idle))
  {
    hide UnhexDigit;
    rx', replies, finished := rx, [], false;
    if !noack {
      rx' := rx | UnhexDigit(c);
      replies := [if rx' as int == checksum then ACK else NACK];
    }
    if noack || rx' as int == checksum {
      packet[offset] := 0;
      finished := true;
    }
  }

  /** The cases behind PACKET_IDLE; `finished` when the packet is complete. */
  method FrameCases(packet: array<bv8>, size: nat, noack: bool, c: bv8,
                    state: PacketState, offset: nat, checksum: Checksum, rx: bv8)
    returns (state': PacketState, offset': nat, checksum': Checksum, rx': bv8, answer: seq<bv8>, finished: bool)
    requires state != IDLE && offset < size < packet.Length && (noack ==> rx == 0)
    modifies packet
    ensures (noack ==> rx' == 0) && (state' != IDLE ==> offset' < size)
    ensures finished ==> offset' < packet.Length && packet[offset'] == 0
    ensures React(old(Meaning(state, packet[..], offset, checksum, rx)), c, size, noack)
         == Reaction(answer, if finished then Packet(packet[..offset'])
                             else Continue(Meaning(state', packet[..], offset', checksum', rx')))
  {
    hide React, UnhexDigit;
    state', offset', checksum', rx', answer, finished := state, offset, checksum, rx, [], false;
    if state == GDB_CAPTURE || state == GDB_ESCAPE {
      state', offset', checksum' := CaptureCases(packet, size, noack, c, state, offset, checksum, rx);
    } else if state == GDB_CHECKSUM_UPPER {
      UpperCase(packet[..offset], checksum, c, size, noack);
      if !noack {
        rx' := UnhexDigit(c) << 4;
      }
      state' := GDB_CHECKSUM_LOWER;
    } else {
      rx', answer, finished := LowerCase(packet, size, noack, c, offset, checksum, rx);
      state' := IDLE;
    }
  }

  lemma {:induction false} ReceiveAll(s: State, input: seq<bv8>, size: nat, noack: bool)
    ensures Receive(s, input, size, noack).verdict.Continue? ==> Receive(s, input, size, noack).rest == []
    decreases |input|
  {
    hide React;
    if input != [] {
      var v := React(s, input[0], size, noack).verdict;
      if v.Continue? {
        ReceiveAll(v.state, input[1..], size, noack);
      }
    }
  }

  lemma PrependTwice(a: seq<bv8>, b: seq<bv8>, run: Run)
    ensures Prepend(a, Prepend(b, run)) == Prepend(a + b, run)
    ensures Prepend([], run) == run
  {
    assert a + (b + run.replies) == a + b + run.replies;
    assert [] + run.replies == run.replies;
  }

  /** The case PACKET_IDLE: the character that may start a packet, a remote control packet, or end
      the connection. */
  method StartCases(packet: array<bv8>, size: nat, noack: bool, c: bv8, input: seq<bv8>)
    returns (state: PacketState, taken: nat, starved: bool, ended: bool)
    requires 0 < size < packet.Length
    modifies packet
    ensures taken <= |input| && (state == IDLE || state == GDB_CAPTURE) && React(Idle, c, size, noack).replies == []
    ensures var run := Rest(React(Idle, c, size, noack).verdict, input, size, noack);
      if starved then taken == |input| && run.verdict.Continue? && run.replies == []
      else if ended then run == Run(Packet(packet[..1]), [], input[taken..]) && packet[1] == 0
      else run == Receive(if state == GDB_CAPTURE then Capture([], 0) else Idle, input[taken..], size, noack)
  {
    hide Receive, React;
    IdleCase(c, size, noack);
    state, taken, starved, ended := IDLE, 0, false, false;
    assert input[0..] == input;
    packet[0] := c;
    if c == START {
      state := GDB_CAPTURE;
    } else if c == REMOTE_SOM {
      state, taken, starved := ConsumeRemote(packet, size, input, noack);
      if starved {
        return;
      }
    }
    if packet[0] == EOT || packet[0] == INTERRUPT {
      packet[1] := 0;
      ended := true;
    }
  }

  /** gdb_getpacket fed with `input`: `done` when a packet was returned, otherwise the input
      ran out first.  The buffer holds one byte more than `size`. */
  method GetPacket(packet: array<bv8>, size: nat, noack: bool, input: seq<bv8>)
    returns (done: bool, n: nat, replies: seq<bv8>, used: nat)
    requires 0 < size < packet.Length
    modifies packet
    ensures used <= |input|
    ensures var run := Receive(Idle, input, size, noack);
      && replies == run.replies && input[used..] == run.rest && done == run.verdict.Packet?
      && (done ==> n < packet.Length && packet[..n] == run.verdict.packet && packet[n] == 0)
  {
    hide Receive, React, UnhexDigit;
    ReceiveAll(Idle, input, size, noack);
    var state := IDLE;
    var offset: nat, checksum: Checksum, rx: bv8 := 0, 0, 0;
    done, n, replies, used := false, 0, [], 0;
    assert input[0..] == input;
    PrependTwice([], [], Receive(Idle, input, size, noack));
    while used < |input|
      invariant used <= |input|
      invariant state != IDLE ==> offset < size
      invariant noack ==> rx == 0
      invariant Receive(Idle, input, size, noack)
             == Prepend(replies, Receive(Meaning(state, packet[..], offset, checksum, rx), input[used..], size, noack))
    {
      var c := input[used];
      ghost var before := Meaning(state, packet[..], offset, checksum, rx);
      ghost var reaction := React(before, c, size, noack);
      RestStep(before, input[used..], size, noack);
      assert input[used..][1..] == input[used + 1..];
      PrependTwice(replies, reaction.replies, Rest(reaction.verdict, input[used + 1..], size, noack));
      used := used + 1;
      if state == IDLE {
        var taken, starved, ended;
        state, taken, starved, ended := StartCases(packet, size, noack, c, input[used..]);
        assert input[used..][taken..] == input[used + taken..];
        used := used + taken;
        offset, checksum := 0, 0;
        if starved {
          return;
        }
        if ended {
          return true, 1, replies, used;
        }
      } else {
        var answer, finished;
        state, offset, checksum, rx, answer, finished :=
          FrameCases(packet, size, noack, c, state, offset, checksum, rx);
        replies := replies + answer;
        if finished {
          return true, offset, replies, used;
        }
      }
    }
    ReceiveNothing(Meaning(state, packet[..], offset, checksum, rx), size, noack);
    assert input[used..] == [] && replies + [] == replies;
  }

  lemma UpperCase(got: seq<bv8>, sum: Checksum, c: bv8, size: nat, noack: bool)
    ensures React(Upper(got, sum), c, size, noack)
         == Reaction([], Continue(Lower(got, sum, if noack then 0 else UnhexDigit(c) << 4)))
  {}

  lemma IdleCase(c: bv8, size: nat, noack: bool)
    ensures React(Idle, c, size, noack) == Reaction([],
      if c == REMOTE_SOM then Continue(Remote(0, c)) else AfterIdle(c, if c == START then Capture([], 0) else Idle))
  {}
}

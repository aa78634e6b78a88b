/** The byte link of main/stm32flash/stm32.c to a bootloader: writes that may fail, and replies
    that may come late or behind noise. */
module Stm32Link {
  import opened Bootloader

  const ACK: byte := 0x79
  const NACK: byte := 0x1F
  const BUSY: byte := 0x76

  /** What one read of the port returns: a byte, a timeout with the seconds gone by so far, or
      another error. */
  datatype Reading = Got(b: byte) | Late(elapsed: nat) | Broken

  datatype Status = OK | UNKNOWN | REFUSED | NO_CMD

  datatype Answer = Answer(status: Status, rest: seq<Reading>)

  /** stm32_get_ack_timeout; `timeout` is 0 for a port without PORT_RETRY. */
  function Await(inbox: seq<Reading>, timeout: nat): Answer {
    if inbox == [] then Answer(UNKNOWN, [])
    else
      var rest := inbox[1..];
      match inbox[0]
      case Late(elapsed) => if timeout > 0 && elapsed < timeout then Await(rest, timeout) else Answer(UNKNOWN, rest)
      case Broken => Answer(UNKNOWN, rest)
      case Got(b) =>
        if b == ACK then Answer(OK, rest)
        else if b == NACK then Answer(REFUSED, rest)
        else if b == BUSY then Await(rest, timeout)
        else Answer(UNKNOWN, rest)
  }

  /** Readings the host waits through. */
  predicate Patient(r: Reading, timeout: nat) {
    r == Got(0x76) || (r.Late? && r.elapsed < timeout)
  }

  /** Whatever comes before the reply, as long as it is no acknowledge byte (0x79) itself: the host
      sees an ACK exactly if the device sent it and all before it was waited through.  A refusal
      (0x1F) is told apart. */
  lemma {:induction false} AwaitReply(noise: seq<Reading>, b: byte, timeout: nat)
    requires Got(0x79) !in noise
    ensures Await(noise + [Got(b)], timeout).status == OK
      <==> b == 0x79 && forall i | 0 <= i < |noise| :: Patient(noise[i], timeout)
    ensures Await(noise + [Got(b)], timeout).status == OK ==> Await(noise + [Got(b)], timeout).rest == []
    ensures b == 0x1F && (forall i | 0 <= i < |noise| :: Patient(noise[i], timeout)) ==>
      Await(noise + [Got(b)], timeout).status == REFUSED
  {
    var inbox := noise + [Got(b)];
    if noise != [] {
      assert inbox[1..] == noise[1..] + [Got(b)];
      assert noise[0] in noise && forall r | r in noise[1..] :: r in noise;
      AwaitReply(noise[1..], b, timeout);
      assert forall i | 1 <= i < |noise| :: noise[i] == noise[1..][i - 1];
    } else {
      assert inbox[1..] == [];
    }
  }

  /** One more byte of a frame, taken into the checksum. */
  method PutByte(buf: array<byte>, at: nat, b: byte, cs: byte) returns (cs': byte)
    requires at < buf.Length && cs == Checksum(buf[..at])
    modifies buf
    ensures buf[..at + 1] == old(buf[..at]) + [b] && cs' == Checksum(buf[..at + 1])
  {
    hide Checksum, Xor;
    cs' := Xor(cs, b);
    buf[at] := b;
    ChecksumAppend(buf[..at], b);
    assert buf[..at + 1] == buf[..at] + [b];
  }

  class Port {
    var device: Device
    const setup: Setup
    var inbox: seq<Reading>
    // Every run is some pattern of noise and failing writes, indexed by the frames so far.
    var clock: nat
    const noise: nat -> seq<Reading>
    const writeFails: nat -> bool
    const retry: bool

    constructor (device: Device, setup: Setup, noise: nat -> seq<Reading>, writeFails: nat -> bool, retry: bool)
      requires SetupValid(setup) && forall k :: Got(ACK) !in noise(k)
      ensures Valid() && this.device == device && this.setup == setup && inbox == []
    {
      this.device, this.setup, this.noise, this.writeFails, this.retry := device, setup, noise, writeFails, retry;
      inbox, clock := [], 0;
    }

    ghost predicate Valid()
      reads this
    {
      SetupValid(setup) && forall k :: Got(ACK) !in noise(k)
    }

    /** No write fails, and all that ever comes before a reply is the busy byte. */
    ghost predicate Calm()
      reads this
    {
      forall k :: !writeFails(k) && forall i | 0 <= i < |noise(k)| :: noise(k)[i] == Got(BUSY)
    }

    /** A frame reaches the device as a whole, or not at all. */
    method Write(f: seq<byte>) returns (ok: bool)
      modifies `device, `inbox, `clock
      ensures ok == !writeFails(old(clock)) && clock == old(clock) + 1
      ensures !ok ==> device == old(device) && inbox == old(inbox)
      ensures ok ==>
        var r := React(setup, old(device), f);
        device == r.device && inbox == old(inbox) + noise(old(clock)) + [Got(if r.ack then 0x79 else 0x1F)]
    {
      hide React;
      ok := !writeFails(clock);
      if ok {
        var r := React(setup, device, f);
        device := r.device;
        inbox := inbox + noise(clock) + [Got(if r.ack then ACK else NACK)];
      }
      clock := clock + 1;
    }

    method Read() returns (r: Reading)
      requires inbox != []
      modifies `inbox
      ensures r == old(inbox)[0] && inbox == old(inbox)[1..]
    {
      r := inbox[0];
      inbox := inbox[1..];
    }

    method GetAckTimeout(seconds: nat) returns (r: Status)
      modifies `inbox
      ensures Answer(r, inbox) == Await(old(inbox), if retry then seconds else 0)
    {
      var timeout := if retry then seconds else 0;
      while inbox != []
        invariant Await(inbox, timeout) == Await(old(inbox), timeout)
        decreases |inbox|
      {
        var reading := Read();
        match reading {
          case Late(elapsed) => {
            if !(timeout > 0 && elapsed < timeout) {
              return UNKNOWN;
            }
          }
          case Broken => {
            return UNKNOWN;
          }
          case Got(b) => {
            if b == ACK {
              return OK;
            }
            if b == NACK {
              return REFUSED;
            }
            if b != BUSY {
              return UNKNOWN;
            }
          }
        }
      }
      r := UNKNOWN;
    }

    /** A frame and its acknowledge. */
    method Exchange(f: seq<byte>, seconds: nat) returns (r: Status)
      requires Valid() && inbox == []
      modifies `device, `inbox, `clock
      ensures device == old(device) || device == React(setup, old(device), f).device
      ensures r == OK ==> React(setup, old(device), f) == Reaction(device, true) && inbox == []
      ensures Calm() && React(setup, old(device), f).ack ==> r == OK
    {
      hide React, Await;
      ghost var k := clock;
      var ok := Write(f);
      if !ok {
        return UNKNOWN;
      }
      assert inbox == noise(k) + [Got(if React(setup, old(device), f).ack then ACK else NACK)];
      AwaitReply(noise(k), if React(setup, old(device), f).ack then ACK else NACK, if retry then seconds else 0);
      r := GetAckTimeout(seconds);
    }

    /** stm32_send_command_timeout. */
    method SendCommand(cmd: byte, seconds: nat) returns (r: Status)
      requires Valid() && inbox == []
      modifies `device, `inbox, `clock
      ensures device == old(device) || device == React(setup, old(device), [cmd, Xor(cmd, 0xFF)]).device
      ensures r == OK ==> React(setup, old(device), [cmd, Xor(cmd, 0xFF)]) == Reaction(device, true) && inbox == []
      ensures Calm() && React(setup, old(device), [cmd, Xor(cmd, 0xFF)]).ack ==> r == OK
      ensures r == OK || r == UNKNOWN
    {
      hide React;
      var buf := [cmd, Xor(cmd, 0xFF)];
      r := Exchange(buf, seconds);
      if r != OK {
        r := UNKNOWN;
      }
    }
  }
}

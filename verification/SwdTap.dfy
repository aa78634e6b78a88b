/** The serial wire port of main/swdptap.c: its clocked loops over the pins SWCLK and SWDIO. */
module SwdTap {
  import opened Swd
  import opened WordBits

  datatype Direction = FLOAT | DRIVE

  /** The two wires as the probe drives them.  `trace` records the level of SWDIO at every
      rising edge of SWCLK; while the probe floats the line, the level before rising edge k
      is peer(k), what the other side presents. */
  class Wires {
    const peer: nat -> bool
    var clk: bool
    var pin: bool
    var olddir: Direction
    var trace: seq<bool>

    constructor (peer: nat -> bool)
      ensures this.peer == peer && !clk && olddir == FLOAT && trace == []
    {
      this.peer := peer;
      clk, pin, olddir, trace := false, false, FLOAT, [];
    }

    function Level(): bool
      reads this
    {
      if olddir == DRIVE then pin else peer(|trace|)
    }

    /** gpio_set of SWCLK while the direction is `dir`. */
    method SetClk(dir: Direction)
      modifies `clk, `trace
      ensures clk
      ensures trace == if old(clk) then old(trace)
                       else old(trace) + [if dir == DRIVE then pin else peer(|old(trace)|)]
    {
      if !clk {
        trace := trace + [if dir == DRIVE then pin else peer(|trace|)];
      }
      clk := true;
    }

    /** What swdptap_turnaround adds to the trace: one cycle in which nobody drives, unless the
        direction stays, or the clock was left high by a previous turnaround. */
    function Turn(dir: Direction): (t: seq<bool>)
      reads this
    {
      if dir == olddir then []
      else if dir == DRIVE then [peer(|trace|)]
      else if clk then [] else [peer(|trace|)]
    }

    /** swdptap_turnaround. */
    method Turnaround(dir: Direction)
      modifies this
      ensures olddir == dir && pin == old(pin)
      ensures trace == old(trace) + old(Turn(dir))
      ensures dir == old(olddir) ==> clk == old(clk)
      ensures dir != old(olddir) ==> clk
    {
      if dir == olddir {
        return;
      }
      olddir := dir;
      if dir == DRIVE {
        clk := false;
      }
      SetClk(FLOAT);
    }

    /** swdptap_seq_out; the variants with and without delay make the same edges. */
    method SeqOut(states: nat, cycles: nat)
      requires states < WORD && cycles <= 32
      modifies this
      ensures olddir == DRIVE && !clk
      ensures trace == old(trace) + old(Turn(DRIVE)) + ToBits(states, cycles)
    {
      hide ToBits;
      Turnaround(DRIVE);
      ghost var start, bits := trace, ToBits(states, cycles);
      assert start + bits[..0] == start;
      for cycle := 0 to cycles
        invariant olddir == DRIVE
        invariant trace == start + bits[..cycle]
      {
        clk := false;
        ToBitsAt(states, cycles, cycle);
        pin := Bit(states, cycle);
        SetClk(DRIVE);
        assert bits[..cycle] + [bits[cycle]] == bits[..cycle + 1];
      }
      assert bits[..cycles] == bits;
      clk := false;
    }

    /** swdptap_seq_out_parity. */
    method SeqOutParity(states: nat, cycles: nat)
      requires states < WORD && cycles <= 32
      modifies this
      ensures olddir == DRIVE && !clk
      ensures trace == old(trace) + old(Turn(DRIVE)) + Sent(states, cycles)
    {
      hide ToBits;
      var parity := Ones(ToBits(states, 32));
      SeqOut(states, cycles);
      pin := parity % 2 == 1;
      SetClk(DRIVE);
      clk := false;
    }

    /** The levels the other side presents for n cycles from rising edge k on. */
    function Presented(k: nat, n: nat): (s: seq<bool>)
      ensures |s| == n
    {
      seq(n, i requires 0 <= i < n => peer(k + i))
    }

    /** swdptap_seq_in. */
    method SeqIn(cycles: nat) returns (value: nat)
      requires cycles <= 32
      modifies this
      ensures olddir == FLOAT && !clk
      ensures var first := |old(trace)| + |old(Turn(FLOAT))|;
        && trace == old(trace) + old(Turn(FLOAT)) + Presented(first, cycles)
        && value == FromBits(Presented(first, cycles))
      ensures value < Pow2(cycles)
    {
      hide FromBits, Pow2;
      Turnaround(FLOAT);
      value := 0;
      ghost var start, levels := trace, Presented(|trace|, cycles);
      FromNothing();
      assert start + levels[..0] == start && levels[..0] == [];
      for cycle := 0 to cycles
        invariant olddir == FLOAT
        invariant trace == start + levels[..cycle]
        invariant value == FromBits(levels[..cycle])
      {
        clk := false;
        // value |= 1U << cycle, a bit that is still clear
        FromBitsSnoc(levels[..cycle], levels[cycle]);
        value := value + if Level() then Pow2(cycle) else 0;
        SetClk(FLOAT);
        assert levels[..cycle] + [levels[cycle]] == levels[..cycle + 1];
      }
      assert levels[..cycles] == levels;
      FromBitsSnoc(levels, false);
      clk := false;
    }

    /** swdptap_seq_in_parity: the value, and whether the parity is wrong. */
    method SeqInParity(cycles: nat) returns (error: bool, value: nat)
      requires cycles <= 32
      modifies this
      ensures olddir == DRIVE && clk
      ensures var first := |old(trace)| + |old(Turn(FLOAT))|;
        var line := Presented(first, cycles + 1);
        && value == Value(line) && error == ParityError(line)
        && |trace| == first + cycles + 2 && trace[..first + cycles + 1] == old(trace) + old(Turn(FLOAT)) + line
    {
      hide FromBits, Pow2, ToBits;
      ghost var first := |trace| + |Turn(FLOAT)|;
      ghost var line := Presented(first, cycles + 1);
      value := SeqIn(cycles);
      assert line[..cycles] == Presented(first, cycles);
      ReadBits(line[..cycles]);
      var parity := Ones(ToBits(value, 32));
      PopulationCount(line[..cycles], 32);
      parity := parity + if Level() then 1 else 0;
      SetClk(FLOAT);
      assert line == line[..cycles] + [line[cycles]];
      ghost var before := trace;
      Turnaround(DRIVE);
      error := parity % 2 == 1;
      assert trace[..first + cycles + 1] == before;
    }
  }

  lemma FromNothing()
    ensures FromBits([]) == 0
  {}

  lemma {:induction false} ReadBits(s: seq<bool>)
    ensures ToBits(FromBits(s), |s|) == s && High(FromBits(s), |s|) == 0
    decreases |s|
  {
    if s != [] {
      ReadBits(s[1..]);
      assert FromBits(s) / 2 == FromBits(s[1..]);
    }
  }

  /** The population count of a word that was read is the number of high levels. */
  lemma PopulationCount(s: seq<bool>, n: nat)
    requires |s| <= n
    ensures Ones(ToBits(FromBits(s), n)) == Ones(s)
  {
    hide Ones, ToBits, FromBits, High;
    ReadBits(s);
    ToBitsSplit(FromBits(s), |s|, n - |s|);
    OnesConcat(s, ToBits(0, n - |s|));
    ZeroHasNoOnes(n - |s|);
  }

  /** A word sent by one port and presented, level by level, to another one is read back. */
  method Exchange(sender: Wires, receiver: Wires, v: nat, n: nat) returns (error: bool, value: nat)
    requires sender != receiver && v < WORD && n <= 32
    requires forall k :: 0 <= k <= n ==> receiver.peer(|receiver.trace| + |receiver.Turn(FLOAT)| + k) == Sent(v, n)[k]
    modifies sender, receiver
    ensures value == Low(v, n)
    ensures error == Odd(Ones(ToBits(High(v, n), 32 - n)))
    ensures v < Pow2(n) ==> value == v && !error
    ensures sender.trace == old(sender.trace) + old(sender.Turn(DRIVE)) + Sent(v, n)
  {
    hide Sent, Ones, ToBits, Value, ParityError, Low, High, Pow2;
    ghost var first := |receiver.trace| + |receiver.Turn(FLOAT)|;
    assert receiver.Presented(first, n + 1) == Sent(v, n);
    LoopBack(v, n);
    sender.SeqOutParity(v, n);
    error, value := receiver.SeqInParity(n);
  }
}

/** The bit-banging of main/jtagtap.c: loops over pins, in a variant that waits after every
    edge and one that does not.  Both are proved to clock the TAP of module Jtag alike. */
module JtagTap {
  import opened Jtag

  // ---------- Bits of a byte buffer, least significant first ----------

  /** 1U << bit. */
  function Mask(bit: nat): bv8
    requires bit < 8
  {
    match bit
    case 0 => 0x01 case 1 => 0x02 case 2 => 0x04 case 3 => 0x08
    case 4 => 0x10 case 5 => 0x20 case 6 => 0x40 case _ => 0x80
  }

  predicate Meets(v: bv8, mask: bv8) {
    v & mask != 0
  }

  predicate Bit(v: bv8, bit: nat)
    requires bit < 8
  {
    Meets(v, Mask(bit))
  }

  function Bits(data: seq<bv8>, n: nat): (s: seq<bool>)
    requires n <= 8 * |data|
    ensures |s| == n
  {
    seq(n, k requires 0 <= k < n => Bit(data[k / 8], k % 8))
  }

  lemma ZeroBits()
    ensures forall b: nat | b < 8 :: !Bit(0, b)
  {}

  /** The byte after a sample for one of its bits was taken: a high level sets the bit. */
  function Sampled(v: bv8, bit: nat, level: bool): bv8
    requires bit < 8
  {
    if level then v | Mask(bit) else v
  }

  lemma SampledBits(v: bv8, bit: nat, level: bool)
    requires bit < 8
    ensures forall b: nat | b < 8 :: Bit(Sampled(v, bit, level), b) == (Bit(v, b) || (b == bit && level))
  {
    forall b: nat | b < 8 ensures Bit(Sampled(v, bit, level), b) == (Bit(v, b) || (b == bit && level)) {
      SampledBit(v, bit, b);
    }
  }

  lemma SampledBit(v: bv8, bit: nat, b: nat)
    requires bit < 8 && b < 8
    ensures Bit(v | Mask(bit), b) == (b == bit || Bit(v, b))
  {
    hide Mask, Meets;
    MasksDisjoint(bit, b);
    MasksDisjoint(b, bit);
    OrBit(v, Mask(bit), Mask(b));
  }

  lemma OrBit(v: bv8, m: bv8, k: bv8)
    requires m == k || m & k == 0
    requires k != 0
    ensures Meets(v | m, k) == (m == k || Meets(v, k))
  {}

  lemma MasksDisjoint(i: nat, j: nat)
    requires i < 8 && j < 8
    ensures Mask(i) != 0
    ensures if i == j then Mask(i) == Mask(j) else Mask(i) != Mask(j) && Mask(i) & Mask(j) == 0
  {}

  // ---------- Collecting samples into bytes ----------

  /** The samples taken so far: whole bytes in the buffer, the rest in `value`. */
  ghost predicate Collected(out: seq<bv8>, value: bv8, samples: seq<bool>) {
    var n := |samples| / 8 * 8;
    && n <= 8 * |out|
    && (forall k :: 0 <= k < n ==> Bit(out[k / 8], k % 8) == samples[k])
    && (forall b: nat | b < 8 :: Bit(value, b) == (n + b < |samples| && samples[n + b]))
  }

  lemma CollectBit(out: seq<bv8>, value: bv8, samples: seq<bool>, level: bool)
    requires Collected(out, value, samples) && |samples| % 8 != 7
    ensures Collected(out, Sampled(value, |samples| % 8, level), samples + [level])
  {
    hide Bit, Mask, Sampled;
    SampledBits(value, |samples| % 8, level);
    assert (|samples| + 1) / 8 == |samples| / 8;
  }

  lemma CollectByte(out: seq<bv8>, value: bv8, samples: seq<bool>, level: bool)
    requires Collected(out, value, samples) && |samples| % 8 == 7 && |samples| < 8 * |out|
    ensures Collected(out[|samples| / 8 := Sampled(value, 7, level)], 0, samples + [level])
  {
    hide Bit, Mask, Sampled;
    SampledBits(value, 7, level);
    ZeroBits();
    assert (|samples| + 1) / 8 == |samples| / 8 + 1;
  }

  lemma CollectNothing(out: seq<bv8>)
    ensures Collected(out, 0, [])
  {
    ZeroBits();
  }

  /** The end of the loop: the incomplete byte, if any, is stored with zeros above the samples. */
  lemma CollectEnd(out: seq<bv8>, value: bv8, samples: seq<bool>)
    requires Collected(out, value, samples) && |samples| <= 8 * |out|
    ensures var n := |samples|;
      var stored := if n % 8 != 0 then out[(n - 1) / 8 := value] else out;
      && Bits(stored, n) == samples
      && (forall b | n % 8 != 0 && n % 8 <= b < 8 :: !Bit(stored[n / 8], b))
  {
    hide Bit, Mask;
    var n := |samples|;
    assert n % 8 != 0 ==> (n - 1) / 8 == n / 8;
  }

  /** The middle of the loops: a sample enters `value`, and every eighth one completes a byte. */
  method TakeSample(dataOut: array<bv8>, cycle: nat, value: bv8, level: bool, ghost samples: seq<bool>)
    returns (value': bv8)
    requires |samples| == cycle < 8 * dataOut.Length && Collected(dataOut[..], value, samples)
    modifies dataOut
    ensures Collected(dataOut[..], value', samples + [level])
    ensures forall j | (cycle + 1) / 8 <= j < dataOut.Length :: dataOut[j] == old(dataOut[j])
  {
    hide Collected, Sampled;
    var bit, byte := cycle % 8, cycle / 8;
    ghost var out := dataOut[..];
    value' := Sampled(value, bit, level);
    if bit == 7 {
      CollectByte(out, value, samples, level);
      dataOut[byte] := value';
      assert dataOut[..] == out[byte := value'];
      value' := 0;
      assert (cycle + 1) / 8 == byte + 1;
    } else {
      CollectBit(out, value, samples, level);
    }
  }

  /** The end of the loops: an incomplete byte is stored with zeros above the samples. */
  method StoreRest(dataOut: array<bv8>, cycles: nat, value: bv8, ghost samples: seq<bool>)
    requires |samples| == cycles <= 8 * dataOut.Length && Collected(dataOut[..], value, samples)
    modifies dataOut
    ensures Bits(dataOut[..], cycles) == samples
    ensures forall b | cycles % 8 != 0 && cycles % 8 <= b < 8 :: !Bit(dataOut[cycles / 8], b)
    ensures forall j | (cycles + 7) / 8 <= j < dataOut.Length :: dataOut[j] == old(dataOut[j])
  {
    hide Collected, Bit, Mask;
    CollectEnd(dataOut[..], value, samples);
    if cycles % 8 != 0 {
      ghost var out := dataOut[..];
      dataOut[(cycles - 1) / 8] := value;
      assert dataOut[..] == out[(cycles - 1) / 8 := value];
      assert (cycles + 7) / 8 == cycles / 8 + 1 && (cycles - 1) / 8 == cycles / 8;
    }
  }

  // ---------- TMS sequences ----------

  function TmsBits(states: bv32, n: nat): (s: seq<bool>)
    ensures |s| == n
    decreases n
  {
    if n == 0 then [] else [states & 1 != 0] + TmsBits(states >> 1, n - 1)
  }

  lemma {:induction false} NoTmsBits(n: nat)
    ensures TmsBits(0, n) == Repeat(false, n)
  {
    if n > 0 {
      NoTmsBits(n - 1);
    }
  }

  lemma ReturnTmsBits(n: nat)
    ensures TmsBits(1, n) == ReturnTms(n)
  {
    if n > 0 {
      NoTmsBits(n - 1);
      assert (1 as bv32) >> 1 == 0;
    }
  }

  lemma ShiftDRTmsBits()
    ensures TmsBits(1, 3) == [true, false, false]
  {
    ReturnTmsBits(3);
  }

  lemma SoftResetTmsBits()
    ensures TmsBits(0x1f, 6) == [true, true, true, true, true, false]
  {
    var b: bv32 := 0x1f;
    assert b >> 1 == 0xf && b >> 1 >> 1 == 0x7 && b >> 1 >> 1 >> 1 == 0x3;
    assert TmsBits(0x1f, 6) == [true] + TmsBits(0xf, 5);
    assert TmsBits(0xf, 5) == [true] + TmsBits(0x7, 4);
    assert TmsBits(0x7, 4) == [true] + TmsBits(0x3, 3);
    assert TmsBits(0x3, 3) == [true] + TmsBits(0x1, 2);
    ReturnTmsBits(2);
  }

  // ---------- The adapter ----------

  /** The pins of the probe and the TAP wired to them. */
  class Adapter {
    var tck: bool
    var tms: bool
    var tdi: bool
    var tap: Tap

    method SetTck()
      modifies `tck, `tap
      ensures tck && tap == if old(tck) then old(tap) else Rising(old(tap), tms, tdi)
    {
      if !tck {
        tap := Rising(tap, tms, tdi);
      }
      tck := true;
    }

    method ClearTck()
      modifies `tck, `tap
      ensures !tck && tap == if old(tck) then Falling(old(tap)) else old(tap)
    {
      if tck {
        tap := Falling(tap);
      }
      tck := false;
    }

    method TmsSeqClkDelay(states: bv32, cycles: nat)
      requires !tck
      modifies this
      ensures !tck && tdi == old(tdi)
      ensures tap == Clocks(old(tap), TmsBits(states, cycles), Repeat(tdi, cycles))
    {
      hide Clocks, Samples, Rising, Falling, Repeat;
      ghost var t0, all, high := tap, TmsBits(states, cycles), Repeat(tdi, cycles);
      var left := states;
      SequenceStart(t0, all, high);
      for cycle := 0 to cycles
        invariant !tck && tdi == old(tdi)
        invariant all[cycle..] == TmsBits(left, cycles - cycle)
        invariant tap == Clocks(t0, all[..cycle], high[..cycle])
      {
        SequenceStep(t0, all, high, cycle);
        RepeatAt(tdi, cycles, cycle);
        tms := left & 1 != 0;
        assert tms == all[cycle..][0] && all[cycle + 1..] == all[cycle..][1..];
        SetTck();
        left := left >> 1;
        ClearTck();
      }
      assert all[..cycles] == all && high[..cycles] == high;
    }

    method TmsSeqNoDelay(states: bv32, cycles: nat)
      requires !tck
      modifies this
      ensures !tck && tdi == old(tdi)
      ensures tap == Clocks(old(tap), TmsBits(states, cycles), Repeat(tdi, cycles))
    {
      hide Clocks, Samples, Rising, Falling, Repeat;
      ghost var t0, all, high := tap, TmsBits(states, cycles), Repeat(tdi, cycles);
      var left := states;
      var state := left & 1 != 0;
      SequenceStart(t0, all, high);
      for cycle := 0 to cycles
        invariant !tck && tdi == old(tdi)
        invariant state == (left & 1 != 0)
        invariant all[cycle..] == TmsBits(left, cycles - cycle)
        invariant tap == Clocks(t0, all[..cycle], high[..cycle])
      {
        SequenceStep(t0, all, high, cycle);
        RepeatAt(tdi, cycles, cycle);
        tms := state;
        assert tms == all[cycle..][0] && all[cycle + 1..] == all[cycle..][1..];
        SetTck();
        left := left >> 1;
        state := left & 1 != 0;
        ClearTck();
      }
      assert all[..cycles] == all && high[..cycles] == high;
    }

    /** jtagtap_tms_seq; `delay` stands for target_clk_divider != UINT32_MAX. */
    method TmsSeq(states: bv32, ticks: nat, delay: bool)
      requires !tck
      modifies this
      ensures !tck && tap == Clocks(old(tap), TmsBits(states, ticks), Repeat(true, ticks))
    {
      tdi := true;
      if delay {
        TmsSeqClkDelay(states, ticks);
      } else {
        TmsSeqNoDelay(states, ticks);
      }
    }

    /** jtagtap_tdi_tdo_seq_clk_delay.  data_in and data_out may be the same buffer. */
    method TdiTdoSeqClkDelay(dataIn: array<bv8>, dataOut: array<bv8>, finalTms: bool, cycles: nat)
      requires !tck
      requires cycles <= 8 * dataIn.Length && cycles <= 8 * dataOut.Length
      modifies this, dataOut
      ensures !tck
      ensures tap == Clocks(old(tap), ScanTms(cycles, finalTms), old(Bits(dataIn[..], cycles)))
      ensures Bits(dataOut[..], cycles) == Samples(old(tap), ScanTms(cycles, finalTms), old(Bits(dataIn[..], cycles)))
      ensures forall b | cycles % 8 != 0 && cycles % 8 <= b < 8 :: !Bit(dataOut[cycles / 8], b)
      ensures forall j | (cycles + 7) / 8 <= j < dataOut.Length :: dataOut[j] == old(dataOut[j])
    {
      hide Clocks, Samples, Rising, Falling, Clock, Bit, Mask, Collected, ScanTms;
      ghost var t0, tms0, bits := tap, ScanTms(cycles, finalTms), Bits(dataIn[..], cycles);
      ScanStart(t0, tms0, bits, dataOut[..]);
      var value: bv8 := 0;
      for cycle := 0 to cycles
        invariant !tck
        invariant tap == Clocks(t0, tms0[..cycle], bits[..cycle])
        invariant Collected(dataOut[..], value, Samples(t0, tms0[..cycle], bits[..cycle]))
        invariant forall j | cycle / 8 <= j < dataIn.Length :: dataIn[j] == old(dataIn[j])
        invariant forall j | cycle / 8 <= j < dataOut.Length :: dataOut[j] == old(dataOut[j])
      {
        var bit, byte := cycle % 8, cycle / 8;
        ScanStep(t0, cycles, finalTms, bits, cycle);
        tms := cycle + 1 >= cycles && finalTms;
        tdi := Bit(dataIn[byte], bit);
        ghost var samples := Samples(t0, tms0[..cycle], bits[..cycle]);
        SetTck();
        value := TakeSample(dataOut, cycle, value, tap.tdo, samples);
        ClearTck();
      }
      assert tms0[..cycles] == tms0 && bits[..cycles] == bits;
      StoreRest(dataOut, cycles, value, Samples(t0, tms0, bits));
    }

    /** The TAP as it will be once a pending falling edge has been made. */
    function Settled(): Tap
      reads this
    {
      if tck then Falling(tap) else tap
    }

    /** jtagtap_tdi_tdo_seq_no_delay: the falling edge of a cycle is made at the start of the next. */
    method TdiTdoSeqNoDelay(dataIn: array<bv8>, dataOut: array<bv8>, finalTms: bool, cycles: nat)
      requires !tck
      requires cycles <= 8 * dataIn.Length && cycles <= 8 * dataOut.Length
      modifies this, dataOut
      ensures !tck
      ensures tap == Clocks(old(tap), ScanTms(cycles, finalTms), old(Bits(dataIn[..], cycles)))
      ensures Bits(dataOut[..], cycles) == Samples(old(tap), ScanTms(cycles, finalTms), old(Bits(dataIn[..], cycles)))
      ensures forall b | cycles % 8 != 0 && cycles % 8 <= b < 8 :: !Bit(dataOut[cycles / 8], b)
      ensures forall j | (cycles + 7) / 8 <= j < dataOut.Length :: dataOut[j] == old(dataOut[j])
    {
      hide Clocks, Samples, Rising, Falling, Clock, Bit, Mask, Collected, ScanTms;
      ghost var t0, tms0, bits := tap, ScanTms(cycles, finalTms), Bits(dataIn[..], cycles);
      ScanStart(t0, tms0, bits, dataOut[..]);
      var value: bv8 := 0;
      var cycle := 0;
      while cycle < cycles
        invariant cycle <= cycles
        invariant Settled() == Clocks(t0, tms0[..cycle], bits[..cycle])
        invariant Collected(dataOut[..], value, Samples(t0, tms0[..cycle], bits[..cycle]))
        invariant forall j | cycle / 8 <= j < dataIn.Length :: dataIn[j] == old(dataIn[j])
        invariant forall j | cycle / 8 <= j < dataOut.Length :: dataOut[j] == old(dataOut[j])
      {
        var bit, byte := cycle % 8, cycle / 8;
        ScanStep(t0, cycles, finalTms, bits, cycle);
        var nextTms := cycle + 1 >= cycles && finalTms;
        var nextTdi := Bit(dataIn[byte], bit);
        ghost var samples := Samples(t0, tms0[..cycle], bits[..cycle]);
        ClearTck();
        tdi := nextTdi;
        tms := nextTms;
        SetTck();
        value := TakeSample(dataOut, cycle, value, tap.tdo, samples);
        cycle := cycle + 1;
      }
      assert tms0[..cycles] == tms0 && bits[..cycles] == bits;
      StoreRest(dataOut, cycles, value, Samples(t0, tms0, bits));
      ClearTck();
    }

    /** jtagtap_tdi_tdo_seq. */
    method TdiTdoSeq(dataOut: array<bv8>, finalTms: bool, dataIn: array<bv8>, cycles: nat, delay: bool)
      requires !tck
      requires cycles <= 8 * dataIn.Length && cycles <= 8 * dataOut.Length
      modifies this, dataOut
      ensures !tck
      ensures tap == Clocks(old(tap), ScanTms(cycles, finalTms), old(Bits(dataIn[..], cycles)))
      ensures Bits(dataOut[..], cycles) == Samples(old(tap), ScanTms(cycles, finalTms), old(Bits(dataIn[..], cycles)))
      ensures forall b | cycles % 8 != 0 && cycles % 8 <= b < 8 :: !Bit(dataOut[cycles / 8], b)
      ensures forall j | (cycles + 7) / 8 <= j < dataOut.Length :: dataOut[j] == old(dataOut[j])
    {
      hide Clocks, Samples, ScanTms, Bit;
      tms := false;
      tdi := false;
      if delay {
        TdiTdoSeqClkDelay(dataIn, dataOut, finalTms, cycles);
      } else {
        TdiTdoSeqNoDelay(dataIn, dataOut, finalTms, cycles);
      }
    }

    /** jtagtap_tdi_seq with its two variants: the same clocks, nothing sampled. */
    method TdiSeq(finalTms: bool, dataIn: array<bv8>, cycles: nat, delay: bool)
      requires !tck
      requires cycles <= 8 * dataIn.Length
      modifies this
      ensures !tck
      ensures tap == Clocks(old(tap), ScanTms(cycles, finalTms), Bits(dataIn[..], cycles))
    {
      hide Clocks, Samples, Rising, Falling, Clock, Bit, ScanTms;
      tms := false;
      ghost var t0, tms0, bits := tap, ScanTms(cycles, finalTms), Bits(dataIn[..], cycles);
      ScanStart(t0, tms0, bits, dataIn[..]);
      var cycle := 0;
      while cycle < cycles
        invariant cycle <= cycles && (delay ==> !tck)
        invariant Settled() == Clocks(t0, tms0[..cycle], bits[..cycle])
      {
        var bit, byte := cycle % 8, cycle / 8;
        ScanStep(t0, cycles, finalTms, bits, cycle);
        if !delay {
          ClearTck();
        }
        tms := cycle + 1 >= cycles && finalTms;
        tdi := Bit(dataIn[byte], bit);
        SetTck();
        if delay {
          ClearTck();
        }
        cycle := cycle + 1;
      }
      assert tms0[..cycles] == tms0 && bits[..cycles] == bits;
      ClearTck();
    }

    /** jtagtap_soft_reset. */
    method Reset(delay: bool)
      requires !tck
      modifies this
      ensures !tck && tap.state == RunTestIdle
    {
      hide Clocks, TmsBits, Repeat;
      SoftResetTmsBits();
      SoftReset(tap);
      TmsSeq(0x1f, 6, delay);
    }

    /** A data register scan as the probe performs it: shift_dr, one cycle per bit with TMS
        raised in the last, return_idle. */
    method ScanDR(dataOut: array<bv8>, dataIn: array<bv8>, n: nat, cycles: nat, delay: bool)
      requires !tck && tap.state == RunTestIdle
      requires |tap.input| == n && 0 < n <= 8 * dataIn.Length && n <= 8 * dataOut.Length && cycles > 0
      modifies this, dataOut
      ensures !tck && tap.state == RunTestIdle
      ensures tap.shift == tap.output == old(Bits(dataIn[..], n))
      ensures Bits(dataOut[..], n) == old(tap.input)
    {
      hide Clocks, Samples, ScanTms, Bit, TmsBits, ReturnTms, Repeat;
      ScanExchanges(tap, Bits(dataIn[..], n), cycles);
      ShiftDRTmsBits();
      ReturnTmsBits(cycles + 1);
      TmsSeq(1, 3, delay);
      TdiTdoSeq(dataOut, true, dataIn, n, delay);
      TmsSeq(1, cycles + 1, delay);
    }
  }

  lemma SequenceStart(t: Tap, tms: seq<bool>, tdi: seq<bool>)
    ensures Clocks(t, tms[..0], tdi[..0]) == t
  {
    ClocksNone(t);
    assert tms[..0] == [] && tdi[..0] == [];
  }

  /** One cycle of a sequence, edge by edge. */
  lemma SequenceStep(t: Tap, tms: seq<bool>, tdi: seq<bool>, k: nat)
    requires |tms| == |tdi| && k < |tms|
    ensures Falling(Rising(Clocks(t, tms[..k], tdi[..k]), tms[k], tdi[k])) == Clocks(t, tms[..k + 1], tdi[..k + 1])
  {
    hide Clocks, Samples, Falling, Rising;
    ClocksSnoc(t, tms[..k], tdi[..k], tms[k], tdi[k]);
    assert tms[..k] + [tms[k]] == tms[..k + 1] && tdi[..k] + [tdi[k]] == tdi[..k + 1];
  }

  lemma RepeatAt(b: bool, n: nat, k: nat)
    requires k < n
    ensures Repeat(b, n)[k] == b
  {}

  lemma ScanStart(t: Tap, tms: seq<bool>, tdi: seq<bool>, out: seq<bv8>)
    ensures Clocks(t, tms[..0], tdi[..0]) == t
    ensures Collected(out, 0, Samples(t, tms[..0], tdi[..0]))
  {
    ClocksNone(t);
    CollectNothing(out);
    assert tms[..0] == [] && tdi[..0] == [];
  }

  /** One cycle of a scan, edge by edge. */
  lemma ScanStep(t: Tap, n: nat, final: bool, tdi: seq<bool>, k: nat)
    requires |tdi| == n && k < n
    ensures var tms := ScanTms(n, final);
      var u := Clocks(t, tms[..k], tdi[..k]);
      var risen := Rising(u, k + 1 >= n && final, tdi[k]);
      && Falling(risen) == Clocks(t, tms[..k + 1], tdi[..k + 1])
      && Samples(t, tms[..k], tdi[..k]) + [risen.tdo] == Samples(t, tms[..k + 1], tdi[..k + 1])
  {
    hide Clocks, Samples, Falling;
    var tms := ScanTms(n, final);
    ClocksSnoc(t, tms[..k], tdi[..k], tms[k], tdi[k]);
    assert tms[..k] + [tms[k]] == tms[..k + 1] && tdi[..k] + [tdi[k]] == tdi[..k + 1];
  }
}

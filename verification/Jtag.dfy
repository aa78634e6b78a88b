/** The test access port of IEEE 1149.1: the state diagram of its clause 6.1 and one data
    register, driven by the edges of TCK. */
module Jtag {

  datatype TapState =
    | TestLogicReset | RunTestIdle
    | SelectDR | CaptureDR | ShiftDR | Exit1DR | PauseDR | Exit2DR | UpdateDR
    | SelectIR | CaptureIR | ShiftIR | Exit1IR | PauseIR | Exit2IR | UpdateIR

  function Next(s: TapState, tms: bool): TapState {
    match s
    case TestLogicReset => if tms then TestLogicReset else RunTestIdle
    case RunTestIdle => if tms then SelectDR else RunTestIdle
    case SelectDR => if tms then SelectIR else CaptureDR
    case CaptureDR => if tms then Exit1DR else ShiftDR
    case ShiftDR => if tms then Exit1DR else ShiftDR
    case Exit1DR => if tms then UpdateDR else PauseDR
    case PauseDR => if tms then Exit2DR else PauseDR
    case Exit2DR => if tms then UpdateDR else ShiftDR
    case UpdateDR => if tms then SelectDR else RunTestIdle
    case SelectIR => if tms then TestLogicReset else CaptureIR
    case CaptureIR => if tms then Exit1IR else ShiftIR
    case ShiftIR => if tms then Exit1IR else ShiftIR
    case Exit1IR => if tms then UpdateIR else PauseIR
    case PauseIR => if tms then Exit2IR else PauseIR
    case Exit2IR => if tms then UpdateIR else ShiftIR
    case UpdateIR => if tms then SelectDR else RunTestIdle
  }

  /** `shift` is the data register (element 0 next to TDO), `input` what it captures,
      `output` what was last updated from it, `tdo` the level of the TDO pin. */
  datatype Tap = Tap(state: TapState, shift: seq<bool>, input: seq<bool>, output: seq<bool>, tdo: bool)

  /** TMS and TDI are sampled on the rising edge, where the register captures and shifts. */
  function Rising(t: Tap, tms: bool, tdi: bool): Tap {
    var shift :=
      if t.state == CaptureDR then t.input
      else if t.state == ShiftDR && t.shift != [] then t.shift[1..] + [tdi]
      else t.shift;
    t.(state := Next(t.state, tms), shift := shift)
  }

  /** TDO and the parallel output change on the falling edge. */
  function Falling(t: Tap): Tap {
    t.(tdo := if t.state == ShiftDR && t.shift != [] then t.shift[0] else t.tdo,
       output := if t.state == UpdateDR then t.shift else t.output)
  }

  function Clock(t: Tap, tms: bool, tdi: bool): Tap {
    Falling(Rising(t, tms, tdi))
  }

  /** A run of clock cycles, given the levels of TMS and TDI in each. */
  function Clocks(t: Tap, tms: seq<bool>, tdi: seq<bool>): Tap
    requires |tms| == |tdi|
  {
    if tms == [] then t
    else Clock(Clocks(t, tms[..|tms| - 1], tdi[..|tdi| - 1]), tms[|tms| - 1], tdi[|tdi| - 1])
  }

  /** The level of TDO that a probe samples after the rising edge of each cycle. */
  function Samples(t: Tap, tms: seq<bool>, tdi: seq<bool>): (s: seq<bool>)
    requires |tms| == |tdi|
    ensures |s| == |tms|
  {
    if tms == [] then []
    else Samples(t, tms[..|tms| - 1], tdi[..|tdi| - 1]) + [Clocks(t, tms[..|tms| - 1], tdi[..|tdi| - 1]).tdo]
  }

  lemma ClocksSnoc(t: Tap, tms: seq<bool>, tdi: seq<bool>, m: bool, d: bool)
    requires |tms| == |tdi|
    ensures Clocks(t, tms + [m], tdi + [d]) == Clock(Clocks(t, tms, tdi), m, d)
    ensures Samples(t, tms + [m], tdi + [d]) == Samples(t, tms, tdi) + [Clocks(t, tms, tdi).tdo]
  {
    assert (tms + [m])[..|tms + [m]| - 1] == tms;
    assert (tdi + [d])[..|tdi + [d]| - 1] == tdi;
  }

  lemma ClocksNone(t: Tap)
    ensures Clocks(t, [], []) == t && Samples(t, [], []) == []
  {}

  lemma {:induction false} ClocksConcat(t: Tap, m1: seq<bool>, d1: seq<bool>, m2: seq<bool>, d2: seq<bool>)
    requires |m1| == |d1| && |m2| == |d2|
    ensures Clocks(t, m1 + m2, d1 + d2) == Clocks(Clocks(t, m1, d1), m2, d2)
  {
    if m2 == [] {
      assert m1 + m2 == m1 && d1 + d2 == d1;
    } else {
      var n := |m2| - 1;
      assert (m1 + m2)[..|m1 + m2| - 1] == m1 + m2[..n];
      assert (d1 + d2)[..|d1 + d2| - 1] == d1 + d2[..n];
      ClocksConcat(t, m1, d1, m2[..n], d2[..n]);
    }
  }

  // ---------- Scanning the data register ----------

  /** TMS during a scan of n cycles: low, but `final` in the last one. */
  function ScanTms(n: nat, final: bool): (s: seq<bool>)
    ensures |s| == n
  {
    seq(n, k => k + 1 == n && final)
  }

  /** What the port looks like after k of the |tdi| cycles of a scan begun in t: the first k
      bits have gone in, and TDO shows the next bit of the old contents. */
  predicate Shifted(t: Tap, u: Tap, final: bool, tdi: seq<bool>, k: nat)
    requires |t.shift| == |tdi| && k <= |tdi|
  {
    && u.shift == t.shift[k..] + tdi[..k]
    && u.state == (if k == |tdi| && final then Exit1DR else ShiftDR)
    && (k < |tdi| ==> u.tdo == t.shift[k])
    && u.input == t.input && u.output == t.output
  }

  lemma ShiftOne(t: Tap, u: Tap, final: bool, tdi: seq<bool>, k: nat)
    requires |t.shift| == |tdi| && k < |tdi| && Shifted(t, u, final, tdi, k)
    ensures Shifted(t, Clock(u, k + 1 == |tdi| && final, tdi[k]), final, tdi, k + 1)
  {
    assert u.shift[1..] + [tdi[k]] == t.shift[k + 1..] + tdi[..k + 1];
  }

  lemma {:induction false} Shifting(t: Tap, final: bool, tdi: seq<bool>, k: nat)
    requires t.state == ShiftDR && |t.shift| == |tdi| > 0 && k <= |tdi|
    requires t.tdo == t.shift[0]
    ensures Shifted(t, Clocks(t, ScanTms(|tdi|, final)[..k], tdi[..k]), final, tdi, k)
    ensures Samples(t, ScanTms(|tdi|, final)[..k], tdi[..k]) == t.shift[..k]
    decreases k
  {
    hide Clocks, Samples, Clock;
    var tms := ScanTms(|tdi|, final);
    if k == 0 {
      ClocksNone(t);
      assert tms[..0] == [] && tdi[..0] == [];
    } else {
      Shifting(t, final, tdi, k - 1);
      ShiftOne(t, Clocks(t, tms[..k - 1], tdi[..k - 1]), final, tdi, k - 1);
      ClocksSnoc(t, tms[..k - 1], tdi[..k - 1], tms[k - 1], tdi[k - 1]);
      assert tms[..k - 1] + [tms[k - 1]] == tms[..k] && tdi[..k - 1] + [tdi[k - 1]] == tdi[..k];
      assert t.shift[..k - 1] + [t.shift[k - 1]] == t.shift[..k];
    }
  }

  function Repeat(b: bool, n: nat): (s: seq<bool>)
    ensures |s| == n
  {
    seq(n, _ => b)
  }

  /** Run-Test/Idle to Shift-DR: the register holds what it captured and TDO shows its first bit. */
  lemma EnterShiftDR(t: Tap)
    requires t.state == RunTestIdle
    ensures var u := Clocks(t, [true, false, false], Repeat(true, 3));
      && u.state == ShiftDR && u.shift == u.input == t.input && u.output == t.output
      && (t.input != [] ==> u.tdo == t.input[0])
  {
    hide Clocks, Samples;
    ThreeClocks(t, true, false, false);
  }

  lemma ThreeClocks(t: Tap, m1: bool, m2: bool, m3: bool)
    ensures Clocks(t, [m1, m2, m3], Repeat(true, 3)) == Clock(Clock(Clock(t, m1, true), m2, true), m3, true)
  {
    hide Clocks, Samples, Clock;
    ClocksNone(t);
    ClocksSnoc(t, [], [], m1, true);
    ClocksSnoc(t, [m1], [true], m2, true);
    ClocksSnoc(t, [m1, m2], [true, true], m3, true);
    assert [] + [m1] == [m1] && [] + [true] == [true];
    assert [m1] + [m2] == [m1, m2] && [true] + [true] == [true, true];
    assert [m1, m2] + [m3] == [m1, m2, m3] && [true, true] + [true] == Repeat(true, 3);
  }

  /** TMS during return_idle: high once, then low. */
  function ReturnTms(n: nat): (s: seq<bool>)
    ensures |s| == n
  {
    seq(n, k => k == 0)
  }

  lemma {:induction false} ReturnFromExit(t: Tap, n: nat)
    requires t.state == Exit1DR && n > 0
    ensures var u := Clocks(t, ReturnTms(n), Repeat(true, n));
      && u.state == (if n == 1 then UpdateDR else RunTestIdle)
      && u.shift == u.output == t.shift && u.input == t.input
    decreases n
  {
    var m := n - 1;
    assert ReturnTms(n)[..m] == ReturnTms(m) && Repeat(true, n)[..m] == Repeat(true, m);
    if m > 0 {
      ReturnFromExit(t, m);
    } else {
      assert ReturnTms(0) == [] && Repeat(true, 0) == [];
    }
  }

  /** If Shift-DR was not left, the way back ends up in Pause-DR. */
  lemma {:induction false} ReturnFromShift(t: Tap, n: nat)
    requires t.state == ShiftDR && n > 0
    ensures Clocks(t, ReturnTms(n), Repeat(true, n)).state == (if n == 1 then Exit1DR else PauseDR)
    decreases n
  {
    var m := n - 1;
    assert ReturnTms(n)[..m] == ReturnTms(m) && Repeat(true, n)[..m] == Repeat(true, m);
    if m > 0 {
      ReturnFromShift(t, m);
    } else {
      assert ReturnTms(0) == [] && Repeat(true, 0) == [];
    }
  }

  /** The whole scan: into Shift-DR, one cycle per bit of `tdi`, and back with `cycles` idle cycles. */
  function Scan(t: Tap, tdi: seq<bool>, final: bool, cycles: nat): Tap {
    var inShift := Clocks(t, [true, false, false], Repeat(true, 3));
    var shifted := Clocks(inShift, ScanTms(|tdi|, final), tdi);
    Clocks(shifted, ReturnTms(cycles + 1), Repeat(true, cycles + 1))
  }

  /** What comes out on TDO meanwhile. */
  function ScanOut(t: Tap, tdi: seq<bool>, final: bool): seq<bool> {
    Samples(Clocks(t, [true, false, false], Repeat(true, 3)), ScanTms(|tdi|, final), tdi)
  }

  /** A scan over a register of as many bits puts the bits sent into the register and its
      output, brings out what the register had captured, and ends in Run-Test/Idle. */
  lemma ScanExchanges(t: Tap, tdi: seq<bool>, cycles: nat)
    requires t.state == RunTestIdle
    requires |t.input| == |tdi| > 0 && cycles > 0
    ensures Scan(t, tdi, true, cycles).state == RunTestIdle
    ensures Scan(t, tdi, true, cycles).shift == Scan(t, tdi, true, cycles).output == tdi
    ensures ScanOut(t, tdi, true) == t.input
  {
    EnterShiftDR(t);
    var u := Clocks(t, [true, false, false], Repeat(true, 3));
    var n := |tdi|;
    Shifting(u, true, tdi, n);
    assert ScanTms(n, true)[..n] == ScanTms(n, true) && tdi[..n] == tdi && t.input[..n] == t.input;
    assert t.input[n..] + tdi == tdi;
    ReturnFromExit(Clocks(u, ScanTms(n, true), tdi), cycles + 1);
  }

  lemma {:induction false} ShiftingState(t: Tap, n: nat, final: bool, tdi: seq<bool>, k: nat)
    requires t.state == ShiftDR && |tdi| == n && k <= n
    ensures Clocks(t, ScanTms(n, final)[..k], tdi[..k]).state == (if 0 < k == n && final then Exit1DR else ShiftDR)
    decreases k
  {
    hide Clocks, Samples;
    var tms := ScanTms(n, final);
    if k == 0 {
      ClocksNone(t);
      assert tms[..0] == [] && tdi[..0] == [];
    } else {
      ShiftingState(t, n, final, tdi, k - 1);
      ClocksSnoc(t, tms[..k - 1], tdi[..k - 1], tms[k - 1], tdi[k - 1]);
      assert tms[..k - 1] + [tms[k - 1]] == tms[..k] && tdi[..k - 1] + [tdi[k - 1]] == tdi[..k];
    }
  }

  /** The scan comes back to Run-Test/Idle exactly when it shifts at least one bit, raises TMS
      with the last one and asks for at least one idle cycle. */
  lemma ScanEndsIdle(t: Tap, tdi: seq<bool>, final: bool, cycles: nat)
    requires t.state == RunTestIdle
    ensures Scan(t, tdi, final, cycles).state == RunTestIdle <==> |tdi| > 0 && final && cycles > 0
  {
    EnterShiftDR(t);
    var u := Clocks(t, [true, false, false], Repeat(true, 3));
    var n := |tdi|;
    ShiftingState(u, n, final, tdi, n);
    assert ScanTms(n, final)[..n] == ScanTms(n, final) && tdi[..n] == tdi;
    var v := Clocks(u, ScanTms(n, final), tdi);
    if v.state == Exit1DR {
      ReturnFromExit(v, cycles + 1);
    } else {
      ReturnFromShift(v, cycles + 1);
    }
  }

  // ---------- Scanning the instruction register ----------

  predicate DataColumn(s: TapState) {
    s in {CaptureDR, ShiftDR, Exit1DR, PauseDR, Exit2DR, UpdateDR}
  }

  /** The state of the instruction column beside a state of the data column. */
  function Beside(s: TapState): TapState
    requires DataColumn(s)
  {
    match s
    case CaptureDR => CaptureIR
    case ShiftDR => ShiftIR
    case Exit1DR => Exit1IR
    case PauseDR => PauseIR
    case Exit2DR => Exit2IR
    case UpdateDR => UpdateIR
  }

  /** The two columns of the diagram are alike and end in the same states. */
  predicate Alike(a: TapState, b: TapState) {
    a == b || (DataColumn(a) && b == Beside(a))
  }

  lemma {:induction false} StaysAlike(t: Tap, u: Tap, tms: seq<bool>, tdi: seq<bool>)
    requires |tms| == |tdi| && Alike(t.state, u.state)
    ensures Alike(Clocks(t, tms, tdi).state, Clocks(u, tms, tdi).state)
    decreases |tms|
  {
    hide Rising, Falling;
    ClockState();
    if tms != [] {
      StaysAlike(t, u, tms[..|tms| - 1], tdi[..|tdi| - 1]);
    }
  }

  /** Run-Test/Idle to Shift-IR: the data register is as it was. */
  lemma EnterShiftIR(t: Tap)
    requires t.state == RunTestIdle
    ensures Clocks(t, [true, true, false, false], Repeat(true, 4)) == t.(state := ShiftIR)
  {
    hide Clocks, Samples;
    ThreeClocks(t, true, true, false);
    ClocksSnoc(t, [true, true, false], Repeat(true, 3), false, true);
    assert [true, true, false] + [false] == [true, true, false, false] && Repeat(true, 3) + [true] == Repeat(true, 4);
  }

  /** A scan of the instruction register, which ends as a scan of the data register does. */
  lemma InstructionScanEndsIdle(t: Tap, tdi: seq<bool>, final: bool, cycles: nat)
    requires t.state == RunTestIdle
    ensures
      var inShift := Clocks(t, [true, true, false, false], Repeat(true, 4));
      var shifted := Clocks(inShift, ScanTms(|tdi|, final), tdi);
      Clocks(shifted, ReturnTms(cycles + 1), Repeat(true, cycles + 1)).state == RunTestIdle
      <==> |tdi| > 0 && final && cycles > 0
  {
    hide Clocks, Samples;
    EnterShiftIR(t);
    EnterShiftDR(t);
    var a := Clocks(t, [true, false, false], Repeat(true, 3));
    var b := Clocks(t, [true, true, false, false], Repeat(true, 4));
    StaysAlike(a, b, ScanTms(|tdi|, final), tdi);
    StaysAlike(Clocks(a, ScanTms(|tdi|, final), tdi), Clocks(b, ScanTms(|tdi|, final), tdi),
               ReturnTms(cycles + 1), Repeat(true, cycles + 1));
    ScanEndsIdle(t, tdi, final, cycles);
  }

  // ---------- Reset ----------

  lemma ClockState()
    ensures forall u: Tap, tms, tdi :: Clock(u, tms, tdi).state == Next(u.state, tms)
  {}

  /** Five cycles with TMS high and one low lead from every state to Run-Test/Idle. */
  lemma SoftReset(t: Tap)
    ensures Clocks(t, [true, true, true, true, true, false], Repeat(true, 6)).state == RunTestIdle
  {
    hide Clocks, Samples, Clock;
    ClockState();
    var u := Clocks(t, [true, true, true], Repeat(true, 3));
    ThreeClocks(t, true, true, true);
    ThreeClocks(u, true, true, false);
    ClocksConcat(t, [true, true, true], Repeat(true, 3), [true, true, false], Repeat(true, 3));
    assert [true, true, true] + [true, true, false] == [true, true, true, true, true, false];
    assert Repeat(true, 3) + Repeat(true, 3) == Repeat(true, 6);
  }
}

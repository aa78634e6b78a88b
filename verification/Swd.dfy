/** The line protocol of main/swdptap.c: words go out least significant bit first, followed by
    a parity bit, and are read back from the line the same way. */
module Swd {
  import opened WordBits

  // ---------- The line ----------

  /** What seq_out_parity puts on the line: the parity bit counts the whole 32-bit argument. */
  function Sent(v: nat, n: nat): (s: seq<bool>)
    ensures |s| == n + 1
  {
    ToBits(v, n) + [Odd(Ones(ToBits(v, 32)))]
  }

  /** What seq_in_parity makes of n + 1 levels: a value and whether it reports an error. */
  function Value(line: seq<bool>): nat
    requires line != []
  {
    FromBits(line[..|line| - 1])
  }

  predicate ParityError(line: seq<bool>)
    requires line != []
  {
    Odd(Ones(line[..|line| - 1]) + (if line[|line| - 1] then 1 else 0))
  }

  lemma ParityErrorCounts(line: seq<bool>)
    requires line != []
    ensures ParityError(line) == Odd(Ones(line))
  {
    var n := |line| - 1;
    assert line == line[..n] + [line[n]];
    OnesConcat(line[..n], [line[n]]);
    assert [line[n]][1..] == [];
  }

  /** Looped back, n bits of a word are read as the word of these bits, and an error is
      reported exactly when the bits that were not sent hold an odd number of ones.  A word
      that fits into n bits comes back unchanged and without an error. */
  lemma LoopBack(v: nat, n: nat)
    requires n <= 32
    ensures Value(Sent(v, n)) == Low(v, n)
    ensures ParityError(Sent(v, n)) == Odd(Ones(ToBits(High(v, n), 32 - n)))
    ensures v < Pow2(n) ==> Value(Sent(v, n)) == v && !ParityError(Sent(v, n))
  {
    hide FromBits, Ones, ToBits, Pow2, Low, High;
    assert Sent(v, n)[..n] == ToBits(v, n);
    BitsRoundTrip(v, n);
    ToBitsSplit(v, n, 32 - n);
    OnesConcat(ToBits(v, n), ToBits(High(v, n), 32 - n));
    LowHigh(v, n);
    ZeroHasNoOnes(32 - n);
  }

  /** With its parity bit a word that fits has an even number of ones, and an odd number on the line
      is an error: the rule of chapter B4 of ADIv5. */
  lemma EvenParity(v: nat, n: nat, line: seq<bool>)
    requires n <= 32 && v < Pow2(n) && line != []
    ensures Ones(Sent(v, n)) % 2 == 0
    ensures ParityError(line) <==> Ones(line) % 2 == 1
  {
    hide Sent, ParityError, Value, Pow2, Ones;
    LoopBack(v, n);
    ParityErrorCounts(line);
    ParityErrorCounts(Sent(v, n));
  }

  lemma {:induction false} ZeroHasNoOnes(n: nat)
    ensures Ones(ToBits(0, n)) == 0
    decreases n
  {
    if n > 0 {
      ZeroHasNoOnes(n - 1);
      assert ToBits(0, n)[1..] == ToBits(0, n - 1);
    }
  }

  lemma OddSum(a: nat, b: nat)
    ensures Odd(a + b) == (Odd(a) != Odd(b))
  {}

  /** In how many places two lines differ. */
  function Flips(s: seq<bool>, t: seq<bool>): nat
    requires |s| == |t|
  {
    if s == [] then 0 else (if s[0] != t[0] then 1 else 0) + Flips(s[1..], t[1..])
  }

  lemma {:induction false} FlipsChangeParity(s: seq<bool>, t: seq<bool>)
    requires |s| == |t|
    ensures Odd(Ones(s) + Ones(t)) == Odd(Flips(s, t))
    decreases |s|
  {
    if s != [] {
      FlipsChangeParity(s[1..], t[1..]);
    }
  }

  /** Of the n + 1 levels of a word that fits, every odd number of flips is reported and no
      even number is. */
  lemma FlipsDetected(v: nat, n: nat, line: seq<bool>)
    requires n <= 32 && v < Pow2(n) && |line| == n + 1
    ensures ParityError(line) == Odd(Flips(Sent(v, n), line))
  {
    hide Sent, Ones, Flips, Pow2, ParityError, Odd, Value, ToBits;
    OddSum(Ones(Sent(v, n)), Ones(line));
    LoopBack(v, n);
    ParityErrorCounts(line);
    ParityErrorCounts(Sent(v, n));
    FlipsChangeParity(Sent(v, n), line);
  }
}

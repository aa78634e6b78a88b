/** The bits of machine words, as numbers. */
module WordBits {

  const WORD := 0x1_0000_0000

  function Pow2(n: nat): (p: nat)
    ensures p > 0
  {
    if n == 0 then 1 else 2 * Pow2(n - 1)
  }

  /** Bit k of v, that is v & (1 << k). */
  predicate Bit(v: nat, k: nat)
    decreases k
  {
    if k == 0 then v % 2 == 1 else Bit(v / 2, k - 1)
  }

  /** The n low bits of v, in the order in which they are shifted. */
  function ToBits(v: nat, n: nat): (s: seq<bool>)
    ensures |s| == n
    decreases n
  {
    if n == 0 then [] else [v % 2 == 1] + ToBits(v / 2, n - 1)
  }

  function FromBits(s: seq<bool>): nat {
    if s == [] then 0 else (if s[0] then 1 else 0) + 2 * FromBits(s[1..])
  }

  /** The population count. */
  function Ones(s: seq<bool>): nat {
    if s == [] then 0 else (if s[0] then 1 else 0) + Ones(s[1..])
  }

  predicate Odd(n: nat) { n % 2 == 1 }

  lemma {:induction false} ToBitsAt(v: nat, n: nat, k: nat)
    requires k < n
    ensures ToBits(v, n)[k] == Bit(v, k)
    decreases k
  {
    if k > 0 {
      ToBitsAt(v / 2, n - 1, k - 1);
    }
  }

  lemma {:induction false} FromBitsSnoc(s: seq<bool>, b: bool)
    ensures FromBits(s + [b]) == FromBits(s) + (if b then Pow2(|s|) else 0)
    ensures FromBits(s) < Pow2(|s|)
    decreases |s|
  {
    if s == [] {
      assert [b][1..] == [];
    } else {
      assert (s + [b])[1..] == s[1..] + [b];
      FromBitsSnoc(s[1..], b);
    }
  }

  lemma {:induction false} OnesConcat(s: seq<bool>, t: seq<bool>)
    ensures Ones(s + t) == Ones(s) + Ones(t)
    decreases |s|
  {
    if s == [] {
      assert s + t == t;
    } else {
      assert (s + t)[1..] == s[1..] + t;
      OnesConcat(s[1..], t);
    }
  }

  /** The word formed by the n low bits of v, and what remains above them. */
  function Low(v: nat, n: nat): nat {
    if n == 0 then 0 else v % 2 + 2 * Low(v / 2, n - 1)
  }

  function High(v: nat, n: nat): nat {
    if n == 0 then v else High(v / 2, n - 1)
  }

  lemma {:induction false} LowHigh(v: nat, n: nat)
    ensures Low(v, n) < Pow2(n)
    ensures v == Low(v, n) + Pow2(n) * High(v, n)
    ensures v < Pow2(n) <==> High(v, n) == 0
    decreases n
  {
    if n > 0 {
      LowHigh(v / 2, n - 1);
      var p, h := Pow2(n - 1), High(v / 2, n - 1);
      Twice(p, h);
    }
  }

  lemma Twice(p: nat, h: nat)
    ensures (2 * p) * h == 2 * (p * h)
    ensures h >= 1 ==> p * h >= p
  {
  }

  /** Bit k is the parity of the quotient by 2^k. */
  lemma BitIs(v: nat, k: nat)
    ensures Bit(v, k) <==> v / Pow2(k) % 2 == 1
  {
    LowHigh(v, k);
    Quotient(v, Pow2(k), High(v, k), Low(v, k));
    HighBit(v, k);
  }

  lemma {:induction false} HighBit(v: nat, k: nat)
    ensures Bit(v, k) <==> High(v, k) % 2 == 1
    decreases k
  {
    if k > 0 {
      HighBit(v / 2, k - 1);
    }
  }

  lemma Quotient(v: nat, p: nat, high: nat, low: nat)
    requires p > 0 && v == low + p * high && low < p
    ensures v / p == high
  {
    var q, r := v / p, v % p;
    assert v == p * q + r;
    assert p * (q - high) == low - r;
    Multiple(p, q - high);
  }

  lemma Multiple(p: int, k: int)
    requires p > 0
    ensures k >= 1 ==> p * k >= p
    ensures k <= -1 ==> p * k <= -p
  {
  }

  /** Words are recovered from their bits, up to the number of bits shifted. */
  lemma {:induction false} BitsRoundTrip(v: nat, n: nat)
    ensures FromBits(ToBits(v, n)) == Low(v, n)
    decreases n
  {
    if n > 0 {
      BitsRoundTrip(v / 2, n - 1);
      assert ToBits(v, n)[1..] == ToBits(v / 2, n - 1);
    }
  }

  /** The bits of a word split at n. */
  lemma {:induction false} ToBitsSplit(v: nat, n: nat, m: nat)
    ensures ToBits(v, n + m) == ToBits(v, n) + ToBits(High(v, n), m)
    decreases n
  {
    if n == 0 {
      assert ToBits(v, 0) + ToBits(v, m) == ToBits(v, m);
    } else {
      ToBitsSplit(v / 2, n - 1, m);
    }
  }
}

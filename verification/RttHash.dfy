/** The rolling hash of main/rtt.c: the base-256 value of the last 16 bytes modulo a prime. */
module RttHash {

  type byte = bv8

  const WINDOW := 16
  const Q := 0x797a9691            // prime
  const R := 0x73b07d01            // 256^15 modulo Q
  const P := 0x444110cd            // hash of the identifier
  const TOP := 0x1_00_0000_0000_0000_0000_0000_0000_0000 // 256^15

  function Num(b: byte): (n: nat)
    ensures n < 256
  {
    b as int
  }

  /** A byte string read as a base-256 number. */
  function Value(s: seq<byte>): nat {
    if s == [] then 0 else 256 * Value(s[..|s| - 1]) + Num(s[|s| - 1])
  }

  /** "SEGGER RTT", padded with zeroes to 16 bytes. */
  const IDENT: seq<byte> :=
    [0x53, 0x45, 0x47, 0x47, 0x45, 0x52, 0x20, 0x52, 0x54, 0x54, 0, 0, 0, 0, 0, 0]

  function Hash(s: seq<byte>): (h: nat)
    ensures h < Q
  {
    Value(s) % Q
  }

  /** One step of the search loop: `out` leaves the window, `into` enters it. */
  function Roll(t: nat, out: byte, into: byte): (h: nat)
    requires t < Q
    ensures h < Q
  {
    (256 * ((t + Q - R * Num(out) % Q) % Q) + Num(into)) % Q
  }

  /** The 64-bit variables of the source hold every intermediate value. */
  lemma NoOverflow(t: nat, out: byte)
    requires t < Q
    ensures R * Num(out) < 0x1_0000_0000_0000_0000 && 0 <= t + Q - R * Num(out) % Q < 0x1_0000_0000_0000_0000
    ensures 256 * ((t + Q - R * Num(out) % Q) % Q) + 255 < 0x1_0000_0000_0000_0000
  {
  }

  lemma ValueEmpty()
    ensures Value([]) == 0
  {
  }

  lemma ValueAppend(s: seq<byte>, b: byte)
    ensures Value(s + [b]) == 256 * Value(s) + Num(b)
  {
    assert (s + [b])[..|s|] == s;
  }

  function Pow256(n: nat): nat {
    if n == 0 then 1 else 256 * Pow256(n - 1)
  }

  lemma {:induction false} ValueCons(a: byte, s: seq<byte>)
    ensures Value([a] + s) == Num(a) * Pow256(|s|) + Value(s)
  {
    hide Value, Num;
    if s == [] {
      ValueEmpty();
      ValueAppend([], a);
      assert [a] + s == [] + [a];
    } else {
      var front, b := s[..|s| - 1], s[|s| - 1];
      ValueCons(a, front);
      ValueAppend([a] + front, b);
      ValueAppend(front, b);
      assert [a] + s == [a] + front + [b] && s == front + [b];
      MulShift(Num(a), Pow256(|front|));
      assert Pow256(|s|) == 256 * Pow256(|front|);
    }
  }

  lemma MulShift(x: nat, y: nat)
    ensures x * (256 * y) == 256 * (x * y)
  {
  }

  lemma TopIsPower()
    ensures Pow256(15) == TOP
  {
    assert Pow256(4) == 0x1_0000_0000;
    assert Pow256(8) == 0x1_0000_0000 * Pow256(4);
    assert Pow256(12) == 0x1_0000_0000 * Pow256(8);
    assert Pow256(15) == 0x100_0000 * Pow256(12);
  }

  /** Multiples of Q do not matter. */
  lemma SameResidue(x: int, y: int, k: int)
    requires x == y + Q * k
    ensures x % Q == y % Q
  {
  }

  /** The hash of the moved window is one step from the hash of the window. */
  lemma RollIsExact(window: seq<byte>, into: byte)
    requires |window| == WINDOW
    ensures Roll(Hash(window), window[0], into) == Hash(window[1..] + [into])
  {
    hide Value, Num, Pow256;
    var rest := window[1..];
    assert window == [window[0]] + rest;
    ValueCons(window[0], rest);
    ValueAppend(rest, into);
    TopIsPower();
    var a, v, t := Num(window[0]), Value(rest), Hash(window);
    var whole := a * TOP + v;
    assert t == whole % Q && whole == Value(window);
    Removed(a, v);
    Pushed((t + Q - R * a % Q) % Q, v, Num(into));
  }

  lemma Removed(a: nat, v: nat)
    ensures ((a * TOP + v) % Q + Q - R * a % Q) % Q == v % Q
  {
    var whole := a * TOP + v;
    var m := TOP / Q;
    assert TOP == R + Q * m;
    assert a * TOP == R * a + Q * (m * a);
    var x := whole % Q + Q - R * a % Q;
    assert whole % Q == whole - Q * (whole / Q);
    assert R * a % Q == R * a - Q * (R * a / Q);
    SameResidue(x, v, m * a - whole / Q + 1 + R * a / Q);
  }

  lemma Pushed(t: nat, v: nat, b: nat)
    requires t == v % Q
    ensures (256 * t + b) % Q == (256 * v + b) % Q
  {
    SameResidue(256 * v + b, 256 * t + b, 256 * (v / Q));
  }

  /** The constant the search compares with is the hash of the identifier. */
  lemma IdentHash()
    ensures |IDENT| == WINDOW && Hash(IDENT) == P
  {
    hide Value;
    ValueEmpty();
    var a, b: seq<byte> := [0x53, 0x45, 0x47, 0x47], [0x45, 0x52, 0x20, 0x52];
    var c, d: seq<byte> := [0x54, 0x54, 0, 0], [0, 0, 0, 0];
    assert IDENT == a + b + c + d;
    FourMore([], 0x53, 0x45, 0x47, 0x47);
    FourMore(a, 0x45, 0x52, 0x20, 0x52);
    FourMore(a + b, 0x54, 0x54, 0, 0);
    FourMore(a + b + c, 0, 0, 0, 0);
    assert [] + a == a;
  }

  lemma FourMore(s: seq<byte>, w: byte, x: byte, y: byte, z: byte)
    ensures Value(s + [w, x, y, z])
         == 0x1_0000_0000 * Value(s) + 0x100_0000 * Num(w) + 0x1_0000 * Num(x) + 0x100 * Num(y) + Num(z)
  {
    hide Value, Num;
    ValueAppend(s, w);
    ValueAppend(s + [w], x);
    ValueAppend(s + [w] + [x], y);
    ValueAppend(s + [w] + [x] + [y], z);
    assert s + [w, x, y, z] == s + [w] + [x] + [y] + [z];
  }
}

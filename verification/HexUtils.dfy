/** Hexadecimal text, main/hex_utils.c.  Characters are bytes; C's 8-bit wrap-around is
    that of bv8. */
module HexUtils {

  function HexDigit(value: bv8): bv8 {
    var digit := if value > 9 then value + 7 else value; // 'A' - '0' - 10 is 7
    digit + 0x30
  }

  function UnhexDigit(hex: bv8): bv8 {
    var tmp := hex - 0x30;
    var tmp := if tmp > 9 then tmp - 7 else tmp;
    if tmp > 16 then tmp - 0x20 else tmp
  }

  function UpperDigit(b: bv8): bv8 { HexDigit(b >> 4) }
  function LowerDigit(b: bv8): bv8 { HexDigit(b & 0xf) }

  /** A byte out of two digits, as in unhexify and in the checksum of a packet. */
  function UnhexPair(upper: bv8, lower: bv8): bv8 {
    (UnhexDigit(upper) << 4) | UnhexDigit(lower)
  }

  lemma PairRoundTrip(b: bv8)
    ensures UnhexPair(UpperDigit(b), LowerDigit(b)) == b
  {}

  /** The lower-case digits a..f read like the upper-case ones that are written. */
  lemma LowerCaseReads(b: bv8)
    requires 10 <= b < 16
    ensures UnhexDigit(HexDigit(b) + 0x20) == b == UnhexDigit(HexDigit(b))
  {}

  /** The characters 0 to 9 and A to F. */
  const DIGITS: seq<bv8> := [0x30, 0x31, 0x32, 0x33, 0x34, 0x35, 0x36, 0x37,
                             0x38, 0x39, 0x41, 0x42, 0x43, 0x44, 0x45, 0x46]

  lemma DigitAt(n: bv8)
    requires n < 16
    ensures HexDigit(n) == DIGITS[n as int] && UnhexDigit(DIGITS[n as int]) == n
  {
    match n as int
    case 0 => case 1 => case 2 => case 3 => case 4 => case 5 => case 6 => case 7 =>
    case 8 => case 9 => case 10 => case 11 => case 12 => case 13 => case 14 => case _ =>
  }

  lemma Halves(b: bv8)
    ensures (b >> 4) as int == b as int / 16 && (b & 0xf) as int == b as int % 16
  {
  }

  /** A byte is written with its upper digit first. */
  lemma ByteDigits(b: bv8)
    ensures UpperDigit(b) == DIGITS[b as int / 16] && LowerDigit(b) == DIGITS[b as int % 16]
  {
    hide HexDigit, UnhexDigit;
    Halves(b);
    DigitAt(b >> 4);
    DigitAt(b & 0xf);
  }

  /** A character behind F is no digit, but is read as one: G as 16. */
  lemma BehindF()
    ensures UnhexDigit(0x47) == 16 && UnhexDigit(0x48) == 0xf1
  {
  }

  function HexString(s: seq<bv8>): (h: seq<bv8>)
    ensures |h| == 2 * |s|
  {
    if s == [] then [] else HexString(s[..|s| - 1]) + [UpperDigit(s[|s| - 1]), LowerDigit(s[|s| - 1])]
  }

  function UnhexString(h: seq<bv8>): (s: seq<bv8>)
    requires |h| % 2 == 0
    ensures |s| == |h| / 2
  {
    if h == [] then [] else UnhexString(h[..|h| - 2]) + [UnhexPair(h[|h| - 2], h[|h| - 1])]
  }

  /** unhexify undoes hexify, for every byte string. */
  lemma {:induction false} StringRoundTrip(s: seq<bv8>)
    ensures UnhexString(HexString(s)) == s
  {
    hide UpperDigit, LowerDigit, UnhexPair, UnhexString;
    if s == [] {
      UnhexNothing();
    } else {
      var b, front := s[|s| - 1], s[..|s| - 1];
      PairRoundTrip(b);
      StringRoundTrip(front);
      UnhexAppend(HexString(front), UpperDigit(b), LowerDigit(b));
      assert s == front + [b];
    }
  }

  lemma UnhexNothing()
    ensures UnhexString([]) == []
  {
  }

  lemma UnhexAppend(h: seq<bv8>, upper: bv8, lower: bv8)
    requires |h| % 2 == 0
    ensures UnhexString(h + [upper, lower]) == UnhexString(h) + [UnhexPair(upper, lower)]
  {
    hide UnhexPair;
    assert (h + [upper, lower])[..|h|] == h;
  }

  method Hexify(hex: array<bv8>, buf: array<bv8>, size: nat)
    requires hex != buf && size <= buf.Length && 2 * size < hex.Length
    modifies hex
    ensures hex[..2 * size] == HexString(buf[..size]) && hex[2 * size] == 0
    ensures hex[2 * size + 1..] == old(hex[2 * size + 1..])
  {
    hide UpperDigit, LowerDigit;
    for idx := 0 to size
      invariant hex[..2 * idx] == HexString(buf[..idx])
      invariant hex[2 * size + 1..] == old(hex[2 * size + 1..])
    {
      assert buf[..idx + 1][..idx] == buf[..idx];
      hex[2 * idx] := UpperDigit(buf[idx]);
      hex[2 * idx + 1] := LowerDigit(buf[idx]);
      assert hex[..2 * (idx + 1)] == hex[..2 * idx] + [hex[2 * idx], hex[2 * idx + 1]];
    }
    hex[2 * size] := 0;
  }

  method Unhexify(buf: array<bv8>, hex: array<bv8>, size: nat)
    requires hex != buf && size <= buf.Length && 2 * size <= hex.Length
    modifies buf
    ensures buf[..size] == UnhexString(hex[..2 * size])
    ensures buf[size..] == old(buf[size..])
  {
    hide UnhexPair;
    for idx := 0 to size
      invariant buf[..idx] == UnhexString(hex[..2 * idx])
      invariant buf[size..] == old(buf[size..])
    {
      assert hex[..2 * (idx + 1)][..2 * idx] == hex[..2 * idx];
      buf[idx] := UnhexPair(hex[2 * idx], hex[2 * idx + 1]);
      assert buf[..idx + 1] == buf[..idx] + [buf[idx]];
    }
  }
}

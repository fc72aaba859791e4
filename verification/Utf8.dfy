/** Well-formed UTF-8, as table 3-7 of the Unicode Standard lists it. */
module Utf8 {
  import opened Bytes

  predicate Continuation(b: Byte) {
    0x80 <= b <= 0xBF
  }

  /** The length of the well-formed character at the front of s, or 0. */
  function FrontLength(s: Bytes): (n: nat)
    ensures n <= |s| && n <= 4
  {
    if |s| >= 1 && s[0] <= 0x7F then 1
    else if |s| >= 2 && 0xC2 <= s[0] <= 0xDF && Continuation(s[1]) then 2
    else if |s| >= 3 && ThreeByteLead(s[0], s[1]) && Continuation(s[2]) then 3
    else if |s| >= 4 && FourByteLead(s[0], s[1]) && Continuation(s[2]) && Continuation(s[3]) then 4
    else 0
  }

  predicate ThreeByteLead(a: Byte, b: Byte) {
    || (a == 0xE0 && 0xA0 <= b <= 0xBF)
    || (0xE1 <= a <= 0xEC && Continuation(b))
    || (a == 0xED && 0x80 <= b <= 0x9F)
    || (0xEE <= a <= 0xEF && Continuation(b))
  }

  predicate FourByteLead(a: Byte, b: Byte) {
    || (a == 0xF0 && 0x90 <= b <= 0xBF)
    || (0xF1 <= a <= 0xF3 && Continuation(b))
    || (a == 0xF4 && 0x80 <= b <= 0x8F)
  }

  predicate WellFormed(s: Bytes) {
    s == [] || (FrontLength(s) > 0 && WellFormed(s[FrontLength(s)..]))
  }

  // What is well formed.

  /** A Unicode scalar value: a code point that is no surrogate. */
  predicate IsScalar(c: nat) {
    c < 0x11_0000 && !(0xD800 <= c < 0xE000)
  }

  /** The bytes of a scalar value: as few as hold it, with six bits in each but the first. */
  function ScalarBytes(c: nat): (r: Bytes)
    requires IsScalar(c)
    ensures 1 <= |r| <= 4
  {
    if c < 0x80 then [c]
    else if c < 0x800 then [0xC0 + c / 64, 0x80 + c % 64]
    else if c < 0x1_0000 then [0xE0 + c / 64 / 64, 0x80 + c / 64 % 64, 0x80 + c % 64]
    else [0xF0 + c / 64 / 64 / 64, 0x80 + c / 64 / 64 % 64, 0x80 + c / 64 % 64, 0x80 + c % 64]
  }

  function TextBytes(cs: seq<nat>): Bytes
    requires forall i :: 0 <= i < |cs| ==> IsScalar(cs[i])
  {
    if cs == [] then [] else ScalarBytes(cs[0]) + TextBytes(cs[1..])
  }

  /** Six bits are appended and taken off again. */
  lemma SixBits(high: nat, low: nat)
    requires low < 64
    ensures (64 * high + low) / 64 == high && (64 * high + low) % 64 == low
  {
  }

  /** The bytes of any scalar value are a well-formed front. */
  lemma ScalarIsFront(c: nat, rest: Bytes)
    requires IsScalar(c)
    ensures FrontLength(ScalarBytes(c) + rest) == |ScalarBytes(c)|
  {
    var s := ScalarBytes(c) + rest;
    var d := c / 64;
    var e := d / 64;
    assert c == 64 * d + c % 64 && d == 64 * e + d % 64;
    if 0x80 <= c < 0x800 {
      assert s[0] == 0xC0 + d && s[1] == 0x80 + c % 64;
    } else if 0x800 <= c < 0x1_0000 {
      assert s[0] == 0xE0 + e && s[1] == 0x80 + d % 64 && s[2] == 0x80 + c % 64;
    } else if 0x1_0000 <= c {
      assert s[0] == 0xF0 + e / 64 && s[1] == 0x80 + e % 64 && s[2] == 0x80 + d % 64 && s[3] == 0x80 + c % 64;
    }
  }

  lemma TwoBytes(lead: nat, second: nat) returns (c: nat)
    requires 0xC2 <= lead <= 0xDF && 0x80 <= second <= 0xBF
    ensures IsScalar(c) && ScalarBytes(c) == [lead, second]
  {
    c := 64 * (lead - 0xC0) + (second - 0x80);
    SixBits(lead - 0xC0, second - 0x80);
  }

  lemma ThreeBytes(lead: Byte, second: Byte, third: nat) returns (c: nat)
    requires ThreeByteLead(lead, second) && 0x80 <= third <= 0xBF
    ensures IsScalar(c) && ScalarBytes(c) == [lead, second, third]
  {
    var d: nat := 64 * (lead as int - 0xE0) + (second as int - 0x80);
    c := 64 * d + (third - 0x80);
    SixBits(lead - 0xE0, second - 0x80);
    SixBits(d, third - 0x80);
  }

  lemma FourBytes(lead: Byte, second: Byte, third: nat, fourth: nat) returns (c: nat)
    requires FourByteLead(lead, second) && 0x80 <= third <= 0xBF && 0x80 <= fourth <= 0xBF
    ensures IsScalar(c) && ScalarBytes(c) == [lead, second, third, fourth]
  {
    var e: nat := 64 * (lead as int - 0xF0) + (second as int - 0x80);
    var d := 64 * e + (third - 0x80);
    c := 64 * d + (fourth - 0x80);
    SixBits(lead - 0xF0, second - 0x80);
    SixBits(e, third - 0x80);
    SixBits(d, fourth - 0x80);
  }

  /** A well-formed front is the bytes of a scalar value. */
  lemma FrontIsScalar(s: Bytes) returns (c: nat)
    requires FrontLength(s) > 0
    ensures IsScalar(c) && ScalarBytes(c) == s[..FrontLength(s)]
  {
    hide ScalarBytes, ThreeByteLead, FourByteLead;
    var n := FrontLength(s);
    if n == 1 {
      c := s[0];
      OneByte(c);
    } else if n == 2 {
      c := TwoBytes(s[0], s[1]);
    } else if n == 3 {
      c := ThreeBytes(s[0], s[1], s[2]);
    } else {
      c := FourBytes(s[0], s[1], s[2], s[3]);
    }
    assert s[..n] == ScalarBytes(c);
  }

  lemma OneByte(c: nat)
    requires c < 0x80
    ensures ScalarBytes(c) == [c]
  {
  }

  lemma {:induction false} TextIsWellFormed(cs: seq<nat>)
    requires forall i :: 0 <= i < |cs| ==> IsScalar(cs[i])
    ensures WellFormed(TextBytes(cs))
  {
    hide FrontLength, ScalarBytes;
    if cs != [] {
      var rest := TextBytes(cs[1..]);
      ScalarIsFront(cs[0], rest);
      TextIsWellFormed(cs[1..]);
      assert (ScalarBytes(cs[0]) + rest)[|ScalarBytes(cs[0])|..] == rest;
    }
  }

  lemma {:induction false} WellFormedIsText(s: Bytes) returns (cs: seq<nat>)
    requires WellFormed(s)
    ensures (forall i :: 0 <= i < |cs| ==> IsScalar(cs[i])) && TextBytes(cs) == s
    decreases |s|
  {
    hide FrontLength, ScalarBytes;
    if s == [] {
      cs := [];
    } else {
      var n := FrontLength(s);
      var c := FrontIsScalar(s);
      var rest := WellFormedIsText(s[n..]);
      cs := [c] + rest;
      assert cs[1..] == rest && s == s[..n] + s[n..];
    }
  }

  /** Exactly the encodings of sequences of scalar values are well formed. */
  lemma WellFormedIff(s: Bytes)
    ensures WellFormed(s) <==>
            exists cs: seq<nat> :: (forall i :: 0 <= i < |cs| ==> IsScalar(cs[i])) && TextBytes(cs) == s
  {
    hide WellFormed, TextBytes;
    if WellFormed(s) { var cs := WellFormedIsText(s); }
    if cs: seq<nat> :| (forall i :: 0 <= i < |cs| ==> IsScalar(cs[i])) && TextBytes(cs) == s { TextIsWellFormed(cs); }
  }

  predicate IsAscii(s: Bytes) {
    forall i :: 0 <= i < |s| ==> s[i] <= 0x7F
  }

  lemma {:induction false} AsciiIsWellFormed(s: Bytes)
    requires IsAscii(s)
    ensures WellFormed(s)
  {
    if s != [] { AsciiIsWellFormed(s[1..]); }
  }

  function LowerByte(b: Byte): Byte {
    if 'A' as int <= b <= 'Z' as int then b + 32 else b
  }

  function AsciiLower(s: Bytes): (r: Bytes)
    ensures |r| == |s|
  {
    seq(|s|, i requires 0 <= i < |s| => LowerByte(s[i]))
  }

  lemma AsciiLowerIsAscii(s: Bytes)
    requires IsAscii(s)
    ensures IsAscii(AsciiLower(s))
  {
  }
}

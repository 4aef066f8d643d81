/** UTF-8 as in sections 3 and 4 of RFC 3629: the encoder, and the decoder the sanitizer relies on. */
module Utf8 {
  import opened Text

  const RUNE_ERROR := 0xFFFD

  predicate IsScalar(cp: int) {
    0 <= cp < 0xD800 || 0xE000 <= cp <= 0x10FFFF
  }

  function Encode(cp: int): (r: seq<Byte>)
    requires IsScalar(cp)
    ensures 1 <= |r| <= 4
  {
    if cp < 0x80 then [cp]
    else if cp < 0x800 then [0xC0 + cp / 0x40, 0x80 + cp % 0x40]
    else if cp < 0x10000 then [0xE0 + cp / 0x1000, 0x80 + cp / 0x40 % 0x40, 0x80 + cp % 0x40]
    else [0xF0 + cp / 0x40000, 0x80 + cp / 0x1000 % 0x40, 0x80 + cp / 0x40 % 0x40, 0x80 + cp % 0x40]
  }

  predicate IsTail(b: Byte) {
    0x80 <= b <= 0xBF
  }

  /** How many bytes a sequence starting with b takes; 0 if no sequence starts with b. */
  function Width(b: Byte): (n: nat)
    ensures n <= 4
  {
    if b < 0x80 then 1
    else if b < 0xC2 then 0
    else if b < 0xE0 then 2
    else if b < 0xF0 then 3
    else if b < 0xF5 then 4
    else 0
  }

  /** The second byte is narrower after E0, ED, F0 and F4: no overlong forms, surrogates or values above 10FFFF. */
  predicate SecondOk(b0: Byte, b1: Byte) {
    IsTail(b1)
    && (b0 == 0xE0 ==> b1 >= 0xA0) && (b0 == 0xED ==> b1 <= 0x9F)
    && (b0 == 0xF0 ==> b1 >= 0x90) && (b0 == 0xF4 ==> b1 <= 0x8F)
  }

  datatype Decoded = Rune(cp: int, size: nat) | Invalid

  /** Reads the first code point of s; anything that is not a whole sequence is Invalid and one byte long. */
  function Decode(s: seq<Byte>): Decoded
    requires s != []
  {
    var n := Width(s[0]);
    if n == 0 || |s| < n then Invalid
    else if n == 1 then Rune(s[0], 1)
    else if !SecondOk(s[0], s[1]) then Invalid
    else if n == 2 then Rune(Value2(s[0], s[1]), 2)
    else if !IsTail(s[2]) then Invalid
    else if n == 3 then Rune(Value3(s[0], s[1], s[2]), 3)
    else if !IsTail(s[3]) then Invalid
    else Rune(Value4(s[0], s[1], s[2], s[3]), 4)
  }

  function Value2(b0: int, b1: int): int {
    (b0 - 0xC0) * 0x40 + (b1 - 0x80)
  }

  function Value3(b0: int, b1: int, b2: int): int {
    (b0 - 0xE0) * 0x1000 + (b1 - 0x80) * 0x40 + (b2 - 0x80)
  }

  function Value4(b0: int, b1: int, b2: int, b3: int): int {
    (b0 - 0xF0) * 0x40000 + (b1 - 0x80) * 0x1000 + (b2 - 0x80) * 0x40 + (b3 - 0x80)
  }

  /** s is the beginning of a sequence, but not yet a whole one. */
  predicate IsPartial(s: seq<Byte>) {
    && 0 < |s| < Width(s[0])
    && (|s| > 1 ==> SecondOk(s[0], s[1]))
    && (|s| > 2 ==> IsTail(s[2]))
  }

  /** What the decoder reads is the encoding of what it returns. */
  lemma DecodeSound(s: seq<Byte>)
    requires s != [] && Decode(s).Rune?
    ensures IsScalar(Decode(s).cp) && 0 < Decode(s).size <= |s| && Encode(Decode(s).cp) == s[..Decode(s).size]
  {
    var n := Decode(s).size;
    if n == 2 {
      Digits2(s[0], s[1]);
      assert s[..2] == [s[0], s[1]];
    } else if n == 3 {
      Digits3(s[0], s[1], s[2]);
      assert s[..3] == [s[0], s[1], s[2]];
    } else if n == 4 {
      Digits4(s[0], s[1], s[2], s[3]);
      assert s[..4] == [s[0], s[1], s[2], s[3]];
    } else {
      assert s[..1] == [s[0]];
    }
  }

  lemma Digits2(b0: int, b1: int)
    requires 0xC2 <= b0 < 0xE0 && 0x80 <= b1 <= 0xBF
    ensures var cp := Value2(b0, b1); 0x80 <= cp < 0x800 && cp / 0x40 == b0 - 0xC0 && cp % 0x40 == b1 - 0x80
  {
  }

  lemma Split3(a: int, b: int, c: int)
    requires 0 <= b < 0x40 && 0 <= c < 0x40
    ensures var cp := a * 0x1000 + b * 0x40 + c;
            cp / 0x1000 == a && cp / 0x40 % 0x40 == b && cp % 0x40 == c
  {
    var cp := a * 0x1000 + b * 0x40 + c;
    assert cp == (a * 0x40 + b) * 0x40 + c;
    assert cp / 0x40 == a * 0x40 + b;
  }

  lemma Digits3(b0: Byte, b1: Byte, b2: Byte)
    requires 0xE0 <= b0 < 0xF0 && SecondOk(b0, b1) && IsTail(b2)
    ensures var cp := Value3(b0, b1, b2);
            && 0x800 <= cp < 0x10000 && IsScalar(cp)
            && cp / 0x1000 == b0 - 0xE0 && cp / 0x40 % 0x40 == b1 - 0x80 && cp % 0x40 == b2 - 0x80
  {
    Split3(b0 - 0xE0, b1 - 0x80, b2 - 0x80);
  }

  lemma Digits4(b0: Byte, b1: Byte, b2: Byte, b3: Byte)
    requires 0xF0 <= b0 < 0xF5 && SecondOk(b0, b1) && IsTail(b2) && IsTail(b3)
    ensures var cp := Value4(b0, b1, b2, b3);
            && 0x10000 <= cp <= 0x10FFFF
            && cp / 0x40000 == b0 - 0xF0 && cp / 0x1000 % 0x40 == b1 - 0x80
            && cp / 0x40 % 0x40 == b2 - 0x80 && cp % 0x40 == b3 - 0x80
  {
    var high: int := (b0 as int - 0xF0) * 0x40 + (b1 - 0x80);
    Split3(high, b2 - 0x80, b3 - 0x80);
    assert Value4(b0, b1, b2, b3) == high * 0x1000 + (b2 as int - 0x80) * 0x40 + (b3 - 0x80);
  }

  /** The decoder reads back every encoded code point, whatever follows it. */
  lemma DecodeEncode(cp: int, rest: seq<Byte>)
    requires IsScalar(cp)
    ensures Decode(Encode(cp) + rest) == Rune(cp, |Encode(cp)|)
  {
    var e := Encode(cp);
    var s := e + rest;
    assert s[0] == e[0] && (|e| > 1 ==> s[1] == e[1]) && (|e| > 2 ==> s[2] == e[2]) && (|e| > 3 ==> s[3] == e[3]);
    if 0x80 <= cp < 0x800 {
      assert Value2(e[0], e[1]) == cp;
    } else if 0x800 <= cp < 0x10000 {
      Encoded3(cp);
    } else if 0x10000 <= cp {
      Encoded4(cp);
    }
  }

  lemma Encoded3(cp: int)
    requires IsScalar(cp) && 0x800 <= cp < 0x10000
    ensures var e := Encode(cp); |e| == 3 && 0xE0 <= e[0] < 0xF0 && SecondOk(e[0], e[1]) && IsTail(e[2])
    ensures var e := Encode(cp); Value3(e[0], e[1], e[2]) == cp
  {
    var a, b, c := cp / 0x1000, cp / 0x40 % 0x40, cp % 0x40;
    assert cp == a * 0x1000 + b * 0x40 + c;
  }

  lemma Encoded4(cp: int)
    requires 0x10000 <= cp <= 0x10FFFF
    ensures var e := Encode(cp); |e| == 4 && 0xF0 <= e[0] < 0xF5 && SecondOk(e[0], e[1]) && IsTail(e[2]) && IsTail(e[3])
    ensures var e := Encode(cp); Value4(e[0], e[1], e[2], e[3]) == cp
  {
    var high, c, d := cp / 0x1000, cp / 0x40 % 0x40, cp % 0x40;
    var a, b := cp / 0x40000, high % 0x40;
    assert cp == high * 0x1000 + c * 0x40 + d;
    assert high == a * 0x40 + b;
  }

  /** Every partial sequence can be finished so that it means a code point from 0xA0 on, but U+FFFD. */
  lemma Completion(s: seq<Byte>) returns (tail: seq<Byte>)
    requires IsPartial(s)
    ensures forall i :: 0 <= i < |tail| ==> IsTail(tail[i])
    ensures Decode(s + tail).Rune? && Decode(s + tail).size == |s| + |tail|
    ensures Decode(s + tail).cp >= 0xA0 && Decode(s + tail).cp != RUNE_ERROR
  {
    var second: Byte := if s[0] == 0xC2 || s[0] == 0xE0 then 0xA0 else if s[0] == 0xF0 then 0x90 else 0x80;
    tail := if |s| == 1 then [second, 0x80, 0x80][..Width(s[0]) - 1] else [0x80, 0x80][..Width(s[0]) - |s|];
    var w := s + tail;
    assert forall i :: 0 <= i < |s| ==> w[i] == s[i];
    assert forall i :: 0 <= i < |tail| ==> w[|s| + i] == tail[i];
  }

  /** The examples of section 7 of RFC 3629. */
  lemma KnownEncodings()
    ensures Encode(0x41) == [0x41] && Encode(0x0391) == [0xCE, 0x91]
    ensures Encode(0x2262) == [0xE2, 0x89, 0xA2] && Encode(0x233B4) == [0xF0, 0xA3, 0x8E, 0xB4]
  {
  }
}

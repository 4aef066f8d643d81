/**
 The terminal sanitizer: what it removes from guest output, what it keeps, and when
 sanitizing chunk by chunk is the same as sanitizing the whole stream.
 */
module TermSafe {
  import opened Text
  import opened Utf8

  type Bytes = seq<Byte>

  const ESC: Byte := 0x1B
  const BEL: Byte := 0x07
  const BACKSLASH: Byte := 0x5C

  // ---------------------------------------------------------------- control sequences

  /** A final byte of a control sequence (section 5.4 of ECMA-48). */
  predicate IsFinal(b: Byte) {
    0x40 <= b <= 0x7E
  }

  /** "[" opens a control sequence (section 5.4 of ECMA-48). */
  predicate OpensControlSequence(b: Byte) {
    b == 0x5B
  }

  /** "]", "P", "_", "^" and "X" open a control string (section 5.6 of ECMA-48). */
  predicate OpensString(b: Byte) {
    b == 0x5D || b == 0x50 || b == 0x5F || b == 0x5E || b == 0x58
  }

  /** A control string ends at s[k] with BEL, or at s[k] and s[k + 1] with ESC backslash. */
  predicate EndsString(s: Bytes, k: nat)
    requires k < |s|
  {
    s[k] == BEL || (s[k] == ESC && k + 1 < |s| && s[k + 1] == BACKSLASH)
  }

  /** e, which starts with ESC, is one whole escape sequence as the code delimits them. */
  ghost predicate WholeEscape(e: Bytes) {
    && |e| >= 2 && e[0] == ESC
    && if OpensControlSequence(e[1]) then
         |e| >= 3 && IsFinal(e[|e| - 1]) && forall k :: 2 <= k < |e| - 1 ==> !IsFinal(e[k])
       else if OpensString(e[1]) then
         exists n :: 2 <= n < |e| && EndsString(e, n) && |e| == (if e[n] == BEL then n + 1 else n + 2) &&
                     forall k :: 2 <= k < n ==> !EndsString(e, k)
       else |e| == 2
  }

  /** e, which starts with ESC, is an escape sequence that has not ended yet. */
  ghost predicate OpenEscape(e: Bytes) {
    && |e| >= 1 && e[0] == ESC
    && (|e| == 1
        || (OpensControlSequence(e[1]) && forall k :: 2 <= k < |e| ==> !IsFinal(e[k]))
        || (OpensString(e[1]) && forall k :: 2 <= k < |e| ==> !EndsString(e, k)))
  }

  // ---------------------------------------------------------------- the scan, as functions

  function ControlSequenceEnd(s: Bytes, i: nat): (j: nat)
    requires i <= |s|
    ensures i <= j <= |s|
    decreases |s| - i
  {
    if i == |s| then i else if 0x40 <= s[i] <= 0x7E then i + 1 else ControlSequenceEnd(s, i + 1)
  }

  function StringEnd(s: Bytes, i: nat): (j: nat)
    requires i <= |s|
    ensures i <= j <= |s|
    decreases |s| - i
  {
    if i == |s| then i
    else if s[i] == 0x07 then i + 1
    else if s[i] == 0x1B && i + 1 < |s| && s[i + 1] == 0x5C then i + 2
    else StringEnd(s, i + 1)
  }

  /** The index after the escape sequence whose ESC precedes s[i]. */
  function EscapeEnd(s: Bytes, i: nat): (j: nat)
    requires i <= |s|
    ensures i <= j <= |s|
  {
    if i == |s| then i
    else if s[i] == 0x5B then ControlSequenceEnd(s, i + 1)
    else if s[i] in {0x5D, 0x50, 0x5F, 0x5E, 0x58} then StringEnd(s, i + 1)
    else i + 1
  }

  predicate IsKeptRune(cp: int) {
    cp != RUNE_ERROR && (cp < 0x80 || cp > 0x9F)
  }

  /** The index after the item that starts at s[i]. */
  function NextIndex(s: Bytes, i: nat): (j: nat)
    requires i < |s|
    ensures i < j <= |s|
  {
    if s[i] == ESC then EscapeEnd(s, i + 1)
    else if s[i] < 0x80 then i + 1
    else
      match Decode(s[i..])
      case Rune(_, size) => DecodeSound(s[i..]); i + size
      case Invalid => i + 1
  }

  /** What is kept of the item that starts at s[i]. */
  function Kept(s: Bytes, i: nat): Bytes
    requires i < |s|
  {
    if s[i] == 0x0A || s[i] == 0x09 then [s[i]]
    else if s[i] < 0x20 || s[i] == 0x7F then []
    else if s[i] < 0x80 then [s[i]]
    else
      match Decode(s[i..])
      case Rune(cp, size) => DecodeSound(s[i..]); if IsKeptRune(cp) then s[i..i + size] else []
      case Invalid => []
  }

  function Sanitized(s: Bytes, i: nat): Bytes
    requires i <= |s|
    decreases |s| - i
  {
    if i == |s| then [] else Kept(s, i) + Sanitized(s, NextIndex(s, i))
  }

  function Sanitize(s: Bytes): Bytes {
    Sanitized(s, 0)
  }

  // ---------------------------------------------------------------- the code

  method SkipEscape(s: Bytes, start: nat) returns (i: nat)
    requires start <= |s|
    ensures i == EscapeEnd(s, start)
  {
    i := start;
    if i >= |s| { return; }
    if s[i] == '[' as int {
      i := i + 1;
      while i < |s|
        invariant i <= |s| && EscapeEnd(s, start) == ControlSequenceEnd(s, i)
      {
        if s[i] >= 0x40 && s[i] <= 0x7E { return i + 1; }
        i := i + 1;
      }
    } else if s[i] in {']' as int, 'P' as int, '_' as int, '^' as int, 'X' as int} {
      i := i + 1;
      while i < |s|
        invariant i <= |s| && EscapeEnd(s, start) == StringEnd(s, i)
      {
        if s[i] == 0x07 { return i + 1; }
        if s[i] == 0x1B && i + 1 < |s| && s[i + 1] == '\\' as int { return i + 2; }
        i := i + 1;
      }
    } else {
      i := i + 1;
    }
  }

  predicate IsPlain(b: Byte) {
    b == 0x0A || b == 0x09 || 0x20 <= b < 0x7F
  }

  method NeedsSanitizing(s: Bytes) returns (r: bool)
    ensures r <==> exists i :: 0 <= i < |s| && !IsPlain(s[i])
  {
    for i := 0 to |s|
      invariant forall k :: 0 <= k < i ==> IsPlain(s[k])
    {
      var c := s[i];
      if (c < 0x20 && c != 0x0A && c != 0x09) || c == 0x7F || c >= 0x80 { return true; }
    }
    r := false;
  }

  /** With its fast path and its loop, the code computes Sanitize. */
  method SanitizeTerminal(s: Bytes) returns (out: Bytes)
    ensures out == Sanitize(s)
  {
    var needs := NeedsSanitizing(s);
    if !needs {
      PlainIsKept(s, 0);
      return s;
    }
    out := [];
    var i := 0;
    while i < |s|
      invariant i <= |s| && Sanitize(s) == out + Sanitized(s, i)
      decreases |s| - i
    {
      ScanStep(s, out, i);
      out, i := ScanItem(s, out, i);
    }
  }

  /** The body of the loop: one item. */
  method ScanItem(s: Bytes, before: Bytes, at: nat) returns (out: Bytes, i: nat)
    requires at < |s|
    ensures out == before + Kept(s, at) && i == NextIndex(s, at)
  {
    out, i := before, at + 1;
    var c := s[at];
    if c == ESC {
      i := SkipEscape(s, at + 1);
    } else if c == 0x0A || c == 0x09 {
      out := out + [c];
    } else if c < 0x20 || c == 0x7F {
    } else if c < 0x80 {
      out := out + [c];
    } else {
      match Decode(s[at..])
      case Rune(cp, size) =>
        DecodeSound(s[at..]);
        if IsKeptRune(cp) {
          out := out + s[at..at + size];
        }
        i := at + size;
      case Invalid =>
    }
  }

  lemma ScanStep(s: Bytes, out: Bytes, i: nat)
    requires i < |s|
    ensures out + Sanitized(s, i) == (out + Kept(s, i)) + Sanitized(s, NextIndex(s, i))
  {
  }

  lemma SanitizedUnfolds(s: Bytes, i: nat, j: nat, kept: Bytes)
    requires i < |s| && j == NextIndex(s, i) && kept == Kept(s, i)
    ensures Sanitized(s, i) == kept + Sanitized(s, j)
  {
  }

  lemma AppendAssociates(x: Bytes, y: Bytes, z: Bytes)
    ensures (x + y) + z == x + (y + z)
  {
  }

  lemma {:induction false} PlainIsKept(s: Bytes, i: nat)
    requires i <= |s| && forall k :: 0 <= k < |s| ==> IsPlain(s[k])
    ensures Sanitized(s, i) == s[i..]
    decreases |s| - i
  {
    if i < |s| {
      PlainIsKept(s, i + 1);
    }
  }

  // ---------------------------------------------------------------- escape sequences are dropped whole

  lemma {:induction false} ControlSequenceEndMeaning(s: Bytes, i: nat)
    requires i <= |s|
    ensures var j := ControlSequenceEnd(s, i);
            || (i < j && IsFinal(s[j - 1]) && forall k :: i <= k < j - 1 ==> !IsFinal(s[k]))
            || (j == |s| && forall k :: i <= k < |s| ==> !IsFinal(s[k]))
    decreases |s| - i
  {
    if i < |s| && !IsFinal(s[i]) {
      ControlSequenceEndMeaning(s, i + 1);
    }
  }

  lemma {:induction false} StringEndMeaning(s: Bytes, i: nat) returns (n: nat)
    requires i <= |s|
    ensures i <= n <= |s| && forall k :: i <= k < n ==> !EndsString(s, k)
    ensures n < |s| ==> EndsString(s, n) && StringEnd(s, i) == if s[n] == BEL then n + 1 else n + 2
    ensures n == |s| ==> StringEnd(s, i) == |s|
    decreases |s| - i
  {
    if i == |s| || EndsString(s, i) {
      n := i;
    } else {
      n := StringEndMeaning(s, i + 1);
    }
  }

  /** What the scan skips at an ESC is one whole escape sequence, or an unfinished one up to the end. */
  lemma EscapeIsWhole(s: Bytes, i: nat)
    requires i < |s| && s[i] == ESC
    ensures var j := NextIndex(s, i);
            WholeEscape(s[i..j]) || (j == |s| && OpenEscape(s[i..]))
  {
    var j := NextIndex(s, i);
    var e := s[i..j];
    if i + 1 < |s| {
      if OpensControlSequence(s[i + 1]) {
        ControlSequenceEndMeaning(s, i + 2);
      } else if OpensString(s[i + 1]) {
        var n := StringEndMeaning(s, i + 2);
        if n < |s| {
          assert EndsString(e, n - i);
          forall k | 2 <= k < n - i ensures !EndsString(e, k) {
            assert !EndsString(s, i + k);
          }
        } else {
          forall k | 2 <= k < |s| - i ensures !EndsString(s[i..], k) {
            assert !EndsString(s, i + k);
          }
        }
      }
    }
  }

  // ---------------------------------------------------------------- the output is plain text

  /** The code points a sanitized stream may contain. */
  predicate IsTextPoint(cp: int) {
    && IsScalar(cp) && cp != 0xFFFD
    && (cp == 0x09 || cp == 0x0A || 0x20 <= cp < 0x7F || cp >= 0xA0)
  }

  ghost predicate AllText(cps: seq<int>) {
    forall i :: 0 <= i < |cps| ==> IsTextPoint(cps[i])
  }

  ghost function EncodeText(cps: seq<int>): Bytes
    requires AllText(cps)
  {
    if cps == [] then [] else Encode(cps[0]) + EncodeText(cps[1..])
  }

  /** s is valid UTF-8 with no control characters but tab and newline, no C1 code point and no U+FFFD. */
  ghost predicate IsText(s: Bytes) {
    exists cps :: AllText(cps) && EncodeText(cps) == s
  }

  lemma {:induction false} EncodeTextAppend(a: seq<int>, b: seq<int>)
    requires AllText(a) && AllText(b)
    ensures AllText(a + b) && EncodeText(a + b) == EncodeText(a) + EncodeText(b)
  {
    if a == [] {
      assert a + b == b;
    } else {
      assert (a + b)[1..] == a[1..] + b;
      EncodeTextAppend(a[1..], b);
      AppendAssociates(Encode(a[0]), EncodeText(a[1..]), EncodeText(b));
    }
  }

  lemma TextAppend(a: Bytes, b: Bytes)
    requires IsText(a) && IsText(b)
    ensures IsText(a + b)
  {
    var x :| AllText(x) && EncodeText(x) == a;
    var y :| AllText(y) && EncodeText(y) == b;
    EncodeTextAppend(x, y);
  }

  lemma KeptIsText(s: Bytes, i: nat)
    requires i < |s|
    ensures IsText(Kept(s, i))
  {
    var kept := Kept(s, i);
    if kept == [] {
      assert EncodeText([]) == kept;
    } else {
      var cp := if s[i] < 0x80 then s[i] as int else Decode(s[i..]).cp;
      if s[i] >= 0x80 {
        DecodeSound(s[i..]);
        assert s[i..][..Decode(s[i..]).size] == kept;
      }
      assert Encode(cp) == kept;
      assert IsTextPoint(cp) by { AboveAscii(s, i); }
      assert EncodeText([cp]) == Encode(cp) + EncodeText([cp][1..]);
    }
  }

  lemma AboveAscii(s: Bytes, i: nat)
    requires i < |s|
    ensures s[i] >= 0x80 && Decode(s[i..]).Rune? ==> Decode(s[i..]).cp >= 0x80
  {
    if s[i] >= 0x80 && Decode(s[i..]).Rune? {
      DecodeSound(s[i..]);
      assert Encode(Decode(s[i..]).cp)[0] == s[i];
    }
  }

  lemma {:induction false} SanitizedIsText(s: Bytes, i: nat)
    requires i <= |s|
    ensures IsText(Sanitized(s, i))
    decreases |s| - i
  {
    if i == |s| {
      assert EncodeText([]) == [];
    } else {
      KeptIsText(s, i);
      SanitizedIsText(s, NextIndex(s, i));
      TextAppend(Kept(s, i), Sanitized(s, NextIndex(s, i)));
    }
  }

  /** Seen as bytes: text has no ESC, no C0 control but tab and newline, and no DEL. */
  lemma {:induction false} TextBytes(cps: seq<int>, k: nat)
    requires AllText(cps) && k < |EncodeText(cps)|
    ensures var b := EncodeText(cps)[k]; b == 0x09 || b == 0x0A || (b >= 0x20 && b != 0x7F)
    decreases |cps|
  {
    var n := |Encode(cps[0])|;
    if k >= n {
      TextBytes(cps[1..], k - n);
    }
  }

  // ---------------------------------------------------------------- scanning what follows

  lemma {:induction false} ControlSequenceEndShift(a: Bytes, b: Bytes, i: nat)
    requires i <= |b|
    ensures ControlSequenceEnd(a + b, |a| + i) == |a| + ControlSequenceEnd(b, i)
    decreases |b| - i
  {
    if i < |b| && !IsFinal(b[i]) {
      ControlSequenceEndShift(a, b, i + 1);
    }
  }

  lemma {:induction false} StringEndShift(a: Bytes, b: Bytes, i: nat)
    requires i <= |b|
    ensures StringEnd(a + b, |a| + i) == |a| + StringEnd(b, i)
    decreases |b| - i
  {
    if i < |b| {
      assert EndsString(a + b, |a| + i) == EndsString(b, i);
      if !EndsString(b, i) {
        StringEndShift(a, b, i + 1);
      }
    }
  }

  lemma EscapeEndShift(a: Bytes, b: Bytes, i: nat)
    requires i <= |b|
    ensures EscapeEnd(a + b, |a| + i) == |a| + EscapeEnd(b, i)
  {
    if i < |b| {
      assert (a + b)[|a| + i] == b[i];
      ControlSequenceEndShift(a, b, i + 1);
      StringEndShift(a, b, i + 1);
    }
  }

  /** An item from 0x80 on depends only on the bytes from it on. */
  lemma RuneLocal(s: Bytes, i: nat, t: Bytes, k: nat)
    requires i < |s| && k < |t| && s[i] >= 0x80 && s[i] == t[k] && Decode(s[i..]) == Decode(t[k..])
    requires Decode(s[i..]).Rune? ==> s[i..][..Decode(s[i..]).size] == t[k..][..Decode(s[i..]).size]
    ensures NextIndex(s, i) - i == NextIndex(t, k) - k && Kept(s, i) == Kept(t, k)
  {
    if Decode(s[i..]).Rune? {
      DecodeSound(s[i..]);
      DecodeSound(t[k..]);
      var n := Decode(s[i..]).size;
      assert s[i..][..n] == s[i..i + n] && t[k..][..n] == t[k..k + n];
    }
  }

  lemma ItemShift(a: Bytes, b: Bytes, i: nat)
    requires i < |b|
    ensures NextIndex(a + b, |a| + i) == |a| + NextIndex(b, i)
    ensures Kept(a + b, |a| + i) == Kept(b, i)
  {
    assert (a + b)[|a| + i] == b[i];
    if b[i] == ESC {
      EscapeEndShift(a, b, i + 1);
    } else if b[i] >= 0x80 {
      assert (a + b)[|a| + i..] == b[i..];
      RuneLocal(a + b, |a| + i, b, i);
    }
  }

  lemma UnfoldPair(b: Bytes, i: nat, j: nat, c: Bytes, m: nat, n: nat, kept: Bytes)
    requires i < |b| && NextIndex(b, i) == j && Kept(b, i) == kept
    requires m < |c| && NextIndex(c, m) == n && Kept(c, m) == kept
    ensures Sanitized(b, i) == kept + Sanitized(b, j) && Sanitized(c, m) == kept + Sanitized(c, n)
  {
    SanitizedUnfolds(b, i, j, kept);
    SanitizedUnfolds(c, m, n, kept);
  }

  /** The item at i in b and the one at m in a + b. */
  lemma ItemPair(a: Bytes, b: Bytes, i: nat, m: nat) returns (j: nat, n: nat, kept: Bytes)
    requires i < |b| && m == |a| + i
    ensures i < j <= |b| && n == |a| + j
    ensures NextIndex(b, i) == j && Kept(b, i) == kept && NextIndex(a + b, m) == n && Kept(a + b, m) == kept
  {
    j, kept := NextIndex(b, i), Kept(b, i);
    n := |a| + j;
    ItemShift(a, b, i);
  }

  /** What is kept from |a| on in a + b is what is kept of b. */
  lemma {:induction false} SanitizedShift(a: Bytes, b: Bytes, i: nat, m: nat)
    requires i <= |b| && m == |a| + i
    ensures Sanitized(a + b, m) == Sanitized(b, i)
    decreases |b| - i
  {
    if i < |b| {
      var j, n, kept := ItemPair(a, b, i, m);
      UnfoldPair(b, i, j, a + b, m, n, kept);
      SanitizedShift(a, b, j, n);
    }
  }

  // ---------------------------------------------------------------- text is a fixpoint

  /** Every code point but ESC is one item, kept or dropped as a whole. */
  lemma PointIsOneItem(cp: int, rest: Bytes)
    requires IsScalar(cp) && cp != ESC as int
    ensures NextIndex(Encode(cp) + rest, 0) == |Encode(cp)|
    ensures Kept(Encode(cp) + rest, 0) == if IsTextPoint(cp) then Encode(cp) else []
  {
    var e := Encode(cp);
    var s := e + rest;
    DecodeEncode(cp, rest);
    assert s[0..] == s && s[0] == e[0];
    assert s[0..|e|] == e;
    assert cp >= 0x80 ==> e[0] >= 0x80;
  }

  lemma {:induction false} EncodedTextIsFixed(cps: seq<int>)
    requires AllText(cps)
    ensures Sanitize(EncodeText(cps)) == EncodeText(cps)
  {
    if cps != [] {
      var e, rest := Encode(cps[0]), EncodeText(cps[1..]);
      PointIsOneItem(cps[0], rest);
      SanitizedShift(e, rest, 0, |e|);
      EncodedTextIsFixed(cps[1..]);
    }
  }

  ghost predicate AllScalars(cps: seq<int>) {
    forall i :: 0 <= i < |cps| ==> IsScalar(cps[i]) && cps[i] != ESC as int
  }

  ghost function EncodeAll(cps: seq<int>): Bytes
    requires AllScalars(cps)
  {
    if cps == [] then [] else Encode(cps[0]) + EncodeAll(cps[1..])
  }

  ghost function TextPoints(cps: seq<int>): (r: seq<int>)
    ensures AllText(r)
  {
    if cps == [] then [] else (if IsTextPoint(cps[0]) then [cps[0]] else []) + TextPoints(cps[1..])
  }

  /** Of any code points but ESC, exactly the text points are kept, in order; a genuine U+FFFD is not. */
  lemma {:induction false} ExactlyTextPointsAreKept(cps: seq<int>)
    requires AllScalars(cps)
    ensures Sanitize(EncodeAll(cps)) == EncodeText(TextPoints(cps))
  {
    if cps != [] {
      var e, rest := Encode(cps[0]), EncodeAll(cps[1..]);
      PointIsOneItem(cps[0], rest);
      SanitizedUnfolds(e + rest, 0, |e|, Kept(e + rest, 0));
      SanitizedShift(e, rest, 0, |e|);
      ExactlyTextPointsAreKept(cps[1..]);
      FirstTextPoint(cps);
    }
  }

  lemma FirstTextPoint(cps: seq<int>)
    requires AllScalars(cps) && cps != []
    ensures EncodeText(TextPoints(cps))
         == (if IsTextPoint(cps[0]) then Encode(cps[0]) else []) + EncodeText(TextPoints(cps[1..]))
  {
    var more := TextPoints(cps[1..]);
    if IsTextPoint(cps[0]) {
      assert ([cps[0]] + more)[1..] == more;
    } else {
      assert [] + more == more;
    }
  }

  /** The replacement character is dropped although it is valid. */
  lemma ReplacementCharacterVanishes(rest: Bytes)
    ensures Sanitize(Encode(0xFFFD) + rest) == Sanitize(rest)
  {
    var e := Encode(RUNE_ERROR);
    PointIsOneItem(RUNE_ERROR, rest);
    SanitizedUnfolds(e + rest, 0, |e|, []);
    SanitizedShift(e, rest, 0, |e|);
  }

  /** Exactly the text streams pass through unchanged. */
  lemma TextIsFixpoint(s: Bytes)
    ensures IsText(s) <==> Sanitize(s) == s
  {
    SanitizedIsText(s, 0);
    if IsText(s) {
      var cps :| AllText(cps) && EncodeText(cps) == s;
      EncodedTextIsFixed(cps);
    }
  }

  // ---------------------------------------------------------------- nothing is invented

  ghost predicate IsSubsequence(a: Bytes, b: Bytes) {
    a == [] || (b != [] && ((a[0] == b[0] && IsSubsequence(a[1..], b[1..])) || IsSubsequence(a, b[1..])))
  }

  lemma {:induction false} SubsequenceAfter(a: Bytes, p: Bytes, b: Bytes)
    requires IsSubsequence(a, b)
    ensures IsSubsequence(a, p + b)
    ensures IsSubsequence(p + a, p + b)
  {
    if p == [] {
      assert p + b == b && p + a == a;
    } else {
      SubsequenceAfter(a, p[1..], b);
      assert (p + b)[1..] == p[1..] + b && (p + a)[1..] == p[1..] + a;
    }
  }

  lemma {:induction false} SanitizedIsSubsequence(s: Bytes, i: nat)
    requires i <= |s|
    ensures IsSubsequence(Sanitized(s, i), s[i..])
    decreases |s| - i
  {
    if i < |s| {
      var j := NextIndex(s, i);
      SanitizedIsSubsequence(s, j);
      SubsequenceAfter(Sanitized(s, j), s[i..j], s[j..]);
      assert s[i..j] + s[j..] == s[i..];
      if Kept(s, i) != [] && s[i] >= 0x80 {
        DecodeSound(s[i..]);
      }
      assert Kept(s, i) == s[i..j] || Kept(s, i) == [];
      assert [] + Sanitized(s, j) == Sanitized(s, j);
    }
  }

  // ---------------------------------------------------------------- chunks

  /** More bytes could still change the item at s[i]. */
  ghost predicate Unfinished(s: Bytes, i: nat)
    requires i < |s|
  {
    OpenEscape(s[i..]) || IsPartial(s[i..])
  }

  /** The scan from s[i] ends between two items: not inside an escape sequence or a code point. */
  ghost predicate Settled(s: Bytes, i: nat)
    requires i <= |s|
    decreases |s| - i
  {
    i == |s| || (!Unfinished(s, i) && Settled(s, NextIndex(s, i)))
  }

  lemma {:induction false} ControlSequenceEndStable(a: Bytes, b: Bytes, i: nat, k: nat)
    requires i <= k < |a| && IsFinal(a[k])
    ensures ControlSequenceEnd(a + b, i) == ControlSequenceEnd(a, i)
    decreases |a| - i
  {
    if !IsFinal(a[i]) {
      ControlSequenceEndStable(a, b, i + 1, k);
    }
  }

  lemma {:induction false} StringEndStable(a: Bytes, b: Bytes, i: nat, k: nat)
    requires i <= k < |a| && EndsString(a, k)
    ensures StringEnd(a + b, i) == StringEnd(a, i)
    decreases |a| - i
  {
    if !EndsString(a, i) {
      assert !EndsString(a + b, i);
      StringEndStable(a, b, i + 1, k);
    }
  }

  lemma DecodeStable(s: Bytes, b: Bytes)
    requires s != [] && !IsPartial(s)
    ensures Decode(s + b) == Decode(s)
  {
    var w := s + b;
    assert w[0] == s[0] && (|s| > 1 ==> w[1] == s[1]) && (|s| > 2 ==> w[2] == s[2]) && (|s| > 3 ==> w[3] == s[3]);
  }

  lemma EscapeStable(a: Bytes, b: Bytes, i: nat)
    requires i < |a| && a[i] == ESC && !OpenEscape(a[i..])
    ensures EscapeEnd(a + b, i + 1) == EscapeEnd(a, i + 1)
  {
    assert i + 1 < |a| && (a + b)[i + 1] == a[i + 1] == a[i..][1];
    if OpensControlSequence(a[i + 1]) {
      var k :| 2 <= k < |a[i..]| && IsFinal(a[i..][k]);
      ControlSequenceEndStable(a, b, i + 2, i + k);
    } else if OpensString(a[i + 1]) {
      var k :| 2 <= k < |a[i..]| && EndsString(a[i..], k);
      assert EndsString(a, i + k);
      StringEndStable(a, b, i + 2, i + k);
    }
  }

  /** A finished item is read the same whatever follows. */
  lemma ItemStable(a: Bytes, b: Bytes, i: nat)
    requires i < |a| && !Unfinished(a, i)
    ensures NextIndex(a + b, i) == NextIndex(a, i) && Kept(a + b, i) == Kept(a, i)
  {
    assert (a + b)[i] == a[i];
    if a[i] == ESC {
      EscapeStable(a, b, i);
    } else if a[i] >= 0x80 {
      assert (a + b)[i..] == a[i..] + b;
      DecodeStable(a[i..], b);
      if Decode(a[i..]).Rune? {
        DecodeSound(a[i..]);
      }
      RuneLocal(a + b, i, a, i);
    }
  }

  lemma {:induction false} SettledSplits(a: Bytes, b: Bytes, i: nat)
    requires i <= |a| && Settled(a, i)
    ensures Sanitized(a + b, i) == Sanitized(a, i) + Sanitize(b)
    decreases |a| - i
  {
    if i == |a| {
      SanitizedShift(a, b, 0, |a|);
    } else {
      var j, kept := NextIndex(a, i), Kept(a, i);
      ItemStable(a, b, i);
      SettledSplits(a, b, j);
      SanitizedUnfolds(a, i, j, kept);
      SanitizedUnfolds(a + b, i, j, kept);
      AppendAssociates(kept, Sanitized(a, j), Sanitize(b));
    }
  }

  lemma {:induction false} TailsAreDropped(s: Bytes, i: nat)
    requires i <= |s| && forall k :: i <= k < |s| ==> IsTail(s[k])
    ensures Sanitized(s, i) == []
    decreases |s| - i
  {
    if i < |s| {
      assert IsTail(s[i]);
      assert Width(s[i..][0]) == 0;
      TailsAreDropped(s, i + 1);
    }
  }

  lemma PartialIsDropped(a: Bytes, i: nat)
    requires i < |a| && IsPartial(a[i..])
    ensures Sanitized(a, i) == []
  {
    assert a[i..][0] == a[i];
    assert Decode(a[i..]) == Invalid;
    forall k | i + 1 <= k < |a| ensures IsTail(a[k]) {
      assert a[k] == a[i..][k - i];
    }
    TailsAreDropped(a, i + 1);
  }

  /** After an unfinished code point some continuation is kept in the whole but lost in pieces. */
  lemma PartialDiffers(a: Bytes, i: nat) returns (b: Bytes)
    requires i < |a| && IsPartial(a[i..])
    ensures Sanitized(a + b, i) != Sanitized(a, i) + Sanitize(b)
  {
    b := Completion(a[i..]);
    PartialIsDropped(a, i);
    TailsAreDropped(b, 0);
    assert |Kept(a + b, i)| > 0 by {
      assert (a + b)[i..] == a[i..] + b;
      assert (a + b)[i] == a[i..][0];
      DecodeSound((a + b)[i..]);
    }
  }

  /** Inside an escape sequence a letter is dropped in the whole but kept in pieces. */
  lemma OpenEscapeDiffers(a: Bytes, i: nat)
    requires i < |a| && OpenEscape(a[i..])
    ensures Sanitized(a + [0x41], i) != Sanitized(a, i) + Sanitize([0x41])
  {
    var s := a + [0x41];
    assert s[i] == a[i] == ESC;
    assert NextIndex(a, i) == |a| && NextIndex(s, i) == |s| by {
      if i + 1 < |a| {
        assert a[i + 1] == a[i..][1] == s[i + 1];
        if OpensControlSequence(a[i + 1]) {
          forall k | i + 2 <= k < |a| ensures !IsFinal(a[k]) {
            assert a[k] == a[i..][k - i];
          }
          ControlSequenceEndMeaning(a, i + 2);
          ControlSequenceEndMeaning(s, i + 2);
        } else {
          forall k | i + 2 <= k < |a| ensures !EndsString(a, k) {
            assert EndsString(a, k) == EndsString(a[i..], k - i);
          }
          forall k | i + 2 <= k < |s| ensures !EndsString(s, k) {
            assert k < |a| ==> !EndsString(a, k);
          }
          var n := StringEndMeaning(a, i + 2);
          var m := StringEndMeaning(s, i + 2);
        }
      }
    }
    PlainIsKept([0x41], 0);
    assert Sanitize([0x41]) == [0x41];
  }

  lemma CancelLeft(k: Bytes, whole: Bytes, x: Bytes, y: Bytes)
    requires whole != x + y
    ensures k + whole != (k + x) + y
  {
    assert (k + whole)[|k|..] == whole && ((k + x) + y)[|k|..] == x + y;
  }

  lemma {:induction false} UnsettledDiffers(a: Bytes, i: nat) returns (b: Bytes)
    requires i <= |a| && !Settled(a, i)
    ensures Sanitized(a + b, i) != Sanitized(a, i) + Sanitize(b)
    decreases |a| - i
  {
    if OpenEscape(a[i..]) {
      b := [0x41];
      OpenEscapeDiffers(a, i);
    } else if IsPartial(a[i..]) {
      b := PartialDiffers(a, i);
    } else {
      var j, kept := NextIndex(a, i), Kept(a, i);
      b := UnsettledDiffers(a, j);
      ItemStable(a, b, i);
      CancelLeft(kept, Sanitized(a + b, j), Sanitized(a, j), Sanitize(b));
    }
  }

  /**
   A stream may be cut after a, with the same result for every continuation, exactly when the
   scan of a ends between two items.
   */
  lemma CutIsSafeIffSettled(a: Bytes)
    ensures Settled(a, 0) <==> forall b :: Sanitize(a + b) == Sanitize(a) + Sanitize(b)
  {
    if Settled(a, 0) {
      forall b ensures Sanitize(a + b) == Sanitize(a) + Sanitize(b) {
        SettledSplits(a, b, 0);
      }
    } else {
      var b := UnsettledDiffers(a, 0);
      assert Sanitize(a + b) != Sanitize(a) + Sanitize(b);
    }
  }

  /** Escape sequences are dropped whole: nothing of them, and nothing of the text around them. */
  lemma EscapeVanishes(text: Bytes, escape: Bytes, rest: Bytes)
    requires IsText(text) && WholeEscape(escape)
    ensures Sanitize(text + escape + rest) == text + Sanitize(rest)
  {
    assert text + escape + rest == text + (escape + rest);
    TextSplits(text, escape + rest);
    EscapeAlone(escape, rest);
  }

  lemma EscapeAlone(escape: Bytes, rest: Bytes)
    requires WholeEscape(escape)
    ensures Sanitize(escape + rest) == Sanitize(rest)
  {
    var s := escape + rest;
    WholeEscapeIsOneItem(escape, rest);
    SanitizedShift(escape, rest, 0, |escape|);
    assert s[0] == ESC && Kept(s, 0) == [];
  }

  lemma WholeEscapeIsOneItem(e: Bytes, rest: Bytes)
    requires WholeEscape(e)
    ensures NextIndex(e + rest, 0) == |e|
  {
    var s := e + rest;
    assert s[0] == ESC && s[1] == e[1];
    if OpensControlSequence(e[1]) {
      assert IsFinal(s[|e| - 1]);
      ControlSequenceEndMeaning(s, 2);
    } else if OpensString(e[1]) {
      var n :| 2 <= n < |e| && EndsString(e, n) && |e| == (if e[n] == BEL then n + 1 else n + 2) &&
               forall k :: 2 <= k < n ==> !EndsString(e, k);
      var m := StringEndMeaning(s, 2);
      assert EndsString(s, n);
      forall k | 2 <= k < n ensures !EndsString(s, k) {
        assert !EndsString(e, k);
      }
    }
  }

  lemma {:induction false} TextSettled(cps: seq<int>)
    requires AllText(cps)
    ensures Settled(EncodeText(cps), 0)
  {
    if cps != [] {
      var e, rest := Encode(cps[0]), EncodeText(cps[1..]);
      PointIsOneItem(cps[0], rest);
      DecodeEncode(cps[0], rest);
      assert (e + rest)[0..] == e + rest;
      TextSettled(cps[1..]);
      SettledShift(e, rest, 0);
    }
  }

  lemma {:induction false} SettledShift(a: Bytes, b: Bytes, i: nat)
    requires i <= |b|
    ensures Settled(a + b, |a| + i) == Settled(b, i)
    decreases |b| - i
  {
    if i < |b| {
      assert (a + b)[|a| + i..] == b[i..];
      ItemShift(a, b, i);
      SettledShift(a, b, NextIndex(b, i));
    }
  }

  // ---------------------------------------------------------------- the sequences of the standards

  /** Section 5.4 of ECMA-48: ESC, "[", parameter bytes, intermediate bytes and a final byte. */
  ghost predicate IsControlSequence(e: Bytes) {
    && |e| >= 3 && e[0] == 0x1B && e[1] == 0x5B && 0x40 <= e[|e| - 1] <= 0x7E
    && exists m :: 2 <= m < |e| && SplitsAt(e, m)
  }

  ghost predicate SplitsAt(e: Bytes, m: nat)
    requires 2 <= m < |e|
  {
    (forall k :: 2 <= k < m ==> 0x30 <= e[k] <= 0x3F) && (forall k :: m <= k < |e| - 1 ==> 0x20 <= e[k] <= 0x2F)
  }

  /** A byte of a command string. */
  predicate IsStringByte(b: Byte) {
    0x08 <= b <= 0x0D || 0x20 <= b <= 0x7E
  }

  /** DCS, SOS, OSC, PM and APC. */
  predicate IsStringOpener(b: Byte) {
    b == 0x50 || b == 0x58 || b == 0x5D || b == 0x5E || b == 0x5F
  }

  /** Section 5.6 of ECMA-48: an opening delimiter, a string, and ST (ESC backslash), or as terminals allow it BEL. */
  ghost predicate IsControlString(e: Bytes) {
    exists n :: 2 <= n < |e| && StringIs(e, n)
  }

  ghost predicate StringIs(e: Bytes, n: nat)
    requires 2 <= n < |e|
  {
    && e[0] == 0x1B && IsStringOpener(e[1])
    && (e[n..] == [0x07] || e[n..] == [0x1B, 0x5C])
    && forall k :: 2 <= k < n ==> IsStringByte(e[k])
  }

  predicate IsIntermediate(b: Byte) {
    0x20 <= b <= 0x2F
  }

  /** Clause 13 of ECMA-35: ESC, intermediate bytes and a final byte, and no delimiter of the above. */
  ghost predicate IsEscapeSequence(e: Bytes) {
    && |e| >= 2 && e[0] == 0x1B && 0x30 <= e[|e| - 1] <= 0x7E
    && (forall k :: 1 <= k < |e| - 1 ==> IsIntermediate(e[k]))
    && (|e| == 2 ==> e[1] != 0x5B && !IsStringOpener(e[1]))
  }

  lemma ControlSequenceIsWhole(e: Bytes)
    requires IsControlSequence(e)
    ensures WholeEscape(e)
  {
    var m :| 2 <= m < |e| && SplitsAt(e, m);
    forall k | 2 <= k < |e| - 1 ensures !IsFinal(e[k]) {
      assert 0x30 <= e[k] <= 0x3F || 0x20 <= e[k] <= 0x2F;
    }
  }

  lemma ControlStringIsWhole(e: Bytes)
    requires IsControlString(e)
    ensures WholeEscape(e)
  {
    var n :| 2 <= n < |e| && StringIs(e, n);
    assert e[n..][0] == e[n] && (|e[n..]| == 2 ==> e[n..][1] == e[n + 1]);
    assert EndsString(e, n);
    forall k | 2 <= k < n ensures !EndsString(e, k) {
      assert IsStringByte(e[k]);
    }
  }

  lemma PlainIsText(p: Bytes)
    requires forall k :: 0 <= k < |p| ==> IsPlain(p[k])
    ensures IsText(p)
  {
    PlainIsKept(p, 0);
    assert p[0..] == p;
    TextIsFixpoint(p);
  }

  lemma TextSplits(text: Bytes, rest: Bytes)
    requires IsText(text)
    ensures Sanitize(text + rest) == text + Sanitize(rest)
  {
    TextIsFixpoint(text);
    assert Settled(text, 0) by {
      var cps :| AllText(cps) && EncodeText(cps) == text;
      TextSettled(cps);
    }
    SettledSplits(text, rest, 0);
  }

  /** Of an escape sequence with an intermediate byte everything after that byte is kept. */
  lemma TailIsKept(e: Bytes, rest: Bytes)
    requires IsEscapeSequence(e) && IsIntermediate(e[1])
    ensures Sanitize(e + rest) == e[2..] + Sanitize(rest)
  {
    var head, tail := e[..2], e[2..];
    assert WholeEscape(head);
    forall k | 0 <= k < |tail| ensures IsPlain(tail[k]) {
      assert k + 2 < |e| - 1 ==> IsIntermediate(e[k + 2]);
    }
    assert e + rest == head + (tail + rest);
    EscapeAlone(head, tail + rest);
    PlainIsText(tail);
    TextSplits(tail, rest);
  }

  /** A control sequence or control string that the stream breaks off in, or a lone ESC. */
  ghost predicate IsBroken(e: Bytes) {
    && |e| >= 1 && e[0] == 0x1B
    && (|e| == 1
        || (e[1] == 0x5B && forall k :: 2 <= k < |e| ==> 0x20 <= e[k] <= 0x3F)
        || (IsStringOpener(e[1]) && forall k :: 2 <= k < |e| ==> IsStringByte(e[k])))
  }

  /** What a stream breaks off in is dropped, too, and nothing before it. */
  lemma BrokenVanishes(text: Bytes, e: Bytes)
    requires IsText(text) && IsBroken(e)
    ensures Sanitize(text + e) == text
  {
    TextSplits(text, e);
    assert NextIndex(e, 0) == |e| by {
      if |e| > 1 && e[1] == 0x5B {
        ControlSequenceEndMeaning(e, 2);
      } else if |e| > 1 {
        var n := StringEndMeaning(e, 2);
        assert n < |e| ==> IsStringByte(e[n]);
      }
    }
    assert Kept(e, 0) == [];
    SanitizedUnfolds(e, 0, |e|, []);
    assert Sanitize(e) == [] + [] == [];
    assert text + [] == text;
  }

  ghost predicate IsStandard(e: Bytes) {
    IsControlSequence(e) || IsControlString(e) || IsEscapeSequence(e)
  }

  ghost predicate Vanishes(e: Bytes) {
    forall rest :: Sanitize(e + rest) == Sanitize(rest)
  }

  /** A sequence of the standards is dropped whole exactly when ESC is not followed by an intermediate byte. */
  lemma VanishesIffNoIntermediate(e: Bytes)
    requires IsStandard(e)
    ensures Vanishes(e) <==> !IsIntermediate(e[1])
  {
    if IsIntermediate(e[1]) {
      TailIsKept(e, []);
      assert Sanitize([]) == [] && |e[2..]| > 0;
      assert Sanitize(e + []) != Sanitize([]);
    } else {
      if IsControlSequence(e) {
        ControlSequenceIsWhole(e);
      } else if IsControlString(e) {
        ControlStringIsWhole(e);
      } else {
        assert |e| == 2;
      }
      forall rest ensures Sanitize(e + rest) == Sanitize(rest) {
        EscapeAlone(e, rest);
      }
    }
  }

  // ---------------------------------------------------------------- the writer

  ghost function SanitizeChunks(chunks: seq<Bytes>): Bytes {
    if chunks == [] then [] else SanitizeChunks(chunks[..|chunks| - 1]) + Sanitize(chunks[|chunks| - 1])
  }

  /** However a stream is split into writes, what reaches the terminal is text. */
  lemma {:induction false} ChunksAreText(chunks: seq<Bytes>)
    ensures IsText(SanitizeChunks(chunks))
    ensures Sanitize(SanitizeChunks(chunks)) == SanitizeChunks(chunks)
  {
    if chunks == [] {
      assert EncodeText([]) == [];
    } else {
      ChunksAreText(chunks[..|chunks| - 1]);
      SanitizedIsText(chunks[|chunks| - 1], 0);
      TextAppend(SanitizeChunks(chunks[..|chunks| - 1]), Sanitize(chunks[|chunks| - 1]));
    }
    TextIsFixpoint(SanitizeChunks(chunks));
  }

  class SanitizingWriter {
    const w: Sink<Byte>
    ghost const before: Bytes
    ghost var chunks: seq<Bytes>

    /** What is on the terminal is what was there before and the sanitized pieces. */
    ghost predicate Valid()
      reads this, w
    {
      w.data == before + SanitizeChunks(chunks)
    }

    constructor (w: Sink<Byte>)
      ensures Valid() && this.w == w && before == w.data && chunks == []
    {
      this.w, before, chunks := w, w.data, [];
      new;
      assert w.data + [] == w.data;
    }

    /** The sanitized piece, or as much of it as the terminal takes. */
    method Write(p: Bytes) returns (n: nat, ok: bool)
      modifies this, w
      ensures ok == (|Sanitize(p)| <= old(w.room)) && n == if ok then |p| else 0
      ensures w.data == old(w.data) + if ok then Sanitize(p) else Sanitize(p)[..old(w.room)]
      ensures chunks == if ok then old(chunks) + [p] else old(chunks)
      ensures ok && old(Valid()) ==> Valid()
    {
      var clean := SanitizeTerminal(p);
      ok := w.Write(clean);
      if !ok { return 0, false; }
      chunks := chunks + [p];
      assert chunks[..|chunks| - 1] == old(chunks);
      AppendAssociates(before, SanitizeChunks(old(chunks)), clean);
      n := |p|;
    }
  }
}

/** UTF-16 text as the detector walks it: Java's `String.codePointAt`,
    `Character.charCount` and `Character.toChars`, following the surrogate
    pair encoding of section 3.9 of the Unicode Standard. */
module Utf16 {

  /** One UTF-16 code unit (a Java `char`). */
  type CodeUnit = x: int | 0 <= x < 0x1_0000

  /** A Java `String`: a sequence of UTF-16 code units. */
  type Text = seq<CodeUnit>

  /** A code point as `codePointAt` returns it: a scalar value, or a lone
      surrogate unit when the text is not well-formed. */
  type CodePoint = x: int | 0 <= x < 0x11_0000

  const MinSupplementaryCodePoint := 0x1_0000

  predicate IsHighSurrogate(u: CodeUnit) { 0xD800 <= u <= 0xDBFF }

  predicate IsLowSurrogate(u: CodeUnit) { 0xDC00 <= u <= 0xDFFF }

  /** Combines a surrogate pair into the supplementary code point it encodes. */
  function ToCodePoint(high: CodeUnit, low: CodeUnit): (cp: CodePoint)
    requires IsHighSurrogate(high) && IsLowSurrogate(low)
    ensures MinSupplementaryCodePoint <= cp
  {
    (high - 0xD800) * 0x400 + (low - 0xDC00) + MinSupplementaryCodePoint
  }

  /** Number of code units that encode `cp`. */
  function CharCount(cp: CodePoint): (n: nat)
    ensures n == 1 || n == 2
  {
    if cp >= MinSupplementaryCodePoint then 2 else 1
  }

  /** True when offset `i` falls between the two halves of a surrogate pair. */
  predicate SplitsPair(s: Text, i: nat)
  {
    0 < i < |s| && IsHighSurrogate(s[i - 1]) && IsLowSurrogate(s[i])
  }

  /** The code point starting at offset `i`: a surrogate pair is combined,
      any other unit (a lone surrogate included) stands for itself. */
  function CodePointAt(s: Text, i: nat): (cp: CodePoint)
    requires i < |s|
    ensures i + CharCount(cp) <= |s|
    ensures CharCount(cp) == 2 <==> i + 1 < |s| && IsHighSurrogate(s[i]) && IsLowSurrogate(s[i + 1])
    ensures CharCount(cp) == 1 ==> cp == s[i]
  {
    if IsHighSurrogate(s[i]) && i + 1 < |s| && IsLowSurrogate(s[i + 1]) then
      ToCodePoint(s[i], s[i + 1])
    else
      s[i]
  }

  /** Stepping over one code point from an offset that does not split a pair
      lands on an offset that does not split one either, and stays in the text. */
  lemma StepKeepsBoundary(s: Text, i: nat)
    requires i < |s|
    ensures var j := i + CharCount(CodePointAt(s, i)); i < j <= |s| && !SplitsPair(s, j)
  {
    var cp := CodePointAt(s, i);
    var j := i + CharCount(cp);
    if CharCount(cp) == 1 && j < |s| {
      assert !(IsHighSurrogate(s[i]) && IsLowSurrogate(s[i + 1]));
    }
  }

  /** The code points of `s` from offset `i` on, in order. */
  function CodePointsFrom(s: Text, i: nat): (cps: seq<CodePoint>)
    requires i <= |s|
    ensures |cps| <= |s| - i
    ensures |s| - i <= 2 * |cps|
    decreases |s| - i
  {
    if i == |s| then []
    else
      var cp := CodePointAt(s, i);
      [cp] + CodePointsFrom(s, i + CharCount(cp))
  }

  /** One step of a walk over `s` that has decoded `done` so far and stands
      at offset `i`: the decoded prefix grows by the code point at `i`, and
      the rest is decoded from the next offset. */
  lemma WalkStep(s: Text, i: nat, done: seq<CodePoint>, whole: seq<CodePoint>)
    requires i < |s|
    requires whole == done + CodePointsFrom(s, i)
    ensures whole == (done + [CodePointAt(s, i)]) + CodePointsFrom(s, i + CharCount(CodePointAt(s, i)))
  {
    var cp := CodePointAt(s, i);
    var rest := CodePointsFrom(s, i + CharCount(cp));
    assert CodePointsFrom(s, i) == [cp] + rest;
    assert done + ([cp] + rest) == (done + [cp]) + rest;
  }

  /** A walk that has reached the end of `s` has decoded all of it. */
  lemma WalkEnd(s: Text, i: nat, done: seq<CodePoint>, whole: seq<CodePoint>)
    requires i == |s|
    requires whole == done + CodePointsFrom(s, i)
    ensures whole == done
  {
  }

  /** The code points of `s`, in order. */
  function CodePoints(s: Text): seq<CodePoint>
  {
    CodePointsFrom(s, 0)
  }

  function HighSurrogateOf(cp: CodePoint): CodeUnit
    requires cp >= MinSupplementaryCodePoint
  {
    cp / 0x400 + (0xD800 - MinSupplementaryCodePoint / 0x400)
  }

  function LowSurrogateOf(cp: CodePoint): CodeUnit
  {
    cp % 0x400 + 0xDC00
  }

  /** `Character.toChars`: the code units that encode `cp`. */
  function ToChars(cp: CodePoint): (u: Text)
    ensures |u| == CharCount(cp)
  {
    if cp >= MinSupplementaryCodePoint then [HighSurrogateOf(cp), LowSurrogateOf(cp)] else [cp]
  }

  /** Decoding the units of `toChars(cp)` gives back `cp`; so the string form
      of a code point determines it, and a set of such strings is a set of
      code points. */
  lemma ToCharsRoundTrip(cp: CodePoint)
    ensures CodePointAt(ToChars(cp), 0) == cp
  {
    if cp >= MinSupplementaryCodePoint {
      var u := ToChars(cp);
      assert IsHighSurrogate(u[0]) && IsLowSurrogate(u[1]);
      assert (cp / 0x400 - 0x40) * 0x400 + cp % 0x400 + 0x1_0000 == cp;
    }
  }

  lemma ToCharsInjective(a: CodePoint, b: CodePoint)
    requires ToChars(a) == ToChars(b)
    ensures a == b
  {
    ToCharsRoundTrip(a);
    ToCharsRoundTrip(b);
  }

  /** Re-encodes a sequence of code points (a `StringBuilder` of `toChars`). */
  function Encode(cps: seq<CodePoint>): (s: Text)
  {
    if cps == [] then [] else ToChars(cps[0]) + Encode(cps[1..])
  }

  /** Encoding the code point at `i` gives back the units it was decoded from. */
  lemma ToCharsOfCodePointAt(s: Text, i: nat)
    requires i < |s|
    ensures ToChars(CodePointAt(s, i)) == s[i .. i + CharCount(CodePointAt(s, i))]
  {
    var cp := CodePointAt(s, i);
    if CharCount(cp) == 2 {
      var hi: int, lo: int := s[i] - 0xD800, s[i + 1] - 0xDC00;
      assert cp == (hi + 0x40) * 0x400 + lo;
      assert cp / 0x400 == hi + 0x40;
      assert cp % 0x400 == lo;
    }
  }

  /** Walking a text by code points and re-encoding each one gives the text
      back: no unit is skipped, duplicated or split. */
  lemma {:induction false} DecodeEncodeRoundTrip(s: Text, i: nat)
    requires i <= |s|
    ensures Encode(CodePointsFrom(s, i)) == s[i..]
    decreases |s| - i
  {
    if i < |s| {
      var cp := CodePointAt(s, i);
      var j := i + CharCount(cp);
      DecodeEncodeRoundTrip(s, j);
      ToCharsOfCodePointAt(s, i);
      assert CodePointsFrom(s, i)[1..] == CodePointsFrom(s, j);
      assert s[i..] == s[i..j] + s[j..];
    }
  }
}

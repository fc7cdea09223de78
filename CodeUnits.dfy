/** UTF-16 code units: what a Java `Reader` delivers one at a time, and the
    characters the line counter gives special meaning to. */
module CodeUnits {

  /** One UTF-16 code unit, the value `Reader.read()` returns before end of input. */
  newtype CodeUnit = x: int | 0 <= x < 0x1_0000

  /** Carriage return, `CHAR_CR`. */
  const CR: CodeUnit := 0x0D
  /** Line feed (newline), `CHAR_LF`. */
  const LF: CodeUnit := 0x0A
  /** The blank space used for padding, `CHAR_SP`. */
  const SP: CodeUnit := 0x20

  /** A Unicode scalar value: a code point that is not a surrogate. */
  predicate IsScalarValue(cp: int) {
    0 <= cp <= 0x10_FFFF && !(0xD800 <= cp <= 0xDFFF)
  }

  /** A code point outside the Basic Multilingual Plane. */
  predicate IsSupplementary(cp: int) {
    0x1_0000 <= cp <= 0x10_FFFF
  }

  /** How Java stores one character in a `String` or delivers it from a
      `Reader`: a single code unit, or a high and a low surrogate. */
  function Utf16Units(cp: int): (r: seq<CodeUnit>)
    requires IsScalarValue(cp)
    ensures |r| == if IsSupplementary(cp) then 2 else 1
    ensures !IsSupplementary(cp) ==> r[0] as int == cp
    ensures IsSupplementary(cp) ==>
      0xD800 <= r[0] < 0xDC00 && 0xDC00 <= r[1] <= 0xDFFF
  {
    if cp < 0x1_0000 then [cp as CodeUnit]
    else
      var v := cp - 0x1_0000;
      [(0xD800 + v / 0x400) as CodeUnit, (0xDC00 + v % 0x400) as CodeUnit]
  }

  /** Reassembles the code point from the units `Utf16Units` produced. */
  function CodePointOf(units: seq<CodeUnit>): int
    requires |units| == 1 || |units| == 2
  {
    if |units| == 1 then units[0] as int
    else 0x1_0000 + (units[0] as int - 0xD800) * 0x400 + (units[1] as int - 0xDC00)
  }

  /** Encoding one character is invertible. */
  lemma Utf16RoundTrip(cp: int)
    requires IsScalarValue(cp)
    ensures CodePointOf(Utf16Units(cp)) == cp
  {
    if IsSupplementary(cp) {
      var v := cp - 0x1_0000;
      assert v == (v / 0x400) * 0x400 + v % 0x400;
    }
  }

  /** The code units of a whole text of characters. */
  function EncodeUtf16(cps: seq<int>): seq<CodeUnit>
    requires forall i :: 0 <= i < |cps| ==> IsScalarValue(cps[i])
  {
    if cps == [] then [] else Utf16Units(cps[0]) + EncodeUtf16(cps[1..])
  }

  function CountSupplementary(cps: seq<int>): nat {
    if cps == [] then 0
    else (if IsSupplementary(cps[0]) then 1 else 0) + CountSupplementary(cps[1..])
  }

  /** A text holds one code unit per character plus one more for each
      character above U+FFFF: those characters are counted twice. */
  lemma {:induction false} EncodedLength(cps: seq<int>)
    requires forall i :: 0 <= i < |cps| ==> IsScalarValue(cps[i])
    ensures |EncodeUtf16(cps)| == |cps| + CountSupplementary(cps)
  {
    if cps != [] {
      EncodedLength(cps[1..]);
    }
  }
}

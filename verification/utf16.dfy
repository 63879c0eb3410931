/** JavaScript strings are sequences of UTF-16 code units. `String.fromCodePoint`
    (section 22.1.2.2 of ECMA-262) turns one code point into one unit, or into a
    surrogate pair above U+FFFF, and throws a RangeError outside 0..0x10FFFF. */
module Utf16 {
  import opened Maybe

  type CodeUnit = x: int | 0 <= x < 0x1_0000

  const MaxCodePoint: int := 0x10FFFF

  predicate IsCodePoint(n: int) {
    0 <= n <= MaxCodePoint
  }

  /** UTF16EncodeCodePoint: one unit below 0x10000, otherwise a high surrogate
      followed by a low surrogate. */
  function EncodeCodePoint(cp: int): (u: seq<CodeUnit>)
    requires IsCodePoint(cp)
    ensures |u| == 1 <==> cp < 0x1_0000
    ensures |u| == 1 || |u| == 2
    ensures DecodeCodePoint(u) == Some(cp)
  {
    if cp < 0x1_0000 then [cp]
    else
      var v := cp - 0x1_0000;
      [0xD800 + v / 0x400, 0xDC00 + v % 0x400]
  }

  /** The code point a one-code-point string stands for: a single unit, or a
      high surrogate followed by a low surrogate. Any other string is `None`. */
  function DecodeCodePoint(u: seq<CodeUnit>): (r: Option<int>)
    ensures r.Some? ==> IsCodePoint(r.value)
  {
    if |u| == 1 then Some(u[0] as int)
    else if |u| == 2 && 0xD800 <= u[0] < 0xDC00 && 0xDC00 <= u[1] < 0xE000 then
      var high: int := u[0];
      var low: int := u[1];
      Some(0x1_0000 + (high - 0xD800) * 0x400 + (low - 0xDC00))
    else None
  }

  /** `String.fromCodePoint(n)` for the number `n` (`None` being NaN): the
      encoded string, or `None` for the RangeError the call throws. */
  function FromCodePoint(n: Option<int>): (r: Option<seq<CodeUnit>>)
    ensures r.Some? <==> n.Some? && IsCodePoint(n.value)
    ensures r.Some? ==> DecodeCodePoint(r.value) == n
  {
    if n.Some? && IsCodePoint(n.value) then Some(EncodeCodePoint(n.value)) else None
  }

  /** Distinct code points give distinct strings. */
  lemma EncodeInjective(a: int, b: int)
    requires IsCodePoint(a) && IsCodePoint(b)
    requires EncodeCodePoint(a) == EncodeCodePoint(b)
    ensures a == b
  {
    assert DecodeCodePoint(EncodeCodePoint(a)) == Some(a);
  }

  predicate IsHighSurrogate(u: int) { 0xD800 <= u < 0xDC00 }
  predicate IsLowSurrogate(u: int) { 0xDC00 <= u < 0xE000 }

  /** A code point that is not itself a surrogate. */
  predicate IsScalar(cp: int) {
    IsCodePoint(cp) && !(0xD800 <= cp < 0xE000)
  }

  function Concat(pieces: seq<seq<CodeUnit>>): seq<CodeUnit> {
    if |pieces| == 0 then [] else pieces[0] + Concat(pieces[1..])
  }

  /** `Array.from(text)`: the string iterator (section 22.1.5.1 of ECMA-262)
      yields one piece per code point, a surrogate pair staying together and a
      lone surrogate forming a piece of its own. */
  function CodePoints(text: seq<CodeUnit>): (pieces: seq<seq<CodeUnit>>)
    ensures Concat(pieces) == text
    ensures forall k :: 0 <= k < |pieces| ==> DecodeCodePoint(pieces[k]).Some?
    ensures forall k :: 0 <= k < |pieces| ==>
              |pieces[k]| == 1 || (|pieces[k]| == 2 && IsHighSurrogate(pieces[k][0]))
    ensures |pieces| > 0 ==> pieces[0][0] == text[0]
    ensures forall k :: 0 <= k < |pieces| - 1 && |pieces[k]| == 1 ==>
              !(IsHighSurrogate(pieces[k][0]) && IsLowSurrogate(pieces[k + 1][0]))
    decreases |text|
  {
    if |text| == 0 then []
    else if |text| >= 2 && IsHighSurrogate(text[0]) && IsLowSurrogate(text[1]) then
      var rest := CodePoints(text[2..]);
      var r := [text[..2]] + rest;
      assert forall k :: 1 <= k < |r| ==> r[k] == rest[k - 1];
      r
    else
      var rest := CodePoints(text[1..]);
      var r := [text[..1]] + rest;
      assert forall k :: 1 <= k < |r| ==> r[k] == rest[k - 1];
      assert |rest| > 0 ==> rest[0][0] == text[1];
      r
  }

  function EncodeAll(cps: seq<int>): seq<CodeUnit>
    requires forall k :: 0 <= k < |cps| ==> IsScalar(cps[k])
  {
    if |cps| == 0 then []
    else
      assert IsScalar(cps[0]);
      EncodeCodePoint(cps[0]) + EncodeAll(cps[1..])
  }

  /** Splitting the encoding of a text gives back each character's encoding. */
  lemma {:induction false} CodePointsOfEncoding(cps: seq<int>)
    requires forall k :: 0 <= k < |cps| ==> IsScalar(cps[k])
    ensures |CodePoints(EncodeAll(cps))| == |cps|
    ensures forall k :: 0 <= k < |cps| ==> CodePoints(EncodeAll(cps))[k] == EncodeCodePoint(cps[k])
  {
    if |cps| > 0 {
      var head := EncodeCodePoint(cps[0]);
      var rest := EncodeAll(cps[1..]);
      CodePointsOfEncoding(cps[1..]);
      var text := head + rest;
      if |head| == 1 {
        assert text[0] == cps[0];
        assert !IsHighSurrogate(text[0]);
        assert text[..1] == head;
        assert text[1..] == rest;
      } else {
        assert IsHighSurrogate(text[0]) && IsLowSurrogate(text[1]);
        assert text[..2] == head;
        assert text[2..] == rest;
      }
      assert CodePoints(text) == [head] + CodePoints(rest);
    }
  }
}

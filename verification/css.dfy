/** The text of the style block a glyph receives (lines 94-103 and 114 of
    `src/components/KanjiWriter.tsx`). Times are whole tenths of a second and are
    printed the way JavaScript prints such a number: `0`, `0.5`, `1.5`, `0.8`. */
module Css {
  import opened Maybe
  import opened Decimal
  import opened Strings

  /** `${t / 10}` for a number of tenths `t`: the integer part, then `.` and the
      tenths digit unless it is zero. */
  function SecondsText(tenths: nat): (r: string)
    ensures ParseSeconds(r) == Some(tenths)
    ensures IndexOf(r, ".").None? <==> tenths % 10 == 0
    ensures IndexOf(r, ".").Some? ==> r[|r| - 1] != '0'
    ensures r[0] == '0' ==> tenths < 10
  {
    var whole := NatToDecimal(tenths / 10);
    if tenths % 10 == 0 then
      assert IndexOf(whole, ".").None? by { NoDot(whole, ""); assert whole + "" == whole; }
      whole
    else
      var r := whole + "." + [DigitChar(tenths % 10)];
      NoDot(whole, "." + [DigitChar(tenths % 10)]);
      assert r == whole + ("." + [DigitChar(tenths % 10)]);
      FirstOccurrence(r, ".", |whole|);
      assert r[..|whole|] == whole;
      assert r[|whole| + 1..] == [DigitChar(tenths % 10)];
      r
  }

  /** Reads a time printed by `SecondsText` back into tenths. */
  function ParseSeconds(s: string): Option<nat> {
    match IndexOf(s, ".")
    case None =>
      if |s| > 0 && AllDigits(s) then Some(DecimalValue(s) * 10) else None
    case Some(i) =>
      var whole := s[..i];
      var frac := s[i + 1..];
      if |whole| > 0 && AllDigits(whole) && |frac| == 1 && IsDigit(frac[0])
      then Some(DecimalValue(whole) * 10 + DigitValue(frac[0]))
      else None
  }

  lemma NoDot(digits: string, tail: string)
    requires AllDigits(digits)
    ensures forall j :: 0 <= j < |digits| ==> !OccursAt(digits + tail, ".", j)
    ensures tail == "" ==> forall j :: 0 <= j <= |digits| ==> !OccursAt(digits + tail, ".", j)
  {
    forall j | 0 <= j < |digits|
      ensures !OccursAt(digits + tail, ".", j)
    {
      if j + 1 <= |digits + tail| {
        assert (digits + tail)[j..j + 1][0] == digits[j];
      }
    }
  }

  /** One entry of the `animations` array: a keyframes rule that runs the
      stroke's dash offset down to zero, and the rule that binds it to the path
      with its duration, easing and delay. */
  function RuleText(name: string, selector: string, durationTenths: nat, delayTenths: nat): string {
    "\n"
    + "            @keyframes " + name + " {\n"
    + "              to {\n"
    + "                stroke-dashoffset: 0;\n"
    + "              }\n"
    + "            }\n"
    + "            " + selector + " {\n"
    + "              animation: " + name + " " + SecondsText(durationTenths) + "s ease-in-out "
    + SecondsText(delayTenths) + "s forwards;\n"
    + "            }\n"
    + "          "
  }

  /** `animations.join('\n')`. */
  function StyleText(rules: seq<string>): string {
    Join(rules, "\n")
  }
}

/** Keyframe names `draw-{charIndex}-{pathIndex}` (line 93 of
    `src/components/KanjiWriter.tsx`). */
module AnimationName {
  import opened Maybe
  import opened Decimal
  import opened Strings

  function Name(charIndex: nat, pathIndex: nat): string {
    "draw-" + NatToDecimal(charIndex) + "-" + NatToDecimal(pathIndex)
  }

  /** A keyframe name reads back as the two indices it was made from. */
  lemma NameRoundTrip(charIndex: nat, pathIndex: nat)
    ensures Parse(Name(charIndex, pathIndex)) == Some((charIndex, pathIndex))
  {
    var c := NatToDecimal(charIndex);
    var p := NatToDecimal(pathIndex);
    var rest := c + "-" + p;
    NoDash(c, "-" + p);
    assert rest == c + ("-" + p);
    FirstOccurrence(rest, "-", |c|);
    assert rest[..|c|] == c;
    assert rest[|c| + 1..] == p;
    var r := "draw-" + rest;
    assert r == Name(charIndex, pathIndex);
    assert r[..5] == "draw-" && r[5..] == rest;
  }

  /** Reads a keyframe name back into its two indices. */
  function Parse(s: string): Option<(nat, nat)> {
    if |s| < 5 || s[..5] != "draw-" then None
    else
      var rest := s[5..];
      match IndexOf(rest, "-")
      case None => None
      case Some(i) =>
        var c := rest[..i];
        var p := rest[i + 1..];
        if |c| > 0 && |p| > 0 && AllDigits(c) && AllDigits(p) then Some((DecimalValue(c), DecimalValue(p)))
        else None
  }

  /** A decimal numeral has no `-` in it, so the first `-` after `draw-` ends the
      character index. */
  lemma NoDash(c: string, tail: string)
    requires AllDigits(c)
    ensures forall j :: 0 <= j < |c| ==> !OccursAt(c + tail, "-", j)
  {
    forall j | 0 <= j < |c|
      ensures !OccursAt(c + tail, "-", j)
    {
      if j + 1 <= |c + tail| {
        assert (c + tail)[j..j + 1][0] == c[j];
      }
    }
  }

  /** Distinct (charIndex, pathIndex) pairs give distinct animation names. */
  lemma NameInjective(c1: nat, p1: nat, c2: nat, p2: nat)
    requires Name(c1, p1) == Name(c2, p2)
    ensures c1 == c2 && p1 == p2
  {
    NameRoundTrip(c1, p1);
    NameRoundTrip(c2, p2);
  }
}

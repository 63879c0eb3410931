/** The same character twice in one text: the code as written, and a corrected
    schedule.

    Every rule the component emits selects its path by id alone (line 100 of
    `src/components/KanjiWriter.tsx`), and a style element inside an inline
    `<svg>` applies to the whole page. The stroke ids of an asset carry its code
    point, so two copies of one character contain paths with equal ids, and the
    rules of both copies select both paths. The rules are equally specific, so
    the later block wins for both copies: the copies draw at the same time,
    both with the second copy's delays. The corrected schedule gives each
    sub-drawing's root the id `kanji-glyph-{charIndex}` and scopes every
    selector below it, so within one component each rule reaches only its own
    copy. Those root ids recur in a second component on the same page, which
    would need a per-instance prefix as well. */
module ScopedSchedule {
  import opened Maybe
  import opened Strings
  import opened Decimal
  import opened StrokeSchedule

  // ---------------------------------------------------------------------------
  // As written: repeated characters share selectors
  // ---------------------------------------------------------------------------

  /** The stroke path list of a one-stroke glyph. */
  lemma OneStrokeBindings(charIndex: nat, previous: nat, p: PathElement)
    requires IsStrokePath(p) && Animated(p)
    ensures GlyphBindings(charIndex, previous, StrokePaths([p]))
            == [BindingFor(charIndex, 0, previous, p.id.value)]
  {
    AllStrokePathsSelected([p]);
    assert [p][..0] == [];
  }

  /** Two copies of the same one-stroke glyph (the text "日日" reduced to one
      stroke each): both sub-drawings bind the SAME selector, the first with
      delay 0 and the second with delay 0.5 s. A page applies both rules to both
      paths, so the two copies cannot draw one after the other. */
  lemma RepeatedGlyphSelectorsCollide(size: Size, p: PathElement)
    requires ValidSize(size)
    requires IsStrokePath(p) && Animated(p)
    ensures var r := Render(size, [Markup(true, [p]), Markup(true, [p])]);
            && r.Rendered? && |r.drawings| == 2
            && |r.drawings[0].bindings| == 1 && |r.drawings[1].bindings| == 1
            && r.drawings[0].bindings[0].selector == r.drawings[1].bindings[0].selector
            && r.drawings[0].bindings[0].delaySteps == 0
            && r.drawings[1].bindings[0].delaySteps == 1
  {
    var slots := [Markup(true, [p]), Markup(true, [p])];
    var px := size.value.Floor as nat;
    TwoCopiesDrawn(px, p);
    TwoCopiesBindings(px, p);
  }

  /** Both copies are drawn, in order. */
  lemma TwoCopiesDrawn(px: nat, p: PathElement)
    ensures var slots := [Markup(true, [p]), Markup(true, [p])];
            DrawingsUpTo(px, slots, 2) == [DrawingFor(px, slots, 0), DrawingFor(px, slots, 1)]
  {
    var slots := [Markup(true, [p]), Markup(true, [p])];
    assert DrawingsUpTo(px, slots, 0) == [];
    assert DrawingsUpTo(px, slots, 1) == [DrawingFor(px, slots, 0)];
  }

  /** The one binding of each copy: the second copy is preceded by one stroke. */
  lemma TwoCopiesBindings(px: nat, p: PathElement)
    requires IsStrokePath(p) && Animated(p)
    ensures var slots := [Markup(true, [p]), Markup(true, [p])];
            DrawingFor(px, slots, 0).bindings == [BindingFor(0, 0, 0, p.id.value)]
            && DrawingFor(px, slots, 1).bindings == [BindingFor(1, 0, 1, p.id.value)]
  {
    var slots := [Markup(true, [p]), Markup(true, [p])];
    assert PreviousStrokes(slots, 0) == 0 by {
      assert slots[..0] == [];
    }
    PreviousStrokesStep(slots, 0);
    AllStrokePathsSelected([p]);
    assert PreviousStrokes(slots, 1) == 1;
    OneStrokeBindings(0, 0, p);
    OneStrokeBindings(1, 1, p);
  }

  // ---------------------------------------------------------------------------
  // Corrected: selectors scoped to their sub-drawing
  // ---------------------------------------------------------------------------

  /** The id the corrected schedule gives the root of the glyph at `charIndex`. */
  function RootId(charIndex: nat): string {
    "kanji-glyph-" + NatToDecimal(charIndex)
  }

  /** The descendant selector `#kanji-glyph-{charIndex} <selector>`. */
  function Scope(charIndex: nat, selector: string): string {
    "#" + RootId(charIndex) + " " + selector
  }

  /** Reads back the sub-drawing a scoped selector is confined to. */
  function ScopeOf(sel: string): Option<nat> {
    if |sel| < 13 || sel[..13] != "#kanji-glyph-" then None
    else
      var rest := sel[13..];
      match IndexOf(rest, " ")
      case None => None
      case Some(i) =>
        if i > 0 && AllDigits(rest[..i]) then Some(DecimalValue(rest[..i])) else None
  }

  /** A scoped selector names the sub-drawing it was scoped to. */
  lemma ScopeRoundTrip(charIndex: nat, selector: string)
    ensures ScopeOf(Scope(charIndex, selector)) == Some(charIndex)
  {
    var c := NatToDecimal(charIndex);
    var rest := c + " " + selector;
    assert forall j :: 0 <= j < |c| ==> !OccursAt(rest, " ", j) by {
      forall j | 0 <= j < |c|
        ensures !OccursAt(rest, " ", j)
      {
        assert rest[j..j + 1][0] == c[j];
      }
    }
    assert rest[|c|..|c| + 1] == " ";
    FirstOccurrence(rest, " ", |c|);
    assert rest[..|c|] == c;
    var sel := Scope(charIndex, selector);
    assert sel == "#kanji-glyph-" + rest;
    assert sel[..13] == "#kanji-glyph-" && sel[13..] == rest;
  }

  /** Selectors scoped to different sub-drawings are different. */
  lemma ScopesDiffer(c1: nat, s1: string, c2: nat, s2: string)
    requires c1 != c2
    ensures Scope(c1, s1) != Scope(c2, s2)
  {
    ScopeRoundTrip(c1, s1);
    ScopeRoundTrip(c2, s2);
  }

  function ScopeBindings(charIndex: nat, bs: seq<Binding>): seq<Binding> {
    seq(|bs|, k requires 0 <= k < |bs| => bs[k].(selector := Scope(charIndex, bs[k].selector)))
  }

  /** A sub-drawing whose root carries `RootId(charIndex)` and whose rules are
      scoped below that root, so they reach only its own paths; names and
      timing are those of the code. */
  function ScopedDrawing(d: SubDrawing): SubDrawing {
    var bs := ScopeBindings(d.charIndex, d.bindings);
    d.(rootId := Some(RootId(d.charIndex)), bindings := bs, style := StyleFor(d.charIndex, bs))
  }

  /** The corrected schedule. */
  function ScopedRender(size: Size, slots: seq<Slot>): Outcome {
    match Render(size, slots)
    case SizeRejected => SizeRejected
    case Rendered(ds) => Rendered(seq(|ds|, i requires 0 <= i < |ds| => ScopedDrawing(ds[i])))
  }

  /** The corrected schedule keeps the code's outcome, sub-drawings, names,
      durations and delays; only the selectors change. */
  lemma ScopedKeepsTiming(size: Size, slots: seq<Slot>)
    ensures ScopedRender(size, slots).SizeRejected? <==> !ValidSize(size)
    ensures ScopedRender(size, slots).Rendered? ==>
              var ds := Render(size, slots).drawings;
              var es := ScopedRender(size, slots).drawings;
              |es| == |ds|
              && forall i :: 0 <= i < |es| ==>
                   es[i].charIndex == ds[i].charIndex
                   && es[i].width == ds[i].width && es[i].height == ds[i].height
                   && |es[i].bindings| == |ds[i].bindings|
                   && ds[i].rootId.None? && es[i].rootId == Some(RootId(ds[i].charIndex))
                   && (es[i].style.Some? <==> ds[i].style.Some?)
                   && forall k :: 0 <= k < |es[i].bindings| ==>
                        var e := es[i].bindings[k];
                        var b := ds[i].bindings[k];
                        e.name == b.name && e.durationTenths == b.durationTenths
                        && e.delaySteps == b.delaySteps
                        && e.selector == Scope(ds[i].charIndex, b.selector)
  {
  }

  /** Binding `k` of sub-drawing `i` of the corrected schedule is the code's
      binding with its selector scoped. */
  lemma ScopedBindingAt(size: Size, slots: seq<Slot>, i: nat, k: nat)
    requires ValidSize(size)
    requires i < |Render(size, slots).drawings|
    requires k < |Render(size, slots).drawings[i].bindings|
    ensures var d := Render(size, slots).drawings[i];
            var es := ScopedRender(size, slots).drawings;
            i < |es| && k < |es[i].bindings|
            && es[i].rootId == Some(RootId(d.charIndex))
            && es[i].bindings[k] == d.bindings[k].(selector := Scope(d.charIndex, d.bindings[k].selector))
  {
    var d := Render(size, slots).drawings[i];
    assert ScopedRender(size, slots).drawings[i] == ScopedDrawing(d);
  }

  /** In the corrected schedule, every selector is a descendant selector below
      its own sub-drawing's root id, the roots of different sub-drawings carry
      different ids, and bindings of different sub-drawings never share a
      selector, so no rule reaches a path of another sub-drawing of the same
      component. */
  lemma ScopedSelectorsDistinct(size: Size, slots: seq<Slot>, i: nat, j: nat, k: nat, l: nat)
    requires ValidSize(size)
    requires i < j < |Render(size, slots).drawings|
    requires k < |Render(size, slots).drawings[i].bindings|
    requires l < |Render(size, slots).drawings[j].bindings|
    ensures var ds := Render(size, slots).drawings;
            var es := ScopedRender(size, slots).drawings;
            es[i].rootId.Some? && es[j].rootId.Some?
            && es[i].rootId.value != es[j].rootId.value
            && es[i].bindings[k].selector == "#" + es[i].rootId.value + " " + ds[i].bindings[k].selector
            && es[j].bindings[l].selector == "#" + es[j].rootId.value + " " + ds[j].bindings[l].selector
            && es[i].bindings[k].selector != es[j].bindings[l].selector
  {
    var ds := Render(size, slots).drawings;
    assert ds[i].charIndex < ds[j].charIndex;
    ScopedBindingAt(size, slots, i, k);
    ScopedBindingAt(size, slots, j, l);
    ScopesDiffer(ds[i].charIndex, ds[i].bindings[k].selector, ds[j].charIndex, ds[j].bindings[l].selector);
    ScopesDiffer(ds[i].charIndex, "", ds[j].charIndex, "");
  }

  /** The ordering proved again for the corrected schedule: every stroke of a
      later sub-drawing is emitted with a larger delay than every stroke of an
      earlier one, and now each rule applies only to its own copy. */
  lemma ScopedLaterGlyphsStartLater(size: Size, slots: seq<Slot>, i: nat, j: nat, k: nat, l: nat)
    requires ValidSize(size)
    requires i < j < |Render(size, slots).drawings|
    requires k < |Render(size, slots).drawings[i].bindings|
    requires l < |Render(size, slots).drawings[j].bindings|
    ensures var es := ScopedRender(size, slots).drawings;
            es[i].bindings[k].delaySteps < es[j].bindings[l].delaySteps
            && es[i].bindings[k].selector != es[j].bindings[l].selector
  {
    LaterGlyphsStartLater(size, slots, i, j, k, l);
    ScopedBindingAt(size, slots, i, k);
    ScopedBindingAt(size, slots, j, l);
    ScopedSelectorsDistinct(size, slots, i, j, k, l);
  }

  /** The text "日日" reduced to one stroke each, corrected: distinct selectors,
      delays 0 and 0.5 s, so the second copy draws after the first. */
  lemma ScopedRepeatedGlyph(size: Size, p: PathElement)
    requires ValidSize(size)
    requires IsStrokePath(p) && Animated(p)
    ensures var r := ScopedRender(size, [Markup(true, [p]), Markup(true, [p])]);
            && r.Rendered? && |r.drawings| == 2
            && |r.drawings[0].bindings| == 1 && |r.drawings[1].bindings| == 1
            && r.drawings[0].bindings[0].selector != r.drawings[1].bindings[0].selector
            && r.drawings[0].bindings[0].delaySteps < r.drawings[1].bindings[0].delaySteps
  {
    RepeatedGlyphSelectorsCollide(size, p);
    ScopedLaterGlyphsStartLater(size, [Markup(true, [p]), Markup(true, [p])], 0, 1, 0, 0);
  }
}

/** The stroke-animation schedule of `src/components/KanjiWriter.tsx`.

    The input is the ordered list of glyph slots, one per character of the text:
    a slot is `Missing` when the asset table had no markup for the character (or
    the empty string), and otherwise lists the `<path>` elements of the markup in
    document order with the two facts the scheduler reads about each: its `id`
    attribute and whether its geometric length is zero. Every stroke path that
    is animated gets a keyframe name, an escaped id selector, a duration of 0.8 s
    and a delay of 0.5 s per stroke that precedes it across all glyphs. Delays are
    counted in half-second steps and durations in tenths of a second, so no
    fractional number is needed. */
module StrokeSchedule {
  import opened Maybe
  import Strings
  import Decimal
  import Selector
  import AnimationName
  import Css

  /** Every stroke draws itself in over 0.8 s (line 86). */
  const DurationTenths: nat := 8

  /** A JavaScript number given as the `size` prop. NaN and both infinities
      behave alike at the size guard, so they share one case. */
  datatype Size = Finite(value: real) | NotFinite

  /** The guard of line 14: a positive integer. */
  predicate ValidSize(size: Size) {
    size.Finite? && size.value > 0.0 && size.value.Floor as real == size.value
  }

  /** A `<path>` element of a glyph's markup. */
  datatype PathElement = PathElement(id: Option<string>, zeroLength: bool)

  /** What a glyph's lookup resolved to. `hasRoot` is false when the markup has
      no `<svg>` element (line 45): the glyph is not drawn, but its paths still
      count for the glyphs after it (lines 79-82). */
  datatype Slot = Missing | Markup(hasRoot: bool, paths: seq<PathElement>)

  /** The attribute selector `path[id*="-s"]`: the id contains `-s`. */
  predicate IsStrokePath(p: PathElement) {
    p.id.Some? && Strings.IndexOf(p.id.value, "-s").Some?
  }

  /** `querySelectorAll('path[id*="-s"]')`: the stroke paths, in document order. */
  function StrokePaths(paths: seq<PathElement>): (r: seq<PathElement>)
    ensures |r| <= |paths|
    ensures forall k :: 0 <= k < |r| ==> IsStrokePath(r[k])
  {
    if |paths| == 0 then []
    else
      var last := paths[|paths| - 1];
      StrokePaths(paths[..|paths| - 1]) + (if IsStrokePath(last) then [last] else [])
  }

  /** The selection keeps exactly the paths that match the selector. */
  lemma {:induction false} StrokePathsSelectExactly(paths: seq<PathElement>)
    ensures forall p :: p in StrokePaths(paths) <==> p in paths && IsStrokePath(p)
  {
    if |paths| > 0 {
      var front := paths[..|paths| - 1];
      StrokePathsSelectExactly(front);
      assert paths == front + [paths[|paths| - 1]];
    }
  }

  /** When every path matches the selector, all of them are selected, in order. */
  lemma {:induction false} AllStrokePathsSelected(paths: seq<PathElement>)
    requires forall k :: 0 <= k < |paths| ==> IsStrokePath(paths[k])
    ensures StrokePaths(paths) == paths
  {
    if |paths| > 0 {
      AllStrokePathsSelected(paths[..|paths| - 1]);
    }
  }

  /** Selection distributes over concatenation: it keeps document order. */
  lemma {:induction false} StrokePathsAppend(a: seq<PathElement>, b: seq<PathElement>)
    ensures StrokePaths(a + b) == StrokePaths(a) + StrokePaths(b)
  {
    if |b| == 0 {
      assert a + b == a;
    } else {
      assert (a + b)[..|a + b| - 1] == a + b[..|b| - 1];
      StrokePathsAppend(a, b[..|b| - 1]);
    }
  }

  /** The number of stroke paths a slot contributes to `previousStrokes`:
      none for a missing glyph, all of its `-s` paths otherwise, animated or not. */
  function StrokeCount(slot: Slot): nat {
    match slot
    case Missing => 0
    case Markup(_, paths) => |StrokePaths(paths)|
  }

  /** The `reduce` of lines 77-83 over a run of slots. */
  function CountStrokes(slots: seq<Slot>): nat {
    if |slots| == 0 then 0 else CountStrokes(slots[..|slots| - 1]) + StrokeCount(slots[|slots| - 1])
  }

  /** `previousStrokes` for the glyph at `charIndex`. */
  function PreviousStrokes(slots: seq<Slot>, charIndex: nat): nat
    requires charIndex <= |slots|
  {
    CountStrokes(slots[..charIndex])
  }

  /** Lines 67-74: a stroke path is animated when it has a non-empty id and a
      non-zero length; otherwise it is skipped. */
  predicate Animated(p: PathElement) {
    p.id.Some? && p.id.value != "" && !p.zeroLength
  }

  /** One animated stroke: keyframe name, id selector, duration in tenths of a
      second, and delay in half-second steps (line 85 multiplies by 0.5). */
  datatype Binding = Binding(name: string, selector: string, durationTenths: nat, delaySteps: nat)

  /** The binding of path `pathIndex` of glyph `charIndex` (lines 85-103). */
  function BindingFor(charIndex: nat, pathIndex: nat, previous: nat, id: string): Binding {
    Binding(AnimationName.Name(charIndex, pathIndex), Selector.IdSelector(id), DurationTenths,
            previous + pathIndex)
  }

  /** The `paths.forEach` of lines 66-104: each animated stroke path adds its
      binding, each skipped one adds nothing, and indices are positions in
      `strokes`, skipped paths included. */
  function GlyphBindings(charIndex: nat, previous: nat, strokes: seq<PathElement>): seq<Binding> {
    if |strokes| == 0 then []
    else
      var pathIndex := |strokes| - 1;
      var path := strokes[pathIndex];
      GlyphBindings(charIndex, previous, strokes[..pathIndex])
      + (if Animated(path) then [BindingFor(charIndex, pathIndex, previous, path.id.value)] else [])
  }

  /** The positions of the animated stroke paths, in ascending order. */
  function AnimatedIndices(strokes: seq<PathElement>): (r: seq<nat>)
    ensures forall k :: 0 <= k < |r| ==> r[k] < |strokes| && Animated(strokes[r[k]])
    ensures forall i :: 0 <= i < |strokes| && Animated(strokes[i]) ==> i in r
    ensures forall k, l :: 0 <= k < l < |r| ==> r[k] < r[l]
  {
    if |strokes| == 0 then []
    else
      var n := |strokes| - 1;
      var front := AnimatedIndices(strokes[..n]);
      front + (if Animated(strokes[n]) then [n] else [])
  }

  /** When no stroke path is skipped, the k-th binding is for path k. */
  lemma {:induction false} AllAnimatedIndices(strokes: seq<PathElement>)
    requires forall k :: 0 <= k < |strokes| ==> Animated(strokes[k])
    ensures |AnimatedIndices(strokes)| == |strokes|
    ensures forall k :: 0 <= k < |strokes| ==> AnimatedIndices(strokes)[k] == k
  {
    if |strokes| > 0 {
      AllAnimatedIndices(strokes[..|strokes| - 1]);
    }
  }

  /** The glyph's bindings are exactly one per animated stroke path, in path
      order, each computed from the path's ORIGINAL position. */
  lemma {:induction false} GlyphBindingsFollowPaths(charIndex: nat, previous: nat, strokes: seq<PathElement>)
    ensures var bs := GlyphBindings(charIndex, previous, strokes);
            var ix := AnimatedIndices(strokes);
            |bs| == |ix|
            && forall k :: 0 <= k < |bs| ==>
                 bs[k] == BindingFor(charIndex, ix[k], previous, strokes[ix[k]].id.value)
  {
    if |strokes| > 0 {
      var n := |strokes| - 1;
      var front := strokes[..n];
      GlyphBindingsFollowPaths(charIndex, previous, front);
      var bs0 := GlyphBindings(charIndex, previous, front);
      var ix0 := AnimatedIndices(front);
      var bs := GlyphBindings(charIndex, previous, strokes);
      var ix := AnimatedIndices(strokes);
      var extra := if Animated(strokes[n]) then [BindingFor(charIndex, n, previous, strokes[n].id.value)] else [];
      var extraIx := if Animated(strokes[n]) then [n] else [];
      assert bs == bs0 + extra;
      assert ix == ix0 + extraIx;
      forall k | 0 <= k < |bs|
        ensures bs[k] == BindingFor(charIndex, ix[k], previous, strokes[ix[k]].id.value)
      {
        if k < |bs0| {
          assert bs[k] == bs0[k] && ix[k] == ix0[k];
          assert strokes[ix0[k]] == front[ix0[k]];
        }
      }
    }
  }

  /** The style element a glyph receives (lines 107-115). */
  datatype StyleBlock = StyleBlock(id: string, text: string)

  /** One drawn glyph: its slot index, the width and height set on its root,
      the id set on its root (`None`: the component sets none and the asset's
      own id, if any, stays), the bindings of its strokes and the style block
      carrying them. */
  datatype SubDrawing = SubDrawing(charIndex: nat, width: nat, height: nat, rootId: Option<string>,
                                   bindings: seq<Binding>, style: Option<StyleBlock>)

  /** A slot that yields a sub-drawing: markup with an `<svg>` root (lines 39, 45). */
  predicate IsDrawn(slot: Slot) {
    slot.Markup? && slot.hasRoot
  }

  function RuleText(b: Binding): string {
    Css.RuleText(b.name, b.selector, b.durationTenths, 5 * b.delaySteps)
  }

  function RuleTexts(bs: seq<Binding>): (r: seq<string>)
    ensures |r| == |bs|
  {
    if |bs| == 0 then [] else RuleTexts(bs[..|bs| - 1]) + [RuleText(bs[|bs| - 1])]
  }

  /** Lines 106-115: the style element, created only when there is at least
      one binding. Its id carries the glyph's slot index. */
  function StyleFor(charIndex: nat, bs: seq<Binding>): Option<StyleBlock> {
    if |bs| > 0 then
      Some(StyleBlock("kanji-animations-" + Decimal.NatToDecimal(charIndex), Css.StyleText(RuleTexts(bs))))
    else None
  }

  /** Lines 41-118 for the glyph at `charIndex`. */
  function DrawingFor(px: nat, slots: seq<Slot>, charIndex: nat): SubDrawing
    requires charIndex < |slots| && IsDrawn(slots[charIndex])
  {
    var bs := GlyphBindings(charIndex, PreviousStrokes(slots, charIndex), StrokePaths(slots[charIndex].paths));
    SubDrawing(charIndex, px, px, None, bs, StyleFor(charIndex, bs))
  }

  /** The `svgArray.forEach` of lines 38-119 over the first `n` slots: the
      sub-drawings of drawn slots, in slot order, each keeping its slot index. */
  function DrawingsUpTo(px: nat, slots: seq<Slot>, n: nat): (ds: seq<SubDrawing>)
    requires n <= |slots|
    ensures |ds| <= n
    ensures forall i :: 0 <= i < |ds| ==>
              ds[i].charIndex < n && IsDrawn(slots[ds[i].charIndex])
              && ds[i] == DrawingFor(px, slots, ds[i].charIndex)
    ensures forall i, j :: 0 <= i < j < |ds| ==> ds[i].charIndex < ds[j].charIndex
  {
    if n == 0 then []
    else
      var front := DrawingsUpTo(px, slots, n - 1);
      if IsDrawn(slots[n - 1]) then front + [DrawingFor(px, slots, n - 1)] else front
  }

  /** No drawn slot is left out: every slot with markup and a root has its
      sub-drawing. */
  lemma {:induction false} DrawingsCoverDrawnSlots(px: nat, slots: seq<Slot>, n: nat, c: nat)
    requires n <= |slots| && c < n && IsDrawn(slots[c])
    ensures exists i :: 0 <= i < |DrawingsUpTo(px, slots, n)| && DrawingsUpTo(px, slots, n)[i].charIndex == c
  {
    var ds := DrawingsUpTo(px, slots, n);
    var front := DrawingsUpTo(px, slots, n - 1);
    if IsDrawn(slots[n - 1]) {
      var d := DrawingFor(px, slots, n - 1);
      assert ds == front + [d];
      if c == n - 1 {
        assert ds[|front|] == d;
      } else {
        DrawingsCoverDrawnSlots(px, slots, n - 1, c);
        var i :| 0 <= i < |front| && front[i].charIndex == c;
        assert ds[i] == front[i];
      }
    } else {
      assert ds == front;
      DrawingsCoverDrawnSlots(px, slots, n - 1, c);
    }
  }

  /** The outcome of one pass: the size guard refused it (a warning and nothing
      else), or the sub-drawings in reading order. */
  datatype Outcome = SizeRejected | Rendered(drawings: seq<SubDrawing>)

  /** One pass of the effect for the resolved slots. */
  function Render(size: Size, slots: seq<Slot>): (r: Outcome)
    ensures r.SizeRejected? <==> !ValidSize(size)
    ensures r.Rendered? ==> |r.drawings| <= |slots|
    ensures r.Rendered? ==> forall i :: 0 <= i < |r.drawings| ==>
              r.drawings[i].width == size.value.Floor && r.drawings[i].height == size.value.Floor
  {
    if !ValidSize(size) then SizeRejected
    else Rendered(DrawingsUpTo(size.value.Floor as nat, slots, |slots|))
  }

  /** Sub-drawings come in strictly increasing glyph order, so no glyph has
      more than one. */
  lemma RenderGlyphOrder(size: Size, slots: seq<Slot>)
    requires ValidSize(size)
    ensures forall i, j :: 0 <= i < j < |Render(size, slots).drawings| ==>
              Render(size, slots).drawings[i].charIndex < Render(size, slots).drawings[j].charIndex
  {
  }

  // ---------------------------------------------------------------------------
  // Prefix sums of stroke counts
  // ---------------------------------------------------------------------------

  /** Moving past one slot adds exactly that slot's stroke count. */
  lemma PreviousStrokesStep(slots: seq<Slot>, c: nat)
    requires c < |slots|
    ensures PreviousStrokes(slots, c + 1) == PreviousStrokes(slots, c) + StrokeCount(slots[c])
  {
    assert slots[..c + 1][..c] == slots[..c];
  }

  /** A missing glyph adds nothing to the strokes before the glyphs after it. */
  lemma MissingAddsNothing(slots: seq<Slot>, c: nat)
    requires c < |slots| && slots[c].Missing?
    ensures PreviousStrokes(slots, c + 1) == PreviousStrokes(slots, c)
  {
    PreviousStrokesStep(slots, c);
  }

  /** Every glyph after `c` is preceded by all of `c`'s strokes and those before it. */
  lemma {:induction false} PreviousStrokesGrow(slots: seq<Slot>, c: nat, later: nat)
    requires c < later <= |slots|
    ensures PreviousStrokes(slots, later) >= PreviousStrokes(slots, c) + StrokeCount(slots[c])
  {
    PreviousStrokesStep(slots, later - 1);
    if later - 1 > c {
      PreviousStrokesGrow(slots, c, later - 1);
    }
  }

  /** The count over a concatenation is the sum of the counts. */
  lemma {:induction false} CountStrokesAppend(a: seq<Slot>, b: seq<Slot>)
    ensures CountStrokes(a + b) == CountStrokes(a) + CountStrokes(b)
  {
    if |b| == 0 {
      assert a + b == a;
    } else {
      assert (a + b)[..|a + b| - 1] == a + b[..|b| - 1];
      CountStrokesAppend(a, b[..|b| - 1]);
    }
  }

  /** Deleting a missing slot from the text does not change the strokes that
      precede any other glyph: it contributed nothing to the prefix sums. */
  lemma DeletingMissingSlot(slots: seq<Slot>, m: nat, c: nat)
    requires m < |slots| && slots[m].Missing?
    requires c < |slots| && c != m
    ensures var rest := slots[..m] + slots[m + 1..];
            var c' := if c < m then c else c - 1;
            c' < |rest| && PreviousStrokes(rest, c') == PreviousStrokes(slots, c)
  {
    var rest := slots[..m] + slots[m + 1..];
    if c < m {
      assert rest[..c] == slots[..c];
    } else {
      assert rest[..c - 1] == slots[..m] + slots[m + 1..c];
      assert slots[..c] == slots[..m] + [slots[m]] + slots[m + 1..c];
      CountStrokesAppend(slots[..m], slots[m + 1..c]);
      CountStrokesAppend(slots[..m] + [slots[m]], slots[m + 1..c]);
      CountStrokesAppend(slots[..m], [slots[m]]);
      assert CountStrokes([slots[m]]) == 0 by {
        assert [slots[m]][..0] == [];
      }
    }
  }

  // ---------------------------------------------------------------------------
  // Path selection and the per-path guard
  // ---------------------------------------------------------------------------

  /** Every path the selector picks has a non-empty id, so the `!pathId` guard
      of line 68 never skips one: only zero-length paths are skipped. */
  lemma SelectedPathsHaveIds(paths: seq<PathElement>)
    ensures forall k :: 0 <= k < |StrokePaths(paths)| ==>
              var p := StrokePaths(paths)[k];
              p.id.Some? && p.id.value != "" && (Animated(p) <==> !p.zeroLength)
  {
    forall k | 0 <= k < |StrokePaths(paths)|
      ensures var p := StrokePaths(paths)[k];
              p.id.Some? && p.id.value != "" && (Animated(p) <==> !p.zeroLength)
    {
      var p := StrokePaths(paths)[k];
      assert IsStrokePath(p);
      assert Strings.OccursAt(p.id.value, "-s", Strings.IndexOf(p.id.value, "-s").value);
    }
  }

  // ---------------------------------------------------------------------------
  // The schedule of the rendered output
  // ---------------------------------------------------------------------------

  /** The stroke paths of the glyph at `c`. */
  function StrokesOf(slots: seq<Slot>, c: nat): seq<PathElement>
    requires c < |slots| && IsDrawn(slots[c])
  {
    StrokePaths(slots[c].paths)
  }

  /** Binding `k` of a sub-drawing belongs to an animated stroke path `p` of its
      glyph: its name is `draw-{c}-{p}`, its selector is built from the path's
      id, it lasts 0.8 s, and its emitted delay is (strokes before the glyph + p)
      half-seconds. */
  lemma BindingTiming(size: Size, slots: seq<Slot>, i: nat, k: nat)
    requires Render(size, slots).Rendered?
    requires i < |Render(size, slots).drawings|
    requires k < |Render(size, slots).drawings[i].bindings|
    ensures var d := Render(size, slots).drawings[i];
            var b := d.bindings[k];
            d.charIndex < |slots| && IsDrawn(slots[d.charIndex])
            && exists p :: 0 <= p < |StrokesOf(slots, d.charIndex)|
                 && Animated(StrokesOf(slots, d.charIndex)[p])
                 && b.name == AnimationName.Name(d.charIndex, p)
                 && b.selector == Selector.IdSelector(StrokesOf(slots, d.charIndex)[p].id.value)
                 && b.durationTenths == DurationTenths
                 && b.delaySteps == PreviousStrokes(slots, d.charIndex) + p
  {
    DrawingAt(size, slots, i);
    var d := Render(size, slots).drawings[i];
    GlyphBindingAt(d.charIndex, PreviousStrokes(slots, d.charIndex), StrokesOf(slots, d.charIndex), k);
  }

  /** Sub-drawing `i` of the schedule is the drawing of a drawn glyph, with that
      glyph's bindings. */
  lemma DrawingAt(size: Size, slots: seq<Slot>, i: nat)
    requires Render(size, slots).Rendered?
    requires i < |Render(size, slots).drawings|
    ensures var d := Render(size, slots).drawings[i];
            d.charIndex < |slots| && IsDrawn(slots[d.charIndex])
            && d.bindings == GlyphBindings(d.charIndex, PreviousStrokes(slots, d.charIndex),
                                           StrokesOf(slots, d.charIndex))
  {
  }

  /** Binding `k` of one glyph is the binding of an animated stroke path `p`. */
  lemma GlyphBindingAt(c: nat, previous: nat, strokes: seq<PathElement>, k: nat)
    requires k < |GlyphBindings(c, previous, strokes)|
    ensures var b := GlyphBindings(c, previous, strokes)[k];
            exists p :: 0 <= p < |strokes| && Animated(strokes[p])
              && b.name == AnimationName.Name(c, p)
              && b.selector == Selector.IdSelector(strokes[p].id.value)
              && b.durationTenths == DurationTenths
              && b.delaySteps == previous + p
  {
    GlyphBindingsFollowPaths(c, previous, strokes);
    var p := AnimatedIndices(strokes)[k];
    assert GlyphBindings(c, previous, strokes)[k] == BindingFor(c, p, previous, strokes[p].id.value);
  }

  /** Conversely, every animated stroke path of a drawn glyph gets its binding,
      at its original position: skipped paths do not renumber later ones. */
  lemma AnimatedStrokeIsBound(size: Size, slots: seq<Slot>, c: nat, p: nat)
    requires ValidSize(size)
    requires c < |slots| && IsDrawn(slots[c])
    requires p < |StrokesOf(slots, c)| && Animated(StrokesOf(slots, c)[p])
    ensures exists i, k :: 0 <= i < |Render(size, slots).drawings|
              && Render(size, slots).drawings[i].charIndex == c
              && 0 <= k < |Render(size, slots).drawings[i].bindings|
              && Render(size, slots).drawings[i].bindings[k]
                 == BindingFor(c, p, PreviousStrokes(slots, c), StrokesOf(slots, c)[p].id.value)
  {
    var ds := Render(size, slots).drawings;
    DrawingsCoverDrawnSlots(size.value.Floor as nat, slots, |slots|, c);
    var i :| 0 <= i < |ds| && ds[i].charIndex == c;
    DrawingAt(size, slots, i);
    var strokes := StrokesOf(slots, c);
    GlyphBindingsFollowPaths(c, PreviousStrokes(slots, c), strokes);
    var ix := AnimatedIndices(strokes);
    var k :| 0 <= k < |ix| && ix[k] == p;
    assert ds[i].bindings[k] == BindingFor(c, p, PreviousStrokes(slots, c), strokes[p].id.value);
  }

  /** Within one glyph the bindings come in path order and the delays emitted
      for them grow by half a second per path index between them. */
  lemma DelaysIncreaseWithinGlyph(size: Size, slots: seq<Slot>, i: nat, k: nat, l: nat)
    requires Render(size, slots).Rendered?
    requires i < |Render(size, slots).drawings|
    requires k < l < |Render(size, slots).drawings[i].bindings|
    ensures var bs := Render(size, slots).drawings[i].bindings;
            bs[k].delaySteps < bs[l].delaySteps
  {
    var d := Render(size, slots).drawings[i];
    var c := d.charIndex;
    var strokes := StrokesOf(slots, c);
    GlyphBindingsFollowPaths(c, PreviousStrokes(slots, c), strokes);
    var ix := AnimatedIndices(strokes);
    assert ix[k] < ix[l];
  }

  /** The delay emitted for every binding of a later sub-drawing is larger than
      the delay emitted for every binding of an earlier one. Which rule a page
      applies to a path is a matter of the CSS cascade, which this module does
      not model (see `ScopedSchedule` for repeated characters). */
  lemma LaterGlyphsStartLater(size: Size, slots: seq<Slot>, i: nat, j: nat, k: nat, l: nat)
    requires Render(size, slots).Rendered?
    requires i < j < |Render(size, slots).drawings|
    requires k < |Render(size, slots).drawings[i].bindings|
    requires l < |Render(size, slots).drawings[j].bindings|
    ensures Render(size, slots).drawings[i].bindings[k].delaySteps
            < Render(size, slots).drawings[j].bindings[l].delaySteps
  {
    var ds := Render(size, slots).drawings;
    var ci := ds[i].charIndex;
    var cj := ds[j].charIndex;
    var si := StrokesOf(slots, ci);
    var sj := StrokesOf(slots, cj);
    GlyphBindingsFollowPaths(ci, PreviousStrokes(slots, ci), si);
    GlyphBindingsFollowPaths(cj, PreviousStrokes(slots, cj), sj);
    var p := AnimatedIndices(si)[k];
    var q := AnimatedIndices(sj)[l];
    assert ds[i].bindings[k].delaySteps == PreviousStrokes(slots, ci) + p;
    assert ds[j].bindings[l].delaySteps == PreviousStrokes(slots, cj) + q;
    assert p < StrokeCount(slots[ci]);
    PreviousStrokesGrow(slots, ci, cj);
  }

  /** No two bindings anywhere in the output share a keyframe name. */
  lemma AnimationNamesDistinct(size: Size, slots: seq<Slot>, i: nat, j: nat, k: nat, l: nat)
    requires Render(size, slots).Rendered?
    requires i < |Render(size, slots).drawings| && j < |Render(size, slots).drawings|
    requires k < |Render(size, slots).drawings[i].bindings|
    requires l < |Render(size, slots).drawings[j].bindings|
    requires Render(size, slots).drawings[i].bindings[k].name == Render(size, slots).drawings[j].bindings[l].name
    ensures i == j && k == l
  {
    var ds := Render(size, slots).drawings;
    var ci := ds[i].charIndex;
    var cj := ds[j].charIndex;
    GlyphBindingsFollowPaths(ci, PreviousStrokes(slots, ci), StrokesOf(slots, ci));
    GlyphBindingsFollowPaths(cj, PreviousStrokes(slots, cj), StrokesOf(slots, cj));
    var ixi := AnimatedIndices(StrokesOf(slots, ci));
    var ixj := AnimatedIndices(StrokesOf(slots, cj));
    AnimationName.NameInjective(ci, ixi[k], cj, ixj[l]);
  }

  /** A sub-drawing carries a style block exactly when one of its glyph's stroke
      paths is animated, and the block lists the bindings in path order. */
  lemma StyleOnlyWhenAnimated(px: nat, slots: seq<Slot>, c: nat)
    requires c < |slots| && IsDrawn(slots[c])
    ensures var d := DrawingFor(px, slots, c);
            var strokes := StrokesOf(slots, c);
            (d.style.Some? <==> exists p :: 0 <= p < |strokes| && Animated(strokes[p]))
            && (d.style.Some? ==> d.style.value.text == Css.StyleText(RuleTexts(d.bindings)))
  {
    var strokes := StrokesOf(slots, c);
    GlyphBindingsFollowPaths(c, PreviousStrokes(slots, c), strokes);
    var ix := AnimatedIndices(strokes);
    if exists p :: 0 <= p < |strokes| && Animated(strokes[p]) {
      var p :| 0 <= p < |strokes| && Animated(strokes[p]);
      assert p in ix;
    }
  }
}

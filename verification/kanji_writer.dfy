/** The component as a whole (`src/components/KanjiWriter.tsx`): the size prop
    with its default, the lookup of every glyph in the asset table, and one pass
    of the schedule. Parsing markup into elements is the browser's work and is
    a parameter here. */
module KanjiWriter {
  import opened Maybe
  import AssetTable
  import opened StrokeSchedule
  import Strings
  import Utf16

  /** Line 10: an absent `size` prop means 100. */
  function SizeProp(given: Option<Size>): (size: Size)
    ensures given.None? ==> ValidSize(size) && size.value.Floor == 100
    ensures given.Some? ==> size == given.value
  {
    if given.None? then Finite(100.0) else given.value
  }

  /** What parsing a markup string yields: whether it has an `<svg>` element, and
      its `<path>` elements in document order. */
  datatype Parsed = Parsed(hasRoot: bool, paths: seq<PathElement>)

  /** The slot of one glyph: `undefined` and the empty string are both falsy and
      skipped (lines 39, 78); any other markup is parsed. */
  function SlotOf(markup: Option<string>, parse: string -> Parsed): Slot
  {
    if markup.None? || markup.value == "" then Missing
    else Markup(parse(markup.value).hasRoot, parse(markup.value).paths)
  }

  /** Line 30: every glyph looked up, results kept in text order. */
  function Resolve(table: map<AssetTable.Key, string>, glyphs: seq<AssetTable.Key>,
                   parse: string -> Parsed): (slots: seq<Slot>)
    ensures |slots| == |glyphs|
    ensures forall c :: 0 <= c < |glyphs| ==>
              (slots[c].Missing? <==> glyphs[c] !in table || table[glyphs[c]] == "")
    ensures forall c :: 0 <= c < |glyphs| && glyphs[c] in table && table[glyphs[c]] != "" ==>
              slots[c] == Markup(parse(table[glyphs[c]]).hasRoot, parse(table[glyphs[c]]).paths)
  {
    seq(|glyphs|, c requires 0 <= c < |glyphs| => SlotOf(AssetTable.Lookup(table, glyphs[c]), parse))
  }

  /** One run of the effect (lines 13-120) for the given text and size: the
      text is split into characters (line 27), each is looked up (line 30), and
      the schedule is built over the results. */
  function RenderText(sizeProp: Option<Size>, text: seq<Utf16.CodeUnit>,
                      table: map<AssetTable.Key, string>, parse: string -> Parsed): (r: Outcome)
    ensures r.SizeRejected? <==> !ValidSize(SizeProp(sizeProp))
    ensures r.Rendered? ==> |r.drawings| <= |Utf16.CodePoints(text)|
  {
    Render(SizeProp(sizeProp), Resolve(table, Utf16.CodePoints(text), parse))
  }

  /** A character with no asset produces no sub-drawing, and the other
      characters keep their positions in the text. */
  lemma UnknownGlyphSkipped(sizeProp: Option<Size>, text: seq<Utf16.CodeUnit>,
                            table: map<AssetTable.Key, string>, parse: string -> Parsed, c: nat)
    requires c < |Utf16.CodePoints(text)| && Utf16.CodePoints(text)[c] !in table
    requires RenderText(sizeProp, text, table, parse).Rendered?
    ensures forall i :: 0 <= i < |RenderText(sizeProp, text, table, parse).drawings| ==>
              RenderText(sizeProp, text, table, parse).drawings[i].charIndex != c
  {
  }

  // ---------------------------------------------------------------------------
  // One glyph, two glyphs
  // ---------------------------------------------------------------------------

  /** A single glyph whose S stroke paths are all animated: one sub-drawing of
      the requested size, stroke k named `draw-0-k`, with a delay of k half-seconds
      and a duration of 0.8 s (for 日 at size 200: four strokes with delays 0, 0.5, 1 and 1.5 s). */
  lemma SingleGlyphSchedule(size: Size, paths: seq<PathElement>)
    requires ValidSize(size)
    requires forall k :: 0 <= k < |paths| ==> IsStrokePath(paths[k]) && Animated(paths[k])
    ensures var r := Render(size, [Markup(true, paths)]);
            && r.Rendered? && |r.drawings| == 1
            && r.drawings[0].width == size.value.Floor && r.drawings[0].height == size.value.Floor
            && |r.drawings[0].bindings| == |paths|
            && (forall k :: 0 <= k < |paths| ==>
                  && r.drawings[0].bindings[k].name == AnimationName.Name(0, k)
                  && r.drawings[0].bindings[k].delaySteps == k
                  && r.drawings[0].bindings[k].durationTenths == DurationTenths)
  {
    var slots := [Markup(true, paths)];
    var px := size.value.Floor as nat;
    assert PreviousStrokes(slots, 0) == 0 by {
      assert slots[..0] == [];
    }
    AllStrokePathsSelected(paths);
    GlyphBindingsFollowPaths(0, 0, paths);
    AllAnimatedIndices(paths);
    assert DrawingsUpTo(px, slots, 1) == [DrawingFor(px, slots, 0)];
  }

  /** Two glyphs with S1 and S2 stroke paths, the second starting with an
      animated one: the first binding of the second glyph is emitted
      with a delay of S1 half-seconds. */
  lemma SecondGlyphStartsAfterFirst(size: Size, first: seq<PathElement>, second: seq<PathElement>)
    requires ValidSize(size)
    requires forall k :: 0 <= k < |first| ==> IsStrokePath(first[k])
    requires |second| > 0 && IsStrokePath(second[0]) && Animated(second[0])
    ensures var r := Render(size, [Markup(true, first), Markup(true, second)]);
            && r.Rendered? && |r.drawings| == 2
            && |r.drawings[1].bindings| > 0
            && r.drawings[1].bindings[0].delaySteps == |first|
  {
    var slots := [Markup(true, first), Markup(true, second)];
    var px := size.value.Floor as nat;
    AllStrokePathsSelected(first);
    assert PreviousStrokes(slots, 1) == |first| by {
      assert slots[..0] == [];
      PreviousStrokesStep(slots, 0);
    }
    FirstBindingStartsAtPrevious(1, |first|, second);
    TwoDrawings(px, slots);
  }

  lemma TwoDrawings(px: nat, slots: seq<Slot>)
    requires |slots| == 2 && IsDrawn(slots[0]) && IsDrawn(slots[1])
    ensures DrawingsUpTo(px, slots, 2) == [DrawingFor(px, slots, 0), DrawingFor(px, slots, 1)]
  {
    assert DrawingsUpTo(px, slots, 1) == [DrawingFor(px, slots, 0)];
  }

  /** A glyph whose first path is an animated stroke path emits it with the
      delay of the strokes before the glyph. */
  lemma FirstBindingStartsAtPrevious(charIndex: nat, previous: nat, paths: seq<PathElement>)
    requires |paths| > 0 && IsStrokePath(paths[0]) && Animated(paths[0])
    ensures var bs := GlyphBindings(charIndex, previous, StrokePaths(paths));
            |bs| > 0 && bs[0].delaySteps == previous
  {
    var strokes := StrokePaths(paths);
    SelectedHead(paths);
    GlyphBindingsFollowPaths(charIndex, previous, strokes);
    var ix := AnimatedIndices(strokes);
    assert 0 in ix;
    assert ix[0] == 0;
  }

  lemma SelectedHead(paths: seq<PathElement>)
    requires |paths| > 0 && IsStrokePath(paths[0])
    ensures |StrokePaths(paths)| > 0 && StrokePaths(paths)[0] == paths[0]
  {
    var head := [paths[0]];
    assert paths == head + paths[1..];
    StrokePathsAppend(head, paths[1..]);
    assert head[..0] == [];
    assert StrokePaths(head) == StrokePaths([]) + [paths[0]];
  }
}

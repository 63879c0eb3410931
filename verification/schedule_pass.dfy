/** The schedule computed the way a single left-to-right pass would: one running
    total of strokes seen so far instead of re-counting every earlier glyph for
    each path (lines 77-83 recount them for every path). It yields exactly the
    output of `StrokeSchedule.Render`. */
module SchedulePass {
  import opened StrokeSchedule

  /** The bindings of one glyph, one path at a time. */
  method GlyphPass(charIndex: nat, previous: nat, strokes: seq<PathElement>) returns (bs: seq<Binding>)
    ensures |bs| == |AnimatedIndices(strokes)|
    ensures forall k :: 0 <= k < |bs| ==>
              var p := AnimatedIndices(strokes)[k];
              bs[k] == BindingFor(charIndex, p, previous, strokes[p].id.value)
    ensures bs == GlyphBindings(charIndex, previous, strokes)
  {
    bs := [];
    var p := 0;
    while p < |strokes|
      invariant p <= |strokes|
      invariant bs == GlyphBindings(charIndex, previous, strokes[..p])
    {
      assert strokes[..p + 1][..p] == strokes[..p];
      var path := strokes[p];
      if Animated(path) {
        bs := bs + [BindingFor(charIndex, p, previous, path.id.value)];
      }
      p := p + 1;
    }
    assert strokes[..|strokes|] == strokes;
    GlyphBindingsFollowPaths(charIndex, previous, strokes);
  }

  /** Moving past slot `c` appends its sub-drawing when it is drawn. */
  lemma DrawingsUpToStep(px: nat, slots: seq<Slot>, c: nat)
    requires c < |slots|
    ensures DrawingsUpTo(px, slots, c + 1)
            == if IsDrawn(slots[c]) then DrawingsUpTo(px, slots, c) + [DrawingFor(px, slots, c)]
               else DrawingsUpTo(px, slots, c)
  {
  }

  /** One pass over all slots, carrying the number of strokes seen so far. */
  method RenderPass(size: Size, slots: seq<Slot>) returns (r: Outcome)
    ensures r == Render(size, slots)
  {
    if !ValidSize(size) {
      return SizeRejected;
    }
    var px := size.value.Floor as nat;
    var drawings: seq<SubDrawing> := [];
    var seen := 0;
    var c := 0;
    while c < |slots|
      invariant c <= |slots|
      invariant seen == PreviousStrokes(slots, c)
      invariant drawings == DrawingsUpTo(px, slots, c)
    {
      PreviousStrokesStep(slots, c);
      DrawingsUpToStep(px, slots, c);
      var slot := slots[c];
      if slot.Markup? {
        var strokes := StrokePaths(slot.paths);
        if slot.hasRoot {
          var bs := GlyphPass(c, seen, strokes);
          drawings := drawings + [SubDrawing(c, px, px, Maybe.None, bs, StyleFor(c, bs))];
        }
        seen := seen + |strokes|;
      }
      c := c + 1;
    }
    return Rendered(drawings);
  }
}

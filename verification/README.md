# kanji-writer in Dafny

A model of the core of kanji-writer, a React widget that draws CJK characters
stroke by stroke. It has two parts.

- **The asset table** (`src/data/index.ts`). Every bundled `./kanji/<hex>.svg`
  file is stored under the character its file name encodes. The stem is the
  last path segment with its first `.svg` removed. It is read with
  `parseInt(stem, 16)` and turned into a character with
  `String.fromCodePoint`. A file with an empty stem is skipped. So is one whose
  number is NaN or not a code point: `fromCodePoint` throws and the loop only
  warns. When two files decode to the same character, the later one wins.
  `getKanjiSVG` is a plain read of the table.
- **The stroke schedule** (`src/components/KanjiWriter.tsx`). The `size` prop
  must be a positive integer; it defaults to 100. The text is split into code
  points, and each one is looked up in the table. For every glyph whose markup
  has an `<svg>` root, the component selects the paths whose id contains `-s`.
  It animates those with a non-empty id and a non-zero length. Each animated
  path gets:
  - the keyframe name `draw-{charIndex}-{pathIndex}`;
  - an id selector with every `:` escaped as `\:`;
  - a duration of 0.8 s;
  - a delay of 0.5 s × (strokes of all earlier glyphs + pathIndex).

  A glyph gets a style block only when it has at least one such rule.

Modules, one per file:

| module | file | models |
|---|---|---|
| `Maybe` | maybe.dfy | `Option`, standing for `undefined`, NaN and thrown errors |
| `Decimal` | decimal.dfy | `Number#toString` on non-negative integers |
| `Hex` | hex.dfy | `parseInt(s, 16)` (section 19.2.5 of ECMA-262) |
| `Utf16` | utf16.dfy | `String.fromCodePoint` and the string iterator behind `Array.from(text)` |
| `Strings` | strings.dfy | `indexOf`, `replace` with a string pattern, `join` |
| `AssetTable` | asset_table.dfy | the loop of `src/data/index.ts` and `getKanjiSVG` |
| `Selector` | selector.dfy | the `:` escaping of the id selector |
| `AnimationName` | animation_name.dfy | keyframe names and their parser |
| `Css` | css.dfy | the text of one animation rule and of the style block |
| `StrokeSchedule` | schedule.dfy | the size guard, path selection, prefix stroke counts, bindings and sub-drawings |
| `ScopedSchedule` | scoped_schedule.dfy | a repeated character as the code handles it, and a corrected schedule |
| `SchedulePass` | schedule_pass.dfy | the same schedule as loops with a running stroke total |
| `KanjiWriter` | kanji_writer.dfy | the component: size default, lookup of each character, one render |

Delays are counted in half-second steps (`delaySteps`) and durations in tenths
of a second. The model therefore needs no fractions. Glyph keys are sequences
of UTF-16 code units, because `String.fromCodePoint` can produce a lone
surrogate. Parsing markup is the browser's job. It is a parameter
(`parse: string -> Parsed`), which gives each path's id and whether its
length is zero.

Facts about the code that the model keeps:
- The asset table is built eagerly, once, when its module loads, and is keyed
  by the character. Any hex stem is accepted, whatever its width.
- Strokes are taken in document order.
- The preceding-stroke count uses every `-s` path of an earlier glyph. That
  includes zero-length paths and the paths of markup that has no `<svg>`
  root. So the stroke count can run ahead of the animated strokes.
- A glyph with at least one rule gets a new style block with id
  `kanji-animations-{charIndex}`. Line 108 first searches the asset's own
  markup for `style#kanji-animations`. The model assumes that no bundled asset
  contains such an element, so the block is always created.

## Model

| member | source | states |
|---|---|---|
| KanjiWriter.SizeProp | src/components/KanjiWriter.tsx:10 | an absent size prop means 100, which passes the size guard; a given size is used as it is |
| StrokeSchedule.ValidSize | src/components/KanjiWriter.tsx:14 | definition of the size guard; its properties are stated by StrokeSchedule.Render |
| StrokeSchedule.Render | src/components/KanjiWriter.tsx:14-17 | nothing is drawn exactly when size is not a positive integer; otherwise every sub-drawing is size × size and there are no more sub-drawings than glyphs; that no glyph has two is stated by StrokeSchedule.RenderGlyphOrder |
| StrokeSchedule.RenderGlyphOrder | src/components/KanjiWriter.tsx:38-45 | the sub-drawings' glyph indices strictly increase, so each glyph has at most one sub-drawing |
| KanjiWriter.RenderText | src/components/KanjiWriter.tsx:13-30 | one run of the effect is rejected exactly when the size prop (after its default) is invalid, and yields no more sub-drawings than characters of the text; the per-glyph bound is stated by StrokeSchedule.RenderGlyphOrder |
| Utf16.CodePoints | src/components/KanjiWriter.tsx:27 | `Array.from(text)` splits the text into pieces whose concatenation is the text; each piece is a single unit or a high surrogate with the unit after it; a single-unit piece is never a high surrogate that a low surrogate follows, so surrogate pairs stay together |
| Utf16.CodePointsOfEncoding | src/components/KanjiWriter.tsx:27 | splitting the UTF-16 encoding of a sequence of scalar values gives back exactly each value's encoding, in order |
| KanjiWriter.SlotOf | src/components/KanjiWriter.tsx:39 | definition of one slot: falsy markup is missing, other markup is parsed; its properties are stated by KanjiWriter.Resolve |
| KanjiWriter.Resolve | src/components/KanjiWriter.tsx:30-39 | one slot per character in text order; a slot is missing exactly when the character is not in the table or maps to the empty string; otherwise it holds the parse of that character's markup |
| KanjiWriter.UnknownGlyphSkipped | src/components/KanjiWriter.tsx:38-39 | a character without an asset has no sub-drawing |
| StrokeSchedule.IsDrawn | src/components/KanjiWriter.tsx:39-45 | definition of a slot that yields a sub-drawing; its properties are stated by StrokeSchedule.DrawingsUpTo and StrokeSchedule.DrawingsCoverDrawnSlots |
| StrokeSchedule.DrawingsUpTo | src/components/KanjiWriter.tsx:38-45 | each sub-drawing belongs to an earlier slot with markup and an `<svg>` root, is that slot's drawing, and sub-drawings come in strictly increasing character order |
| StrokeSchedule.DrawingsCoverDrawnSlots | src/components/KanjiWriter.tsx:38-45 | every slot with markup and an `<svg>` root has a sub-drawing |
| StrokeSchedule.IsStrokePath | src/components/KanjiWriter.tsx:55 | definition of the `path[id*="-s"]` match; its properties are stated by StrokeSchedule.StrokePathsSelectExactly |
| StrokeSchedule.StrokePathsSelectExactly | src/components/KanjiWriter.tsx:55 | the selection holds exactly the paths whose id contains `-s` |
| StrokeSchedule.AllStrokePathsSelected | src/components/KanjiWriter.tsx:55 | when every path matches the selector, the selection is all the paths in order |
| StrokeSchedule.StrokePathsAppend | src/components/KanjiWriter.tsx:55 | selection keeps document order: selecting from a concatenation concatenates the selections |
| StrokeSchedule.StrokePaths | src/components/KanjiWriter.tsx:55 | every selected path matches `path[id*="-s"]` and there are no more of them than paths; its membership is stated by StrokeSchedule.StrokePathsSelectExactly |
| Strings.IndexOf | src/components/KanjiWriter.tsx:55 | `indexOf` returns the first position where the pattern occurs, and none when it occurs nowhere |
| StrokeSchedule.SelectedPathsHaveIds | src/components/KanjiWriter.tsx:66-74 | every selected path has a non-empty id, so the id guard never fires; a selected path is animated exactly when its length is non-zero |
| StrokeSchedule.Animated | src/components/KanjiWriter.tsx:66-74 | definition of an animated path; its properties are stated by StrokeSchedule.SelectedPathsHaveIds |
| StrokeSchedule.AnimatedIndices | src/components/KanjiWriter.tsx:66-74 | the animated path indices are strictly increasing, each one is an animated stroke, and every animated stroke is among them |
| StrokeSchedule.AllAnimatedIndices | src/components/KanjiWriter.tsx:66-74 | when every stroke is animated, the animated indices are 0, 1, …, n-1 |
| StrokeSchedule.GlyphBindingsFollowPaths | src/components/KanjiWriter.tsx:66-104 | a glyph's bindings are, in order, one per animated path index, each built from that index, the preceding stroke count and the path's id |
| StrokeSchedule.GlyphBindings | src/components/KanjiWriter.tsx:66-104 | definition of the per-path loop; its properties are stated by StrokeSchedule.GlyphBindingsFollowPaths |
| StrokeSchedule.BindingFor | src/components/KanjiWriter.tsx:85-103 | definition of one binding; its properties are stated by StrokeSchedule.BindingTiming |
| StrokeSchedule.RuleText | src/components/KanjiWriter.tsx:85-103 | definition of one rule's text, the delay in seconds being half the step count; its times are stated by Css.SecondsText |
| StrokeSchedule.StrokeCount | src/components/KanjiWriter.tsx:78-82 | definition of the reduce callback's contribution; its properties are stated by StrokeSchedule.PreviousStrokesStep |
| StrokeSchedule.PreviousStrokesStep | src/components/KanjiWriter.tsx:77-83 | the strokes before glyph c+1 are those before glyph c plus glyph c's selected paths |
| StrokeSchedule.MissingAddsNothing | src/components/KanjiWriter.tsx:77-83 | a missing glyph adds no strokes for the glyphs after it |
| StrokeSchedule.PreviousStrokesGrow | src/components/KanjiWriter.tsx:77-83 | a later glyph is preceded by all strokes of every earlier glyph |
| StrokeSchedule.CountStrokesAppend | src/components/KanjiWriter.tsx:77-83 | the stroke count of a concatenation of glyphs is the sum of the counts |
| StrokeSchedule.DeletingMissingSlot | src/components/KanjiWriter.tsx:77-83 | removing a missing glyph from the text changes no other glyph's preceding stroke count |
| StrokeSchedule.CountStrokes | src/components/KanjiWriter.tsx:77-83 | definition of the reduce; its properties are stated by StrokeSchedule.CountStrokesAppend and StrokeSchedule.PreviousStrokesStep |
| StrokeSchedule.PreviousStrokes | src/components/KanjiWriter.tsx:77-83 | definition of `previousStrokes`; its properties are stated by StrokeSchedule.PreviousStrokesStep, StrokeSchedule.MissingAddsNothing and StrokeSchedule.PreviousStrokesGrow |
| StrokeSchedule.BindingTiming | src/components/KanjiWriter.tsx:66-101 | every binding belongs to an animated stroke p of a drawn glyph c: named `draw-c-p`, selecting p's escaped id, 0.8 s long, with an emitted delay of (strokes before c + p) half-seconds |
| StrokeSchedule.AnimatedStrokeIsBound | src/components/KanjiWriter.tsx:66-74 | every animated stroke of a drawn glyph gets its binding, numbered by its original path index, so skipped paths do not renumber later ones |
| StrokeSchedule.DelaysIncreaseWithinGlyph | src/components/KanjiWriter.tsx:85 | within a glyph, the delay emitted for a later binding is strictly larger |
| StrokeSchedule.LaterGlyphsStartLater | src/components/KanjiWriter.tsx:77-85 | the delay emitted for every binding of a later glyph is larger than the delay emitted for every binding of an earlier glyph |
| StrokeSchedule.AnimationNamesDistinct | src/components/KanjiWriter.tsx:93 | two bindings with the same keyframe name are the same binding of the same sub-drawing |
| StrokeSchedule.StyleOnlyWhenAnimated | src/components/KanjiWriter.tsx:107-115 | a sub-drawing has a style block exactly when one of its stroke paths is animated, and the block's text is its rules joined by newlines in binding order |
| StrokeSchedule.RuleTexts | src/components/KanjiWriter.tsx:64-104 | definition of the `animations` array, one rule per binding; its properties are stated by StrokeSchedule.StyleOnlyWhenAnimated |
| StrokeSchedule.StyleFor | src/components/KanjiWriter.tsx:107-115 | definition of the style block; its properties are stated by StrokeSchedule.StyleOnlyWhenAnimated |
| StrokeSchedule.DrawingFor | src/components/KanjiWriter.tsx:41-118 | definition of one sub-drawing; its properties are stated by StrokeSchedule.BindingTiming and StrokeSchedule.StyleOnlyWhenAnimated |
| Css.StyleText | src/components/KanjiWriter.tsx:114 | definition of the joined rules; its properties are stated by StrokeSchedule.StyleOnlyWhenAnimated |
| Strings.Join | src/components/KanjiWriter.tsx:114 | definition of `join`; used by Css.StyleText |
| KanjiWriter.SingleGlyphSchedule | src/components/KanjiWriter.tsx:66-101 | a single glyph whose paths are all animated strokes yields one sub-drawing of the given size whose k-th binding is `draw-0-k`, has an emitted delay of k half-seconds and lasts 0.8 s |
| KanjiWriter.SecondGlyphStartsAfterFirst | src/components/KanjiWriter.tsx:77-85 | with two glyphs, when the second glyph's first path is an animated stroke, the second glyph's first binding is emitted with a delay of as many half-seconds as the first glyph has stroke paths |
| KanjiWriter.FirstBindingStartsAtPrevious | src/components/KanjiWriter.tsx:85 | a glyph whose first path is an animated stroke emits it with the delay of the strokes before the glyph |
| SchedulePass.GlyphPass | src/components/KanjiWriter.tsx:66-104 | the per-path loop yields exactly one binding per animated path index, in order, equal to the reference schedule |
| SchedulePass.RenderPass | src/components/KanjiWriter.tsx:38-119 | one pass carrying a running stroke total gives exactly the reference schedule's outcome |
| AnimationName.NameRoundTrip | src/components/KanjiWriter.tsx:93 | a keyframe name parses back to its character and path index |
| AnimationName.NameInjective | src/components/KanjiWriter.tsx:93 | distinct (character, path) pairs get distinct keyframe names |
| AnimationName.Name | src/components/KanjiWriter.tsx:93 | definition of the keyframe name; its properties are stated by AnimationName.NameRoundTrip and AnimationName.NameInjective |
| Decimal.NatToDecimal | src/components/KanjiWriter.tsx:93 | the decimal text of n is non-empty, all digits, has no leading zero, and reads back as n |
| Selector.Escape | src/components/KanjiWriter.tsx:100 | escaping adds one character per `:`, leaves every `:` preceded by a backslash, and unescapes back to the id |
| Selector.EscapeAppend | src/components/KanjiWriter.tsx:100 | escaping works character by character: the escape of a concatenation is the concatenation of the escapes |
| Selector.EscapeChar | src/components/KanjiWriter.tsx:100 | a `:` becomes `\:`; any other character is kept |
| Selector.NoColonUnchanged | src/components/KanjiWriter.tsx:100 | an id without `:` is used unchanged |
| Selector.EscapeInjective | src/components/KanjiWriter.tsx:100 | distinct ids give distinct selectors |
| Selector.IdSelector | src/components/KanjiWriter.tsx:100 | definition of the selector text; its properties are stated by Selector.Escape and Selector.EscapeAppend |
| Css.SecondsText | src/components/KanjiWriter.tsx:101 | the seconds text of a time in tenths reads back as that time; it has a `.` exactly when the tenths digit is non-zero, never ends in `0` after the `.`, and starts with `0` only below one second, which is how JavaScript prints the number |
| Css.RuleText | src/components/KanjiWriter.tsx:94-103 | definition of the rule template, whitespace included; its times are stated by Css.SecondsText |
| AssetTable.LastSegment | src/data/index.ts:9 | the segment is a suffix of the path with no `/`, and is preceded by a `/` unless it is the whole path |
| AssetTable.StemOfAssetPath | src/data/index.ts:9 | the stem of `./kanji/<name>.svg` is `<name>` when the name has no `/` or `.` |
| AssetTable.Stem | src/data/index.ts:9 | definition of the stem; its properties are stated by AssetTable.StemOfAssetPath and Strings.RemoveFirst |
| Strings.FirstOccurrence | src/data/index.ts:9 | a pattern occurring at i and nowhere earlier is found at i |
| Strings.RemoveFirst | src/data/index.ts:9 | replacing a pattern that does not occur leaves the text unchanged; otherwise the text is exactly the result with the pattern put back at its first occurrence |
| Hex.ParseIntHex | src/data/index.ts:14 | definition of `parseInt(s, 16)`; its properties are stated by Hex.ParseIntHexReads and Hex.ParseIntHexNaN |
| Hex.ParseIntHexReads | src/data/index.ts:14 | white space, a sign, an optional `0x`/`0X` and a run of hex digits followed by a non-digit parse to the signed value of the run, unless no prefix is given and the run is a lone `0` followed by `x`/`X`, which `parseInt` reads as a prefix |
| Hex.ParseIntHexNaN | src/data/index.ts:14 | with no hex digit after the white space, sign and prefix, the result is NaN |
| Hex.SkipsPrefix | src/data/index.ts:14 | the white space, sign and `0x` prefix are what `parseInt` skips, and the sign sets the result's sign |
| Hex.Unprefixed | src/data/index.ts:14 | definition of the text after the skipped part; its properties are stated by Hex.SkipsPrefix |
| Hex.HexPrefixLength | src/data/index.ts:14 | the digits read are the longest run of hex digits at the start |
| Hex.PlainHexParses | src/data/index.ts:14 | a run of hex digits, not followed by another hex digit, parses to its hexadecimal value, unless the run is a lone `0` followed by `x`/`X`, which `parseInt` reads as a prefix |
| Hex.LeadingZerosDoNotMatter | src/data/index.ts:14 | a leading zero does not change what a hex stem parses to |
| Hex.LeadingZeroIrrelevant | src/data/index.ts:14 | a leading zero does not change a hex numeral's value |
| Utf16.FromCodePoint | src/data/index.ts:15 | `String.fromCodePoint` succeeds exactly for numbers in 0..0x10FFFF, and its result decodes back to the number |
| Utf16.EncodeCodePoint | src/data/index.ts:15 | a code point below 0x10000 is one unit and a larger one is two units; either way the encoding decodes back to the code point |
| Utf16.EncodeInjective | src/data/index.ts:15-16 | distinct code points give distinct keys |
| AssetTable.KeyOf | src/data/index.ts:9-19 | a file contributes a key exactly when its stem is non-empty and parses to a code point, and the key decodes to that number |
| AssetTable.Lookup | src/data/index.ts:22 | definition of `getKanjiSVG`; its properties are stated by AssetTable.LookupAfterBuild |
| AssetTable.LookupAfterBuild | src/data/index.ts:8-22 | a lookup after the loop is undefined exactly when no file decodes to the key; otherwise it returns the markup of the last file that does |
| AssetTable.LookupAfterStore | src/data/index.ts:8-20 | the same property for the loop with any key function |
| AssetTable.Build | src/data/index.ts:8-20 | definition of the table; its properties are stated by AssetTable.LookupAfterBuild |
| AssetTable.Store | src/data/index.ts:8-20 | definition of the loop for any key function; its properties are stated by AssetTable.LookupAfterStore and AssetTable.StoreAppend |
| AssetTable.StoreAppend | src/data/index.ts:8-20 | one more file either leaves the table alone or stores its markup under its key |
| AssetTable.SkippedFileLeavesTable | src/data/index.ts:10-19 | a skipped file leaves the table exactly as it was |
| AssetTable.LaterFileOverwrites | src/data/index.ts:16 | a file overwrites its key's markup and touches no other key |
| AssetTable.AssetPathDecodes | src/data/index.ts:7-16 | every file named by the convention (the code point as zero-padded lower-case hex) is stored under its own character |
| AssetTable.NichiExample | src/data/index.ts:7 | `./kanji/065e5.svg` is stored under 日 (U+65E5) |
| Hex.PaddedHex | src/data/index.ts:7 | the padded hex numeral has at least the requested width, consists of hex digits and reads back as the number |
| ScopedSchedule.RepeatedGlyphSelectorsCollide | src/components/KanjiWriter.tsx:100 | two copies of the same one-stroke glyph bind the same selector, with emitted delays 0 and 0.5 s |
| ScopedSchedule.ScopedRender | src/components/KanjiWriter.tsx:100 | definition of the corrected schedule, each selector scoped below its sub-drawing's root; its properties are stated by ScopedSchedule.ScopedKeepsTiming and ScopedSchedule.ScopedSelectorsDistinct |
| ScopedSchedule.ScopedKeepsTiming | src/components/KanjiWriter.tsx:85-103 | the corrected schedule keeps the code's outcome, sub-drawings, names, durations and delays; it sets each root's id to `kanji-glyph-{charIndex}` where the code sets none, and scopes each selector below that root |
| ScopedSchedule.ScopeRoundTrip | src/components/KanjiWriter.tsx:100 | a scoped selector reads back as the sub-drawing it is scoped to |
| ScopedSchedule.ScopedSelectorsDistinct | src/components/KanjiWriter.tsx:100 | in the corrected schedule, each selector is `#<root id> ` followed by the code's selector, where the root id is the one set on that binding's own sub-drawing; roots of different sub-drawings carry different ids, and bindings of different sub-drawings never share a selector |
| ScopedSchedule.ScopedLaterGlyphsStartLater | src/components/KanjiWriter.tsx:77-100 | in the corrected schedule, every binding of a later sub-drawing has a larger delay and a different selector than every binding of an earlier one |
| ScopedSchedule.ScopedRepeatedGlyph | src/components/KanjiWriter.tsx:100 | corrected, two copies of one glyph get distinct selectors and the second copy a larger delay |

## Left out

- The React lifecycle: the effect's dependency array, the cleanup that empties the container (lines 123-128), and the unmount guard after the fetch (line 32).
- DOM mutation: emptying the container, `display: inline-block`, the `width`/`height` attribute text, the `stroke-dasharray`/`stroke-dashoffset` attributes, inserting the style element, and `appendChild`. The model returns the sub-drawings with their size, bindings and style text instead.
- Hiding the stroke-number group (lines 58-61), because it does not affect the schedule.
- `getTotalLength` (line 73) is the browser's geometry. Only whether the length is zero matters, and that is an input.
- Markup parsing (`innerHTML`, `querySelector`) is a parameter. The model assumes that every `-s` path of a markup lies inside its `<svg>` root, so counting through the wrapper (line 81) and selecting under the root (line 55) see the same paths.
- `Promise.all` and the asynchronous lookup: the table is already built, so the lookups are pure reads.
- Turning non-string `children` into text (line 20). The text is given as UTF-16 code units. For empty text (line 21) the effect returns early without clearing the container. The model yields no sub-drawings for it, which is the same schedule.
- `console.warn` on a rejected size or a skipped file, and the `try`/`catch` machinery. A skipped file is `None`.
- `import.meta.glob` (line 2): the files are given as a sequence in iteration order.
- The lookup of `style#kanji-animations` (line 108) searches the asset's own markup. The model assumes that no bundled asset contains such an element. An asset that did would have its element reused, keeping its own id.
- The CSS cascade: which of several rules a page applies to a path. The schedule lemmas speak of the delays the code emits. How a page resolves rules whose selectors are equal is covered under Findings.
- AssetTable.Lookup: keys are only what the table holds. Properties inherited from `Object.prototype` (such as `"constructor"`) are not modelled.
- Hex.ParseIntHex: does not model rounding to the nearest double above 2^53. Every such value is above 0x10FFFF and is skipped either way.
- Decimal.NatToDecimal: does not model exponent notation for numbers of 10^21 and above, because no character or path index gets that large.
- Css.SecondsText: the same limit as NatToDecimal. The rule text keeps the exact whitespace of lines 94-103.
- Several components on one page: the model is one component. Its corrected schedule keeps rules apart within that component only. Two components showing "一日" and "本日" would both emit `#kanji-glyph-1 #kvg\:065e5-s1`, and telling them apart needs a per-instance prefix.
- `src/App.tsx` and `eslint.config.js` are not part of this model.

## Findings

| source | as written | input that shows it | evidently intended | confidence | as-written member | corrected member |
|---|---|---|---|---|---|---|
| src/components/KanjiWriter.tsx:100 | each rule selects its path by `#<id>` alone, and a style element inside an inline `<svg>` applies to the whole page | the text "日日": both copies contain `kvg:065e5-s1` … `-s4`, and the second copy's block binds the same selectors with delays 2 s later; the rules are equally specific, so the later block wins for both copies and they draw at the same time | each copy is drawn by its own rules, so the second copy draws after the first (proved for the corrected schedule by ScopedSchedule.ScopedLaterGlyphsStartLater) | not executed; the equal selectors and the differing delays are proved, and the cascade outcome follows from CSS, which the model does not include | ScopedSchedule.RepeatedGlyphSelectorsCollide | ScopedSchedule.ScopedRender |

The model of the code (`StrokeSchedule`, `KanjiWriter`) keeps the selectors
as the code writes them. `ScopedSchedule.ScopedRender` is the corrected
schedule. It gives each sub-drawing's root the id
`kanji-glyph-{charIndex}` and puts that id in front of every selector. Its
names, durations and delays are those of the code, so the ordering lemmas carry
over to it. The scoping separates the glyphs of one component. The same
`kanji-glyph-{charIndex}` recurs in a second component on the same page, so
two components would also need a prefix of their own for each instance.

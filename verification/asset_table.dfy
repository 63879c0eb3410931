/** The glyph asset table of `src/data/index.ts`: every bundled `./kanji/<hex>.svg`
    file is keyed by the character whose code point its file name spells in hex,
    and `getKanjiSVG` reads that table. */
module AssetTable {
  import opened Maybe
  import Hex
  import Utf16
  import opened Strings

  /** A table key: a JavaScript string, as UTF-16 code units. */
  type Key = seq<Utf16.CodeUnit>

  /** One bundled file: its module path and its raw markup. */
  datatype Asset = Asset(path: string, markup: string)

  /** `path.split('/').pop()`: the text after the last `/`, or the whole path
      when it has none. */
  function LastSegment(path: string): (seg: string)
    ensures |seg| <= |path| && seg == path[|path| - |seg|..]
    ensures forall i :: 0 <= i < |seg| ==> seg[i] != '/'
    ensures |seg| < |path| ==> path[|path| - |seg| - 1] == '/'
  {
    if |path| == 0 || path[|path| - 1] == '/' then ""
    else LastSegment(path[..|path| - 1]) + [path[|path| - 1]]
  }

  /** The file name stem of line 9: the last path segment without its first `.svg`. */
  function Stem(path: string): string {
    RemoveFirst(LastSegment(path), ".svg")
  }

  /** The key a file contributes, or `None` when it is skipped: an empty stem
      (line 10), or a stem whose hex value is NaN or not a code point, for which
      `String.fromCodePoint` throws and the loop only warns (lines 12-19). */
  function KeyOf(a: Asset): (k: Option<Key>)
    ensures k.Some? <==> Stem(a.path) != "" && Hex.ParseIntHex(Stem(a.path)).Some?
                         && Utf16.IsCodePoint(Hex.ParseIntHex(Stem(a.path)).value)
    ensures k.Some? ==> Utf16.DecodeCodePoint(k.value) == Hex.ParseIntHex(Stem(a.path))
  {
    var stem := Stem(a.path);
    if stem == "" then None else Utf16.FromCodePoint(Hex.ParseIntHex(stem))
  }

  /** The loop of lines 8-20 over the files in iteration order. */
  function Build(assets: seq<Asset>): map<Key, string> {
    Store(KeyOf, assets)
  }

  /** Store each file's markup under the key `keyOf` gives it, in order,
      skipping files without a key. */
  function Store(keyOf: Asset -> Option<Key>, assets: seq<Asset>): map<Key, string> {
    if |assets| == 0 then map[]
    else
      var table := Store(keyOf, assets[..|assets| - 1]);
      var last := assets[|assets| - 1];
      match keyOf(last)
      case None => table
      case Some(k) => table[k := last.markup]
  }

  /** `getKanjiSVG`: a plain read of the table, `None` standing for `undefined`. */
  function Lookup(table: map<Key, string>, key: Key): Option<string>
  {
    if key in table then Some(table[key]) else None
  }

  /** File `i` is the last one in `assets` that `keyOf` sends to `key`. */
  ghost predicate LastWriter(keyOf: Asset -> Option<Key>, assets: seq<Asset>, i: int, key: Key) {
    && 0 <= i < |assets|
    && keyOf(assets[i]) == Some(key)
    && forall j :: i < j < |assets| ==> keyOf(assets[j]) != Some(key)
  }

  /** What a lookup in the built table returns: `undefined` exactly when no file
      decodes to the key, otherwise the markup of the LAST file that does, so a
      later file overwrites an earlier one with the same code point and a skipped
      file changes nothing. */
  lemma LookupAfterBuild(assets: seq<Asset>, key: Key)
    ensures Lookup(Build(assets), key).None? <==>
              forall i :: 0 <= i < |assets| ==> KeyOf(assets[i]) != Some(key)
    ensures Lookup(Build(assets), key).Some? ==>
              exists i :: LastWriter(KeyOf, assets, i, key) && Lookup(Build(assets), key).value == assets[i].markup
  {
    LookupAfterStore(KeyOf, assets, key);
  }

  lemma {:induction false} LookupAfterStore(keyOf: Asset -> Option<Key>, assets: seq<Asset>, key: Key)
    ensures key !in Store(keyOf, assets) <==>
              forall i :: 0 <= i < |assets| ==> keyOf(assets[i]) != Some(key)
    ensures key in Store(keyOf, assets) ==>
              exists i :: LastWriter(keyOf, assets, i, key) && Store(keyOf, assets)[key] == assets[i].markup
  {
    if |assets| > 0 {
      var n := |assets| - 1;
      var front := assets[..n];
      LookupAfterStore(keyOf, front, key);
      assert forall i :: 0 <= i < n ==> assets[i] == front[i];
      if keyOf(assets[n]) == Some(key) {
        assert LastWriter(keyOf, assets, n, key);
      } else if key in Store(keyOf, front) {
        var i :| LastWriter(keyOf, front, i, key) && Store(keyOf, front)[key] == front[i].markup;
        assert LastWriter(keyOf, assets, i, key);
      }
    }
  }

  /** One more file either leaves the table alone or stores its markup under its key. */
  lemma StoreAppend(keyOf: Asset -> Option<Key>, assets: seq<Asset>, file: Asset)
    ensures keyOf(file).None? ==> Store(keyOf, assets + [file]) == Store(keyOf, assets)
    ensures keyOf(file).Some? ==>
      Store(keyOf, assets + [file]) == Store(keyOf, assets)[keyOf(file).value := file.markup]
  {
    assert (assets + [file])[..|assets|] == assets;
  }

  /** A file that is skipped leaves the table exactly as it was. */
  lemma SkippedFileLeavesTable(assets: seq<Asset>, file: Asset)
    requires KeyOf(file).None?
    ensures Build(assets + [file]) == Build(assets)
  {
    StoreAppend(KeyOf, assets, file);
  }

  /** A file whose key is already present replaces the earlier markup and
      touches no other key. */
  lemma LaterFileOverwrites(assets: seq<Asset>, file: Asset, key: Key)
    requires KeyOf(file) == Some(key)
    ensures Build(assets + [file]) == Build(assets)[key := file.markup]
  {
    StoreAppend(KeyOf, assets, file);
  }

  /** The asset naming convention: the glyph's code point in lower-case hex,
      zero-padded to five digits, as a file of the `kanji` directory. */
  function AssetPath(cp: nat): string {
    "./kanji/" + Hex.PaddedHex(cp, 5) + ".svg"
  }

  /** The stem of a conventionally named file is the hex numeral itself. */
  lemma StemOfAssetPath(name: string)
    requires forall i :: 0 <= i < |name| ==> name[i] != '/' && name[i] != '.'
    ensures Stem("./kanji/" + name + ".svg") == name
  {
    var path := "./kanji/" + name + ".svg";
    var seg := name + ".svg";
    LastSegmentOfSuffix("./kanji/", seg);
    assert path == "./kanji/" + seg;
    var idx := IndexOf(seg, ".svg");
    assert OccursAt(seg, ".svg", |name|) by {
      assert seg[|name|..|name| + 4] == ".svg";
    }
    assert forall j :: 0 <= j < |name| ==> !OccursAt(seg, ".svg", j) by {
      forall j | 0 <= j < |name|
        ensures !OccursAt(seg, ".svg", j)
      {
        assert seg[j] == name[j];
        if j + 4 <= |seg| {
          assert seg[j..j + 4][0] == seg[j];
        }
      }
    }
    assert idx == Some(|name|);
    assert seg[..|name|] == name;
  }

  /** A trailing part with no `/` in it is the last segment of `prefix + seg`
      when `prefix` ends with `/`. */
  lemma {:induction false} LastSegmentOfSuffix(prefix: string, seg: string)
    requires |prefix| > 0 && prefix[|prefix| - 1] == '/'
    requires forall i :: 0 <= i < |seg| ==> seg[i] != '/'
    ensures LastSegment(prefix + seg) == seg
  {
    if |seg| > 0 {
      var path := prefix + seg;
      assert path[..|path| - 1] == prefix + seg[..|seg| - 1];
      LastSegmentOfSuffix(prefix, seg[..|seg| - 1]);
    } else {
      assert prefix + seg == prefix;
    }
  }

  /** Every glyph named by the convention is found under its own character:
      the file name decodes back to the code point it was made from. */
  lemma AssetPathDecodes(cp: nat, markup: string)
    requires Utf16.IsCodePoint(cp)
    ensures KeyOf(Asset(AssetPath(cp), markup)) == Some(Utf16.EncodeCodePoint(cp))
  {
    var name := Hex.PaddedHex(cp, 5);
    assert forall i :: 0 <= i < |name| ==> name[i] != '/' && name[i] != '.' by {
      forall i | 0 <= i < |name|
        ensures name[i] != '/' && name[i] != '.'
      {
        assert Hex.IsHexDigit(name[i]);
      }
    }
    StemOfAssetPath(name);
    Hex.PlainHexParses(name, "");
    assert name + "" == name;
  }

  /** The file `./kanji/065e5.svg` is stored under the character 日 (U+65E5). */
  lemma NichiExample(markup: string)
    ensures KeyOf(Asset("./kanji/065e5.svg", markup)) == Some(Utf16.EncodeCodePoint('日' as int))
  {
    var stem := "065e5";
    var path := "./kanji/065e5.svg";
    assert Hex.AllHex(stem);
    assert path == "./kanji/" + stem + ".svg";
    StemOfAssetPath(stem);
    assert Stem(path) == stem;
    NichiParses();
    assert KeyOf(Asset(path, markup)) == Utf16.FromCodePoint(Some(0x65E5));
  }

  lemma NichiParses()
    ensures Hex.ParseIntHex("065e5") == Some(0x65E5)
  {
    Hex.PlainHexParses("065e5", "");
    assert "065e5" + "" == "065e5";
    NichiValue();
  }

  lemma NichiValue()
    ensures Hex.AllHex("065e5") && Hex.HexValue("065e5") == '日' as int
  {
    assert "065e5"[..4] == "065e";
    assert "065e"[..3] == "065";
    assert "065"[..2] == "06";
    assert "06"[..1] == "0";
    assert "0"[..0] == "";
  }
}

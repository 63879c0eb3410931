/** The CSS id selector built for a stroke path: `#` followed by the path's id
    with every `:` written as `\:` (line 100 of `src/components/KanjiWriter.tsx`).
    Ids such as `kvg:065e5-s1` carry a namespace colon, which CSS would
    otherwise read as a pseudo-class. */
module Selector {

  /** Number of `:` characters in `s`. */
  function Colons(s: string): nat {
    if |s| == 0 then 0 else (if s[0] == ':' then 1 else 0) + Colons(s[1..])
  }

  /** `id.replace(/:/g, '\\:')`. Every colon of the result is escaped, one
      backslash is added per colon, and `Unescape` gives the id back. */
  function Escape(id: string): (r: string)
    ensures |r| == |id| + Colons(id)
    ensures forall i :: 0 <= i < |r| && r[i] == ':' ==> i > 0 && r[i - 1] == '\\'
    ensures Unescape(r) == id
  {
    if |id| == 0 then ""
    else
      var rest := Escape(id[1..]);
      if id[0] == ':' then
        var r := "\\:" + rest;
        assert r[2..] == rest;
        r
      else
        var r := [id[0]] + rest;
        assert r[1..] == rest;
        assert |rest| > 0 ==> rest[0] != ':';
        r
  }

  /** Reads `\:` as `:` and copies every other character. */
  function Unescape(s: string): string {
    if |s| == 0 then ""
    else if |s| >= 2 && s[0] == '\\' && s[1] == ':' then ":" + Unescape(s[2..])
    else [s[0]] + Unescape(s[1..])
  }

  /** Escaping works character by character: a `:` becomes `\:` and any other
      character is kept as it is. */
  lemma {:induction false} EscapeAppend(a: string, b: string)
    ensures Escape(a + b) == Escape(a) + Escape(b)
  {
    if |a| > 0 {
      var head := if a[0] == ':' then "\\:" else [a[0]];
      assert (a + b)[0] == a[0] && (a + b)[1..] == a[1..] + b;
      assert Escape(a) == head + Escape(a[1..]);
      assert Escape(a + b) == head + Escape(a[1..] + b);
      EscapeAppend(a[1..], b);
    } else {
      assert a + b == b;
    }
  }

  lemma EscapeChar(c: char)
    ensures Escape([c]) == if c == ':' then "\\:" else [c]
  {
    assert [c][1..] == "";
  }

  /** An id without colons is used as it is. */
  lemma {:induction false} NoColonUnchanged(id: string)
    requires forall i :: 0 <= i < |id| ==> id[i] != ':'
    ensures Escape(id) == id
  {
    if |id| > 0 {
      NoColonUnchanged(id[1..]);
    }
  }

  /** Distinct ids give distinct selectors. */
  lemma EscapeInjective(a: string, b: string)
    requires Escape(a) == Escape(b)
    ensures a == b
  {
    assert Unescape(Escape(a)) == a;
  }

  /** The selector text of line 100. */
  function IdSelector(id: string): string {
    "#" + Escape(id)
  }
}

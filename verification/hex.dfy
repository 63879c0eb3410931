/** Hexadecimal numerals: the value of a run of hex digits, JavaScript's
    `parseInt(s, 16)` (section 19.2.5 of ECMA-262), and the fixed-width
    lower-case numerals that name the glyph assets. */
module Hex {
  import opened Maybe

  predicate IsHexDigit(c: char) {
    ('0' <= c <= '9') || ('a' <= c <= 'f') || ('A' <= c <= 'F')
  }

  predicate AllHex(s: string) {
    forall i :: 0 <= i < |s| ==> IsHexDigit(s[i])
  }

  function HexDigitValue(c: char): (d: nat)
    requires IsHexDigit(c)
    ensures d < 16
  {
    if '0' <= c <= '9' then c as int - '0' as int
    else if 'a' <= c <= 'f' then c as int - 'a' as int + 10
    else c as int - 'A' as int + 10
  }

  /** Lower-case digit for a value below 16. */
  function HexDigitChar(d: nat): (c: char)
    requires d < 16
    ensures IsHexDigit(c) && HexDigitValue(c) == d
    ensures c != 'x' && c != 'X'
  {
    if d < 10 then ('0' as int + d) as char else ('a' as int + d - 10) as char
  }

  /** The value of a string of hex digits, most significant digit first. */
  function HexValue(s: string): nat
    requires AllHex(s)
  {
    if |s| == 0 then 0 else HexValue(s[..|s| - 1]) * 16 + HexDigitValue(s[|s| - 1])
  }

  /** Leading zeros do not change the value of a numeral. */
  lemma {:induction false} LeadingZeroIrrelevant(s: string)
    requires AllHex(s)
    ensures AllHex("0" + s) && HexValue("0" + s) == HexValue(s)
  {
    if |s| > 0 {
      var t := "0" + s;
      assert t[..|t| - 1] == "0" + s[..|s| - 1];
      LeadingZeroIrrelevant(s[..|s| - 1]);
    } else {
      assert HexValue("0") == HexValue("") * 16 + HexDigitValue('0');
    }
  }

  /** The characters ECMA-262 counts as WhiteSpace or LineTerminator (sections
      12.2 and 12.3): TAB, VT, FF, ZWNBSP, the space separators of Unicode
      category Zs, LF, CR, LS and PS. `TrimString` removes them before parsing. */
  predicate IsJsWhitespace(c: char) {
    var x := c as int;
    x == 0x09 || x == 0x0B || x == 0x0C || x == 0xFEFF
    || x == 0x20 || x == 0xA0 || x == 0x1680 || (0x2000 <= x <= 0x200A)
    || x == 0x202F || x == 0x205F || x == 0x3000
    || x == 0x0A || x == 0x0D || x == 0x2028 || x == 0x2029
  }

  /** The number of leading characters of `s` that satisfy `IsJsWhitespace`. */
  function LeadingWhitespace(s: string): (n: nat)
    ensures n <= |s|
    ensures forall i :: 0 <= i < n ==> IsJsWhitespace(s[i])
    ensures n < |s| ==> !IsJsWhitespace(s[n])
  {
    if |s| == 0 || !IsJsWhitespace(s[0]) then 0 else 1 + LeadingWhitespace(s[1..])
  }

  /** The length of the longest prefix of `s` made of hex digits. */
  function HexPrefixLength(s: string): (n: nat)
    ensures n <= |s|
    ensures AllHex(s[..n])
    ensures n < |s| ==> !IsHexDigit(s[n])
  {
    if |s| == 0 || !IsHexDigit(s[0]) then 0
    else
      var n := 1 + HexPrefixLength(s[1..]);
      assert s[..n] == [s[0]] + s[1..][..n - 1];
      n
  }

  /** JavaScript's `parseInt(s, 16)`: skip leading white space, read an optional
      sign, drop an optional `0x`/`0X`, then read the longest run of hex digits.
      No digit at all gives `NaN`, here `None`. The result is the exact integer;
      a negative zero is the integer 0. */
  function ParseIntHex(s: string): Option<int>
  {
    var body := Unprefixed(s);
    var end := HexPrefixLength(body);
    if end == 0 then None else Some(Sign(s) * HexValue(body[..end]))
  }

  /** `s` after the white space, sign and `0x` prefix that `parseInt` skips. */
  function Unprefixed(s: string): string {
    StripRadix(StripSign(s[LeadingWhitespace(s)..]))
  }

  function StripSign(t: string): string {
    if |t| > 0 && (t[0] == '-' || t[0] == '+') then t[1..] else t
  }

  function StripRadix(u: string): string {
    if |u| >= 2 && u[0] == '0' && (u[1] == 'x' || u[1] == 'X') then u[2..] else u
  }

  /** -1 when the first character after the white space is `-`, otherwise 1. */
  function Sign(s: string): (k: int)
    ensures k == 1 || k == -1
  {
    var t := s[LeadingWhitespace(s)..];
    if |t| > 0 && t[0] == '-' then -1 else 1
  }

  /** A run of hex digits with no sign, prefix or white space parses to its
      value, and parsing stops at the first character that is not a hex digit. */
  lemma PlainHexParses(s: string, rest: string)
    requires |s| > 0 && AllHex(s)
    requires |rest| > 0 ==> !IsHexDigit(rest[0])
    requires !(s[0] == '0' && |s + rest| >= 2 && ((s + rest)[1] == 'x' || (s + rest)[1] == 'X'))
    ensures ParseIntHex(s + rest) == Some(HexValue(s))
  {
    var t := s + rest;
    assert t[0] == s[0];
    UnprefixedDigits(t);
    HexRunLength(s, rest);
    assert t[..|s|] == s;
  }

  /** A string that starts with a hex digit, other than `0x`/`0X`, has nothing
      for `parseInt` to skip and a positive sign. */
  lemma UnprefixedDigits(t: string)
    requires |t| > 0 && IsHexDigit(t[0])
    requires !(t[0] == '0' && |t| >= 2 && (t[1] == 'x' || t[1] == 'X'))
    ensures Unprefixed(t) == t && Sign(t) == 1
  {
    assert !IsJsWhitespace(t[0]);
    assert LeadingWhitespace(t) == 0;
    assert t[0..] == t;
  }

  lemma {:induction false} HexRunLength(s: string, rest: string)
    requires AllHex(s)
    requires |rest| > 0 ==> !IsHexDigit(rest[0])
    ensures HexPrefixLength(s + rest) == |s|
  {
    if |s| > 0 {
      assert (s + rest)[1..] == s[1..] + rest;
      HexRunLength(s[1..], rest);
    } else {
      assert s + rest == rest;
    }
  }

  /** White space that `parseInt` skips: a run of it before a character that is
      not white space has exactly its own length. */
  lemma {:induction false} SkipsWhitespace(w: string, t: string)
    requires forall i :: 0 <= i < |w| ==> IsJsWhitespace(w[i])
    requires |t| > 0 ==> !IsJsWhitespace(t[0])
    ensures LeadingWhitespace(w + t) == |w|
  {
    if |w| > 0 {
      assert (w + t)[0] == w[0];
      assert (w + t)[1..] == w[1..] + t;
      SkipsWhitespace(w[1..], t);
    } else {
      assert w + t == t;
    }
  }

  predicate IsSign(sg: string) { sg == "" || sg == "+" || sg == "-" }
  predicate IsRadixPrefix(pre: string) { pre == "" || pre == "0x" || pre == "0X" }

  /** Leading white space changes neither what `parseInt` reads nor its sign. */
  lemma SkipsLeadingWhitespace(w: string, t: string)
    requires forall i :: 0 <= i < |w| ==> IsJsWhitespace(w[i])
    requires |t| > 0 ==> !IsJsWhitespace(t[0])
    ensures Unprefixed(w + t) == Unprefixed(t) && Sign(w + t) == Sign(t)
  {
    SkipsWhitespace(w, t);
    SkipsWhitespace("", t);
    assert "" + t == t;
    assert (w + t)[|w|..] == t;
    assert t[0..] == t;
  }

  /** After a sign and a `0x` prefix, `parseInt` reads `body`, with the sign's value. */
  lemma SkipsSignAndRadix(sg: string, pre: string, body: string)
    requires IsSign(sg) && IsRadixPrefix(pre)
    requires sg == "" && pre == "" && |body| > 0 ==>
               !IsJsWhitespace(body[0]) && body[0] != '+' && body[0] != '-'
    requires pre == "" ==> !(|body| >= 2 && body[0] == '0' && (body[1] == 'x' || body[1] == 'X'))
    ensures Unprefixed(sg + pre + body) == body
    ensures Sign(sg + pre + body) == if sg == "-" then -1 else 1
  {
    var u := pre + body;
    var t := sg + u;
    assert sg + pre + body == t;
    assert sg == "" && |u| > 0 ==> u[0] != '+' && u[0] != '-' && !IsJsWhitespace(u[0]) by {
      if |u| > 0 {
        if pre == "" { assert u[0] == body[0]; } else { assert u[0] == pre[0] == '0'; }
      }
    }
    SignStep(sg, u);
    RadixStep(pre, body);
  }

  /** A sign is skipped and sets the sign of the result. */
  lemma SignStep(sg: string, u: string)
    requires IsSign(sg)
    requires sg == "" && |u| > 0 ==> u[0] != '+' && u[0] != '-' && !IsJsWhitespace(u[0])
    ensures Unprefixed(sg + u) == StripRadix(u)
    ensures Sign(sg + u) == if sg == "-" then -1 else 1
  {
    var t := sg + u;
    assert LeadingWhitespace(t) == 0 by {
      if |t| > 0 {
        if sg == "" { assert t[0] == u[0]; } else { assert t[0] == sg[0]; }
      }
    }
    assert t[0..] == t;
    if sg == "" {
      assert t == u;
    } else {
      assert t[0] == sg[0] && t[1..] == u;
    }
  }

  /** A `0x` prefix is skipped. */
  lemma RadixStep(pre: string, body: string)
    requires IsRadixPrefix(pre)
    requires pre == "" ==> !(|body| >= 2 && body[0] == '0' && (body[1] == 'x' || body[1] == 'X'))
    ensures StripRadix(pre + body) == body
  {
    if pre == "" {
      assert pre + body == body;
    } else {
      assert (pre + body)[..2] == pre && (pre + body)[2..] == body;
    }
  }

  /** What `parseInt` skips before the digits: white space, a sign and a `0x`
      prefix. After them it reads `body`, with the sign's value. */
  lemma SkipsPrefix(w: string, sg: string, pre: string, body: string)
    requires forall i :: 0 <= i < |w| ==> IsJsWhitespace(w[i])
    requires IsSign(sg) && IsRadixPrefix(pre)
    requires sg == "" && pre == "" && |body| > 0 ==>
               !IsJsWhitespace(body[0]) && body[0] != '+' && body[0] != '-'
    requires pre == "" ==> !(|body| >= 2 && body[0] == '0' && (body[1] == 'x' || body[1] == 'X'))
    ensures Unprefixed(w + sg + pre + body) == body
    ensures Sign(w + sg + pre + body) == if sg == "-" then -1 else 1
  {
    var t := sg + pre + body;
    assert w + sg + pre + body == w + t;
    assert |t| > 0 ==> !IsJsWhitespace(t[0]) by {
      if |t| > 0 && sg == "" && pre == "" {
        assert t[0] == body[0];
      }
    }
    SkipsLeadingWhitespace(w, t);
    SkipsSignAndRadix(sg, pre, body);
  }

  /** `parseInt(s, 16)` on white space, a sign, a `0x` prefix and a run of hex
      digits followed by anything that is not a hex digit: the signed value of
      the run. Without a prefix, the run must not itself begin `0x`. */
  lemma ParseIntHexReads(w: string, sg: string, pre: string, d: string, rest: string)
    requires forall i :: 0 <= i < |w| ==> IsJsWhitespace(w[i])
    requires IsSign(sg) && IsRadixPrefix(pre)
    requires |d| > 0 && AllHex(d)
    requires |rest| > 0 ==> !IsHexDigit(rest[0])
    requires pre == "" ==> !(d[0] == '0' && |rest| > 0 && |d| == 1 && (rest[0] == 'x' || rest[0] == 'X'))
    ensures ParseIntHex(w + sg + pre + d + rest) == Some((if sg == "-" then -1 else 1) * HexValue(d))
  {
    var body := d + rest;
    var x := w + sg + pre + body;
    assert w + sg + pre + d + rest == x;
    var k := if sg == "-" then -1 else 1;
    assert Unprefixed(x) == body && Sign(x) == k by {
      DigitsBody(pre, d, rest);
      SkipsPrefix(w, sg, pre, body);
    }
    assert HexPrefixLength(body) == |d| && body[..|d|] == d by {
      HexRunLength(d, rest);
    }
  }

  /** A run of hex digits then a non-digit starts with neither white space nor
      a sign, and begins `0x` only when the run is a lone `0`. */
  lemma DigitsBody(pre: string, d: string, rest: string)
    requires |d| > 0 && AllHex(d)
    requires |rest| > 0 ==> !IsHexDigit(rest[0])
    requires pre == "" ==> !(d[0] == '0' && |rest| > 0 && |d| == 1 && (rest[0] == 'x' || rest[0] == 'X'))
    ensures var body := d + rest;
            && !IsJsWhitespace(body[0]) && body[0] != '+' && body[0] != '-'
            && (pre == "" ==> !(|body| >= 2 && body[0] == '0' && (body[1] == 'x' || body[1] == 'X')))
  {
    var body := d + rest;
    assert body[0] == d[0] && IsHexDigit(d[0]);
    if pre == "" && |body| >= 2 && body[0] == '0' {
      if |d| >= 2 {
        assert body[1] == d[1] && IsHexDigit(d[1]);
      } else {
        assert body[1] == rest[0];
      }
    }
  }

  /** `parseInt(s, 16)` is NaN when no hex digit follows the white space, the
      sign and the `0x` prefix. */
  lemma ParseIntHexNaN(w: string, sg: string, pre: string, rest: string)
    requires forall i :: 0 <= i < |w| ==> IsJsWhitespace(w[i])
    requires IsSign(sg) && IsRadixPrefix(pre)
    requires |rest| > 0 ==> !IsHexDigit(rest[0])
    requires sg == "" && pre == "" && |rest| > 0 ==>
               !IsJsWhitespace(rest[0]) && rest[0] != '+' && rest[0] != '-'
    ensures ParseIntHex(w + sg + pre + rest) == None
  {
    SkipsPrefix(w, sg, pre, rest);
  }

  /** Leading zeros in a file name stem do not change what `parseInt` reads. */
  lemma LeadingZerosDoNotMatter(s: string)
    requires |s| > 0 && AllHex(s)
    ensures ParseIntHex("0" + s) == ParseIntHex(s)
  {
    LeadingZeroIrrelevant(s);
    assert ("0" + s) + "" == "0" + s;
    assert s + "" == s;
    PlainHexParses("0" + s, "");
    PlainHexParses(s, "");
  }

  /** The numeral of `n` in lower-case hex, padded with zeros to at least `width` digits. */
  function PaddedHex(n: nat, width: nat): (s: string)
    ensures |s| >= width && |s| > 0
    ensures AllHex(s) && HexValue(s) == n
    ensures forall i :: 0 <= i < |s| ==> s[i] != 'x' && s[i] != 'X'
    decreases n + width
  {
    if n < 16 && width <= 1 then [HexDigitChar(n)]
    else
      var front := PaddedHex(n / 16, if width > 0 then width - 1 else 0);
      var s := front + [HexDigitChar(n % 16)];
      assert s[..|s| - 1] == front;
      s
  }
}

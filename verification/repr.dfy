/** Python's `repr()` of a `str`, as `TSNode.pretty` and `TSNode.__repr__`
    render type names and text snippets: single quotes unless the text holds a
    single quote and no double quote, backslash escapes for the quote, the
    backslash and the characters Python does not count as printable. */
module PyRepr {

  function HexDigit(d: int): (c: char)
    requires 0 <= d < 16
  {
    if d < 10 then (48 + d) as char else (87 + d) as char
  }

  function HexValue(c: char): (v: int)
    ensures 0 <= v < 16
  {
    if '0' <= c <= '9' then c as int - 48
    else if 'a' <= c <= 'f' then c as int - 87
    else 0
  }

  lemma HexDigitValue(d: int)
    requires 0 <= d < 16
    ensures HexValue(HexDigit(d)) == d
  {
  }

  function Pow16(n: nat): (p: nat)
    ensures p >= 1
  {
    if n == 0 then 1 else 16 * Pow16(n - 1)
  }

  /** `v` as `n` lower-case hex digits, most significant first. */
  function HexDigits(v: nat, n: nat): (r: string)
    requires v < Pow16(n)
    ensures |r| == n
    decreases n
  {
    if n == 0 then "" else HexDigits(v / 16, n - 1) + [HexDigit(v % 16)]
  }

  /** The number hex digits spell, most significant first. */
  function HexNumber(t: string): nat
    decreases |t|
  {
    if |t| == 0 then 0 else HexNumber(t[..|t| - 1]) * 16 + HexValue(t[|t| - 1])
  }

  lemma {:induction false} HexRoundTrip(v: nat, n: nat)
    requires v < Pow16(n)
    ensures HexNumber(HexDigits(v, n)) == v
    decreases n
  {
    if n > 0 {
      var d := HexDigits(v, n);
      HexRoundTrip(v / 16, n - 1);
      assert d[..n - 1] == HexDigits(v / 16, n - 1);
      HexDigitValue(v % 16);
    }
  }

  /** Characters `repr` writes as `\xhh`: the C0 controls other than tab,
      newline and carriage return, DEL, the C1 controls, the no-break space
      and the soft hyphen. */
  predicate HexEscaped(c: char) {
    var x := c as int;
    (x < 0x20 && c != '\t' && c != '\n' && c != '\r') || (0x7F <= x <= 0xA0) || x == 0xAD
  }

  /** Characters above U+00FF that `str.isprintable()` rejects, so that
      `repr` writes them as `\uXXXX` or `\UXXXXXXXX`: the separators (Zs, Zl,
      Zp), the format characters (Cf), the private-use areas (Co), the
      noncharacters, and the unassigned stretches U+2065, U+E0000 to U+E00FF
      outside the tags, and everything from U+323B0 to U+DFFFF and from
      U+E01F0 on, as the Unicode 15 database has them. */
  predicate WideUnprintable(c: char) {
    var x := c as int;
    x == 0x1680 || 0x2000 <= x <= 0x200F || 0x2028 <= x <= 0x202F || 0x205F <= x <= 0x206F ||
    x == 0x3000 || 0x0600 <= x <= 0x0605 || x == 0x061C || x == 0x06DD || x == 0x070F ||
    0x0890 <= x <= 0x0891 || x == 0x08E2 || x == 0x180E || x == 0xFEFF || 0xFFF9 <= x <= 0xFFFB ||
    x == 0x110BD || x == 0x110CD || 0x13430 <= x <= 0x1343F || 0x1BCA0 <= x <= 0x1BCA3 ||
    0x1D173 <= x <= 0x1D17A || 0xE000 <= x <= 0xF8FF || 0xFDD0 <= x <= 0xFDEF ||
    x % 0x10000 >= 0xFFFE || 0x323B0 <= x <= 0xE00FF || 0xE01F0 <= x
  }

  /** The characters `repr` escapes by code: tab, newline and carriage return
      have their own short escapes and are left out here. */
  predicate Unprintable(c: char) {
    HexEscaped(c) || WideUnprintable(c)
  }

  /** The quote character `repr` chooses for `s`. */
  function Quote(s: string): (q: char)
    ensures q == '\'' || q == '"'
    ensures q == '"' <==> ('\'' in s && '"' !in s)
  {
    if '\'' in s && '"' !in s then '"' else '\''
  }

  /** How one character appears between the quotes. */
  function EscapeChar(c: char, q: char): (r: string)
    ensures 1 <= |r| <= 10
    ensures |r| > 1 <==> r[0] == '\\'
    ensures |r| == 1 <==> c != '\\' && c != q && c != '\n' && c != '\r' && c != '\t' && !Unprintable(c)
    ensures Unprintable(c) && c != q ==> |r| == (if HexEscaped(c) then 4 else if c as int <= 0xFFFF then 6 else 10)
  {
    if c == '\\' || c == q then ['\\', c]
    else if c == '\n' then "\\n"
    else if c == '\r' then "\\r"
    else if c == '\t' then "\\t"
    else if HexEscaped(c) then "\\x" + HexDigits(c as int, 2)
    else if WideUnprintable(c) && c as int <= 0xFFFF then "\\u" + HexDigits(c as int, 4)
    else if WideUnprintable(c) then "\\U" + HexDigits(c as int, 8)
    else [c]
  }

  function EscapeBody(s: string, q: char): string
    decreases |s|
  {
    if |s| == 0 then "" else EscapeChar(s[0], q) + EscapeBody(s[1..], q)
  }

  /** `repr(s)` */
  function Repr(s: string): (r: string)
    ensures |r| >= |s| + 2
    ensures r[0] == Quote(s) && r[|r| - 1] == Quote(s)
  {
    EscapeBodyLength(s, Quote(s));
    [Quote(s)] + EscapeBody(s, Quote(s)) + [Quote(s)]
  }

  lemma {:induction false} EscapeBodyLength(s: string, q: char)
    ensures |EscapeBody(s, q)| >= |s|
    decreases |s|
  {
    if |s| > 0 {
      EscapeBodyLength(s[1..], q);
    }
  }

  /** The character with a code, where the code names one; Python's parser
      refuses the others, and `?` stands in for them here. */
  function CharOf(v: nat): char {
    if v < 0xD800 || 0xE000 <= v < 0x110000 then v as char else '?'
  }

  /** Reading escapes back, as Python's parser does for a string literal. */
  function Unescape(t: string): string
    decreases |t|
  {
    if |t| == 0 then ""
    else if t[0] == '\\' && |t| >= 2 then
      if t[1] == 'n' then "\n" + Unescape(t[2..])
      else if t[1] == 'r' then "\r" + Unescape(t[2..])
      else if t[1] == 't' then "\t" + Unescape(t[2..])
      else if t[1] == 'x' && |t| >= 4 then [CharOf(HexNumber(t[2..4]))] + Unescape(t[4..])
      else if t[1] == 'u' && |t| >= 6 then [CharOf(HexNumber(t[2..6]))] + Unescape(t[6..])
      else if t[1] == 'U' && |t| >= 10 then [CharOf(HexNumber(t[2..10]))] + Unescape(t[10..])
      else [t[1]] + Unescape(t[2..])
    else [t[0]] + Unescape(t[1..])
  }

  /** A code escape reads back as the character with that code, whatever follows. */
  lemma UnescapeHex(x: nat, n: nat, tag: char, rest: string)
    requires (n == 2 && tag == 'x') || (n == 4 && tag == 'u') || (n == 8 && tag == 'U')
    requires x < Pow16(n)
    ensures Unescape(['\\', tag] + HexDigits(x, n) + rest) == [CharOf(x)] + Unescape(rest)
  {
    var t := ['\\', tag] + HexDigits(x, n) + rest;
    assert t[2..2 + n] == HexDigits(x, n) && t[2 + n..] == rest;
    HexRoundTrip(x, n);
  }

  lemma UnescapeChar(c: char, q: char, rest: string)
    requires q == '\'' || q == '"'
    ensures Unescape(EscapeChar(c, q) + rest) == [c] + Unescape(rest)
  {
    var e := EscapeChar(c, q);
    var x := c as int;
    if c == '\\' || c == q || c == '\n' || c == '\r' || c == '\t' {
      assert (e + rest)[2..] == rest;
    } else if HexEscaped(c) {
      UnescapeHex(x, 2, 'x', rest);
      assert e == ['\\', 'x'] + HexDigits(x, 2);
    } else if WideUnprintable(c) && x <= 0xFFFF {
      UnescapeHex(x, 4, 'u', rest);
      assert e == ['\\', 'u'] + HexDigits(x, 4);
    } else if WideUnprintable(c) {
      UnescapeHex(x, 8, 'U', rest);
      assert e == ['\\', 'U'] + HexDigits(x, 8);
    } else {
      assert e == [c];
      assert (e + rest)[1..] == rest;
    }
  }

  /** Unescaping the escaped body gives the text back. */
  lemma {:induction false} UnescapeEscape(s: string, q: char)
    requires q == '\'' || q == '"'
    ensures Unescape(EscapeBody(s, q)) == s
    decreases |s|
  {
    if |s| > 0 {
      UnescapeChar(s[0], q, EscapeBody(s[1..], q));
      UnescapeEscape(s[1..], q);
    }
  }

  /** `repr` loses nothing: the text between the quotes reads back as `s`. */
  lemma ReprRoundTrip(s: string)
    ensures Unescape(Repr(s)[1..|Repr(s)| - 1]) == s
  {
    var q := Quote(s);
    assert Repr(s)[1..|Repr(s)| - 1] == EscapeBody(s, q);
    UnescapeEscape(s, q);
  }

  /** A character that needs no escape and is not the chosen quote stands for itself. */
  lemma {:induction false} PlainRepr(s: string)
    requires forall i :: 0 <= i < |s| ==>
      s[i] != '\\' && s[i] != '\'' && s[i] != '\n' && s[i] != '\r' && s[i] != '\t' && !Unprintable(s[i])
    ensures Repr(s) == "'" + s + "'"
  {
    PlainBody(s);
  }

  lemma {:induction false} PlainBody(s: string)
    requires forall i :: 0 <= i < |s| ==>
      s[i] != '\\' && s[i] != '\'' && s[i] != '\n' && s[i] != '\r' && s[i] != '\t' && !Unprintable(s[i])
    ensures EscapeBody(s, '\'') == s
    decreases |s|
  {
    if |s| > 0 {
      PlainBody(s[1..]);
      assert s == [s[0]] + s[1..];
    }
  }

  /** The ideographic space, a separator, is written by its code. */
  lemma IdeographicSpaceEscaped()
    ensures Repr("\U{3000}") == "'\\u3000'"
  {
    var c := '\U{3000}';
    assert Quote([c]) == '\'';
    assert !HexEscaped(c) && WideUnprintable(c);
    assert HexDigits(0x3000, 4) == "3000";
    assert EscapeChar(c, '\'') == "\\u3000";
    assert EscapeBody([c], '\'') == EscapeChar(c, '\'') + EscapeBody([], '\'');
  }
}

/** `JSON.stringify` applied to a string: the quoting `safeAttr` gives a
    truthy attribute value. Its inverse, `Unquote`, reads a JSON string
    literal back; the round trip shows the quoting loses nothing. */
module JsonQuote {
  import opened JsValue

  function HexDigit(d: nat): (c: char)
    requires d < 16
  {
    if d < 10 then ('0' as int + d) as char else ('a' as int + d - 10) as char
  }

  /** The value of a hexadecimal digit of either case, or -1. */
  function HexValue(c: char): (v: int)
    ensures -1 <= v < 16
  {
    if '0' <= c <= '9' then c as int - '0' as int
    else if 'a' <= c <= 'f' then c as int - 'a' as int + 10
    else if 'A' <= c <= 'F' then c as int - 'A' as int + 10
    else -1
  }

  /** The value of four hexadecimal digits, or -1. */
  function HexQuad(q: string): (v: int)
    requires |q| == 4
    ensures -1 <= v < 0x10000
  {
    var a, b, c, d := HexValue(q[0]), HexValue(q[1]), HexValue(q[2]), HexValue(q[3]);
    if a < 0 || b < 0 || c < 0 || d < 0 then -1 else ((a * 16 + b) * 16 + c) * 16 + d
  }

  /** What `JSON.stringify` writes for one character of a string: the two
      characters that must be escaped, the five control characters with a
      short escape, the other control characters as `\u00xx` with lower-case
      hex digits, and every other character as itself. */
  function EscapeChar(c: char): string {
    if c == '"' then "\\\""
    else if c == '\\' then "\\\\"
    else if c as int == 0x08 then "\\b"
    else if c as int == 0x0C then "\\f"
    else if c == '\n' then "\\n"
    else if c == '\r' then "\\r"
    else if c == '\t' then "\\t"
    else if c as int < 0x20 then "\\u00" + [HexDigit(c as int / 16), HexDigit(c as int % 16)]
    else [c]
  }

  function Escape(s: string): string {
    if s == [] then "" else EscapeChar(s[0]) + Escape(s[1..])
  }

  /** `JSON.stringify(s)` for a string `s`. */
  function Quote(s: string): (r: string)
    ensures |r| >= 2 && r[0] == '"' && r[|r| - 1] == '"'
  {
    "\"" + Escape(s) + "\""
  }

  /** The character a two-character escape `\e` stands for. */
  function SimpleEscape(e: char): Option<char> {
    if e == '"' then Some('"')
    else if e == '\\' then Some('\\')
    else if e == '/' then Some('/')
    else if e == 'b' then Some(0x08 as char)
    else if e == 'f' then Some(0x0C as char)
    else if e == 'n' then Some('\n')
    else if e == 'r' then Some('\r')
    else if e == 't' then Some('\t')
    else None
  }

  function Cons(c: char, r: Option<string>): Option<string> {
    if r.None? then None else Some([c] + r.value)
  }

  /** The text of the body of a JSON string literal, or None when the body is
      malformed (a raw quote or control character, or a bad escape). Surrogate
      escapes are refused: they never come out of `Escape`. */
  function Unescape(t: string): Option<string>
    decreases |t|
  {
    if t == [] then Some([])
    else if t[0] == '\\' then
      if |t| < 2 then None
      else if t[1] == 'u' then
        if |t| < 6 then None
        else
          var v := HexQuad(t[2..6]);
          if v < 0 || 0xD800 <= v < 0xE000 then None else Cons(v as char, Unescape(t[6..]))
      else
        var e := SimpleEscape(t[1]);
        if e.None? then None else Cons(e.value, Unescape(t[2..]))
    else if t[0] == '"' || t[0] as int < 0x20 then None
    else Cons(t[0], Unescape(t[1..]))
  }

  /** `JSON.parse` restricted to string literals. */
  function Unquote(t: string): Option<string> {
    if 2 <= |t| && t[0] == '"' && t[|t| - 1] == '"' then Unescape(t[1..|t| - 1]) else None
  }

  lemma UnescapeEscapeChar(c: char, rest: string)
    ensures Unescape(EscapeChar(c) + rest) == Cons(c, Unescape(rest))
  {
    var t := EscapeChar(c) + rest;
    if c as int < 0x20 && c != '\n' && c != '\r' && c != '\t' && c as int != 0x08 && c as int != 0x0C {
      var hi, lo := c as int / 16, c as int % 16;
      assert t == ['\\', 'u', '0', '0', HexDigit(hi), HexDigit(lo)] + rest;
      assert t[2..6] == ['0', '0', HexDigit(hi), HexDigit(lo)];
      assert HexValue(HexDigit(hi)) == hi && HexValue(HexDigit(lo)) == lo;
      assert HexQuad(t[2..6]) == c as int;
      assert t[6..] == rest;
    } else if c == '"' || c == '\\' || c as int < 0x20 {
      assert t[2..] == rest;
    } else {
      assert t[1..] == rest;
    }
  }

  lemma {:induction false} UnescapeEscape(s: string)
    ensures Unescape(Escape(s)) == Some(s)
  {
    if s != [] {
      UnescapeEscapeChar(s[0], Escape(s[1..]));
      UnescapeEscape(s[1..]);
      assert [s[0]] + s[1..] == s;
    }
  }

  /** Reading back what `JSON.stringify` wrote gives the original string. */
  lemma UnquoteQuote(s: string)
    ensures Unquote(Quote(s)) == Some(s)
  {
    var q := Quote(s);
    assert q[1..|q| - 1] == Escape(s);
    UnescapeEscape(s);
  }

  /** Different values are quoted differently. */
  lemma QuoteInjective(a: string, b: string)
    requires Quote(a) == Quote(b)
    ensures a == b
  {
    UnquoteQuote(a);
    UnquoteQuote(b);
  }

  /** A character that `JSON.stringify` writes as itself. */
  predicate PlainChar(c: char) {
    c != '"' && c != '\\' && c as int >= 0x20
  }

  /** A value with no quote, backslash or control character is quoted
      by just surrounding it with double quotes. */
  lemma {:induction false} QuotePlain(s: string)
    requires forall i :: 0 <= i < |s| ==> PlainChar(s[i])
    ensures Quote(s) == "\"" + s + "\""
  {
    EscapePlain(s);
  }

  lemma {:induction false} EscapePlain(s: string)
    requires forall i :: 0 <= i < |s| ==> PlainChar(s[i])
    ensures Escape(s) == s
  {
    if s != [] {
      EscapePlain(s[1..]);
      assert [s[0]] + s[1..] == s;
    }
  }
}

/**
  `JSON.stringify` of a primitive value, as used to print environment
  variables: strings are quoted and escaped following section 7 of RFC 8259
  (with the short escapes and lower-case `\u00XX` that ECMAScript's
  QuoteJSONString produces), numbers are printed as by `String(n)`, the
  non-finite numbers become `null`.

  `Unescape` and `ParseString` read a JSON string back; they are the
  partner of the encoder and show that nothing is lost by quoting.
 */
module Json {
  import opened Wrappers
  import opened JsValues

  function HexDigit(d: nat): (c: char)
    requires d < 16
  {
    "0123456789abcdef"[d]
  }

  function HexValue(c: char): Option<nat> {
    if '0' <= c <= '9' then Some((c as int) - ('0' as int))
    else if 'a' <= c <= 'f' then Some((c as int) - ('a' as int) + 10)
    else if 'A' <= c <= 'F' then Some((c as int) - ('A' as int) + 10)
    else None
  }

  lemma HexDigitValue(d: nat)
    requires d < 16
    ensures HexValue(HexDigit(d)) == Some(d)
  {
  }

  /** How one character of a string appears between the quotes. */
  function EscapeChar(c: char): string {
    if c == '"' then "\\\""
    else if c == '\\' then "\\\\"
    else if c == '\U{8}' then "\\b"
    else if c == '\U{C}' then "\\f"
    else if c == '\n' then "\\n"
    else if c == '\r' then "\\r"
    else if c == '\t' then "\\t"
    else if c < ' ' then "\\u00" + [HexDigit(c as int / 16), HexDigit(c as int % 16)]
    else [c]
  }

  function Escape(s: string): string
    decreases |s|
  {
    if s == [] then [] else EscapeChar(s[0]) + Escape(s[1..])
  }

  /** `JSON.stringify(s)` for a string `s`. */
  function Quote(s: string): string {
    "\"" + Escape(s) + "\""
  }

  /** `JSON.stringify(v)`; `undefined` has no JSON text. */
  function Stringify(v: JsValue): string
    requires v != Undefined
  {
    match v
    case Null => "null"
    case Bool(b) => if b then "true" else "false"
    case Num(n) => IntToDecimal(n)
    case NaN => "null"
    case Infinity(_) => "null"
    case Str(s) => Quote(s)
  }

  // ---------------------------------------------------------------------
  // Reading a JSON string back

  function ShortEscape(e: char): Option<char> {
    if e == '"' then Some('"')
    else if e == '\\' then Some('\\')
    else if e == '/' then Some('/')
    else if e == 'b' then Some('\U{8}')
    else if e == 'f' then Some('\U{C}')
    else if e == 'n' then Some('\n')
    else if e == 'r' then Some('\r')
    else if e == 't' then Some('\t')
    else None
  }

  /** The character named by four hex digits; surrogate halves are not read. */
  function HexQuad(q: string): Option<char>
    requires |q| == 4
  {
    match (HexValue(q[0]), HexValue(q[1]), HexValue(q[2]), HexValue(q[3]))
    case (Some(a), Some(b), Some(c), Some(d)) =>
      var v := ((a * 16 + b) * 16 + c) * 16 + d;
      if v < 0xD800 || 0xE000 <= v < 0x11_0000 then Some(v as char) else None
    case _ => None
  }

  function Prepend(c: char, rest: Option<string>): Option<string> {
    match rest
    case Some(s) => Some([c] + s)
    case None => None
  }

  /** The characters denoted by the text between the quotes of a JSON string. */
  function Unescape(t: string): Option<string>
    decreases |t|
  {
    if t == [] then Some([])
    else if t[0] == '\\' then
      if |t| < 2 then None
      else if t[1] == 'u' then
        if |t| < 6 then None
        else match HexQuad(t[2..6])
          case Some(c) => Prepend(c, Unescape(t[6..]))
          case None => None
      else match ShortEscape(t[1])
        case Some(c) => Prepend(c, Unescape(t[2..]))
        case None => None
    else if t[0] == '"' || t[0] < ' ' then None
    else Prepend(t[0], Unescape(t[1..]))
  }

  function ParseString(t: string): Option<string> {
    if 2 <= |t| && t[0] == '"' && t[|t| - 1] == '"' then Unescape(t[1..|t| - 1]) else None
  }

  /** A control character without a short escape is read back from its `\u00XX` form. */
  lemma UnescapeHexEscape(c: char, rest: string)
    requires c < ' ' && c != '\U{8}' && c != '\U{C}' && c != '\n' && c != '\r' && c != '\t'
    ensures Unescape(EscapeChar(c) + rest) == Prepend(c, Unescape(rest))
  {
    var t := EscapeChar(c) + rest;
    var hi, lo := c as int / 16, c as int % 16;
    assert EscapeChar(c) == "\\u00" + [HexDigit(hi), HexDigit(lo)];
    HexDigitValue(0);
    HexDigitValue(hi);
    HexDigitValue(lo);
    assert t[..2] == "\\u";
    assert t[2..6] == ['0', '0', HexDigit(hi), HexDigit(lo)];
    assert t[6..] == rest;
    assert HexQuad(t[2..6]) == Some(c);
  }

  lemma UnescapeEscapeChar(c: char, rest: string)
    ensures Unescape(EscapeChar(c) + rest) == Prepend(c, Unescape(rest))
  {
    var t := EscapeChar(c) + rest;
    if c < ' ' && c != '\U{8}' && c != '\U{C}' && c != '\n' && c != '\r' && c != '\t' {
      UnescapeHexEscape(c, rest);
    } else if |EscapeChar(c)| == 2 {
      assert t[2..] == rest;
    } else {
      assert t[1..] == rest;
    }
  }

  lemma {:induction false} EscapeRoundTrip(s: string)
    ensures Unescape(Escape(s)) == Some(s)
    decreases |s|
  {
    if s != [] {
      UnescapeEscapeChar(s[0], Escape(s[1..]));
      EscapeRoundTrip(s[1..]);
      assert [s[0]] + s[1..] == s;
    }
  }

  /** Parsing the quoted text of a string gives the string back. */
  lemma QuoteRoundTrip(s: string)
    ensures ParseString(Quote(s)) == Some(s)
  {
    var t := Quote(s);
    assert t[1..|t| - 1] == Escape(s);
    EscapeRoundTrip(s);
  }

  /** A string with no quote, backslash or control character is quoted as it is. */
  lemma {:induction false} EscapePlain(s: string)
    requires forall i :: 0 <= i < |s| ==> s[i] != '"' && s[i] != '\\' && s[i] >= ' '
    ensures Escape(s) == s
    decreases |s|
  {
    if s != [] {
      EscapePlain(s[1..]);
      assert [s[0]] + s[1..] == s;
    }
  }
}

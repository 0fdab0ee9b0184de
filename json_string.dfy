/**
 * `JSON.stringify` applied to a string: the string between double quotes,
 * with `"` and `\` escaped, the control characters that have a short escape
 * written with it and the other characters below U+0020 written as `\u00XX`
 * (lower-case hexadecimal). `Unquote` reads a JSON string literal back and
 * is the partner of the round trip.
 */
module JsonString {
  import opened Wrappers

  const HexDigits := "0123456789abcdef"

  function EscapeChar(c: char): (r: string)
    ensures |r| >= 1
    ensures c != '"' && c != '\\' && c >= ' ' ==> r == [c]
    ensures c == '"' || c == '\\' || c < ' ' ==> r[0] == '\\'
  {
    match c
    case '"' => "\\\""
    case '\\' => "\\\\"
    case '\U{8}' => "\\b"
    case '\U{C}' => "\\f"
    case '\n' => "\\n"
    case '\r' => "\\r"
    case '\t' => "\\t"
    case _ =>
      if c < ' ' then "\\u00" + [HexDigits[c as int / 16], HexDigits[c as int % 16]]
      else [c]
  }

  function Escape(s: string): (r: string)
    ensures |r| >= |s|
  {
    if s == [] then [] else EscapeChar(s[0]) + Escape(s[1..])
  }

  /** `JSON.stringify(s)` for a string `s`. */
  function Quote(s: string): (r: string)
    ensures |r| >= 2 && r[0] == '"' && r[|r| - 1] == '"'
    ensures r[1..|r| - 1] == Escape(s)
  {
    "\"" + Escape(s) + "\""
  }

  function HexValue(c: char): Option<nat> {
    if '0' <= c <= '9' then Some(c as int - '0' as int)
    else if 'a' <= c <= 'f' then Some(c as int - 'a' as int + 10)
    else if 'A' <= c <= 'F' then Some(c as int - 'A' as int + 10)
    else None
  }

  /** The code point of four hexadecimal digits after `\u`. */
  function Hex4(t: string): (r: Option<char>)
    requires |t| >= 4
  {
    match (HexValue(t[0]), HexValue(t[1]), HexValue(t[2]), HexValue(t[3]))
    case (Some(a), Some(b), Some(c), Some(d)) =>
      var v := ((a * 16 + b) * 16 + c) * 16 + d;
      if v < 0xD800 || 0xE000 <= v < 0x11_0000 then Some(v as char) else None
    case _ => None
  }

  function Cons(c: char, o: Option<string>): Option<string> {
    match o
    case Some(s) => Some([c] + s)
    case None => None
  }

  /** Decodes the inside of a JSON string literal; an unescaped quote or control character is an error. */
  function Unescape(t: string): (r: Option<string>)
    decreases |t|
  {
    if t == [] then Some([])
    else if t[0] == '"' || t[0] < ' ' then None
    else if t[0] != '\\' then Cons(t[0], Unescape(t[1..]))
    else if |t| < 2 then None
    else match t[1]
      case '"' => Cons('"', Unescape(t[2..]))
      case '\\' => Cons('\\', Unescape(t[2..]))
      case '/' => Cons('/', Unescape(t[2..]))
      case 'b' => Cons('\U{8}', Unescape(t[2..]))
      case 'f' => Cons('\U{C}', Unescape(t[2..]))
      case 'n' => Cons('\n', Unescape(t[2..]))
      case 'r' => Cons('\r', Unescape(t[2..]))
      case 't' => Cons('\t', Unescape(t[2..]))
      case 'u' =>
        if |t| < 6 then None
        else (match Hex4(t[2..6])
          case Some(c) => Cons(c, Unescape(t[6..]))
          case None => None)
      case _ => None
  }

  /** `JSON.parse` of a string literal. */
  function Unquote(t: string): Option<string> {
    if |t| >= 2 && t[0] == '"' && t[|t| - 1] == '"' then Unescape(t[1..|t| - 1]) else None
  }

  /** The four digits `00hh` after `\u` in the escape of a control character decode to it. */
  lemma ControlHex(c: char)
    requires c < ' '
    ensures Hex4(['0', '0', HexDigits[c as int / 16], HexDigits[c as int % 16]]) == Some(c)
  {
    var hi, lo := c as int / 16, c as int % 16;
    assert HexValue(HexDigits[hi]) == Some(hi) by {
      assert hi == 0 || hi == 1;
    }
    assert HexValue(HexDigits[lo]) == Some(lo) by {
      assert 0 <= lo < 16;
    }
  }

  lemma UnescapeControl(c: char, rest: string)
    requires c < ' ' && c != '\U{8}' && c != '\U{C}' && c != '\n' && c != '\r' && c != '\t'
    ensures Unescape(EscapeChar(c) + rest) == Cons(c, Unescape(rest))
  {
    var d := ['0', '0', HexDigits[c as int / 16], HexDigits[c as int % 16]];
    ControlHex(c);
    assert EscapeChar(c) == ['\\', 'u'] + d;
    var e := EscapeChar(c) + rest;
    assert e[0] == '\\' && e[1] == 'u' && |e| >= 6;
    assert e[2..6] == d;
    assert e[6..] == rest;
  }

  lemma UnescapeEscapedChar(c: char, rest: string)
    ensures Unescape(EscapeChar(c) + rest) == Cons(c, Unescape(rest))
  {
    var e := EscapeChar(c) + rest;
    if c == '"' || c == '\\' || c == '\U{8}' || c == '\U{C}' || c == '\n' || c == '\r' || c == '\t' {
      assert e[2..] == rest;
    } else if c < ' ' {
      UnescapeControl(c, rest);
    } else {
      assert e[1..] == rest;
    }
  }

  lemma {:induction false} EscapeRoundTrip(s: string)
    ensures Unescape(Escape(s)) == Some(s)
  {
    if s != [] {
      EscapeRoundTrip(s[1..]);
      UnescapeEscapedChar(s[0], Escape(s[1..]));
      assert s == [s[0]] + s[1..];
    }
  }

  /** `JSON.parse(JSON.stringify(s)) == s`. */
  lemma QuoteRoundTrip(s: string)
    ensures Unquote(Quote(s)) == Some(s)
  {
    EscapeRoundTrip(s);
  }

  /** The escaped text holds no raw double quote: the literal ends at its closing quote. */
  lemma EscapeNoQuote(s: string)
    ensures forall i :: 0 <= i < |Escape(s)| && Escape(s)[i] == '"' ==> i > 0 && Escape(s)[i - 1] == '\\'
  {
    forall i | 0 <= i < |Escape(s)| && Escape(s)[i] == '"' ensures i > 0 && Escape(s)[i - 1] == '\\' {
      EscapeQuoteAt(s, i);
    }
  }

  /** A double quote in the escape of one character is the second character of `\"`. */
  lemma EscapeCharQuote(c: char, i: nat)
    requires i < |EscapeChar(c)| && EscapeChar(c)[i] == '"'
    ensures i == 1 && EscapeChar(c)[0] == '\\'
  {
    if c < ' ' && c !in {'\U{8}', '\U{C}', '\n', '\r', '\t'} {
      assert false;
    }
  }

  /** The double quote at `i` of an escaped text follows a backslash. */
  lemma {:induction false} EscapeQuoteAt(s: string, i: nat)
    requires i < |Escape(s)| && Escape(s)[i] == '"'
    ensures i > 0 && Escape(s)[i - 1] == '\\'
  {
    var e, rest := EscapeChar(s[0]), Escape(s[1..]);
    assert Escape(s) == e + rest;
    if i < |e| {
      assert e[i] == '"';
      EscapeCharQuote(s[0], i);
    } else {
      assert rest[i - |e|] == '"';
      EscapeQuoteAt(s[1..], i - |e|);
      assert (e + rest)[i - 1] == rest[i - |e| - 1];
    }
  }
}

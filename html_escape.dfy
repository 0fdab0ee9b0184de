/**
 * `escapeHtml`: each of `& < > " '` is replaced by its HTML entity, every
 * other character is kept. `UnescapeHtml` decodes those five entities and is
 * the partner the round trip is stated against.
 */
module HtmlEscape {
  import opened Text

  predicate IsHtmlSpecial(c: char) {
    c == '&' || c == '<' || c == '>' || c == '"' || c == '\''
  }

  function EscapeChar(c: char): (r: string)
    ensures !IsHtmlSpecial(c) ==> r == [c]
    ensures |r| >= 1
  {
    match c
    case '&' => "&amp;"
    case '<' => "&lt;"
    case '>' => "&gt;"
    case '"' => "&quot;"
    case '\'' => "&#039;"
    case _ => [c]
  }

  function EscapeHtml(text: string): (r: string)
    ensures |r| >= |text|
  {
    if text == [] then [] else EscapeChar(text[0]) + EscapeHtml(text[1..])
  }

  /** Decodes the five entities `escapeHtml` produces; anything else passes through. */
  function UnescapeHtml(html: string): (r: string)
    decreases |html|
  {
    if html == [] then []
    else if html[0] != '&' then [html[0]] + UnescapeHtml(html[1..])
    else if StartsWith(html, "&amp;") then "&" + UnescapeHtml(html[5..])
    else if StartsWith(html, "&lt;") then "<" + UnescapeHtml(html[4..])
    else if StartsWith(html, "&gt;") then ">" + UnescapeHtml(html[4..])
    else if StartsWith(html, "&quot;") then "\"" + UnescapeHtml(html[6..])
    else if StartsWith(html, "&#039;") then "'" + UnescapeHtml(html[6..])
    else [html[0]] + UnescapeHtml(html[1..])
  }

  lemma UnescapeEscapedChar(c: char, rest: string)
    ensures UnescapeHtml(EscapeChar(c) + rest) == [c] + UnescapeHtml(rest)
  {
    var e := EscapeChar(c) + rest;
    assert e[|EscapeChar(c)|..] == rest;
    match c
    case '&' => assert StartsWith(e, "&amp;");
    case '<' => assert e[1] == 'l' && StartsWith(e, "&lt;");
    case '>' => assert e[1] == 'g' && StartsWith(e, "&gt;");
    case '"' => assert e[1] == 'q' && StartsWith(e, "&quot;");
    case '\'' => assert e[1] == '#' && StartsWith(e, "&#039;");
    case _ => assert e[0] == c && e[1..] == rest;
  }

  lemma {:induction false} EscapeHtmlRoundTrip(text: string)
    ensures UnescapeHtml(EscapeHtml(text)) == text
  {
    if text != [] {
      EscapeHtmlRoundTrip(text[1..]);
      UnescapeEscapedChar(text[0], EscapeHtml(text[1..]));
      assert text == [text[0]] + text[1..];
    }
  }

  /** One of the five entities `escapeHtml` writes starts at `i`. */
  predicate EntityAt(s: string, i: nat) {
    || OccursAt(s, "&amp;", i) || OccursAt(s, "&lt;", i) || OccursAt(s, "&gt;", i)
    || OccursAt(s, "&quot;", i) || OccursAt(s, "&#039;", i)
  }

  /** The only `&` in the escape of one character opens its entity. */
  lemma EscapeCharAmp(c: char, i: nat)
    requires i < |EscapeChar(c)| && EscapeChar(c)[i] == '&'
    ensures i == 0 && EntityAt(EscapeChar(c), 0)
  {
    match c
    case '&' =>
    case '<' =>
    case '>' =>
    case '"' =>
    case '\'' =>
    case _ =>
  }

  /** An entity of `a` is an entity of `a + b`, at the same place. */
  lemma EntityAtPrefix(a: string, b: string, i: nat)
    requires EntityAt(a, i)
    ensures EntityAt(a + b, i)
  {
    forall p: string | OccursAt(a, p, i) ensures OccursAt(a + b, p, i) {
      assert (a + b)[i..i + |p|] == a[i..i + |p|];
    }
  }

  /** An entity of `b` is an entity of `a + b`, shifted by `|a|`. */
  lemma EntityAtSuffix(a: string, b: string, j: nat)
    requires EntityAt(b, j)
    ensures EntityAt(a + b, |a| + j)
  {
    forall p: string | OccursAt(b, p, j) ensures OccursAt(a + b, p, |a| + j) {
      assert (a + b)[|a| + j..|a| + j + |p|] == b[j..j + |p|];
    }
  }

  /** An `&` at position `i` of the escaped text opens an entity. */
  lemma {:induction false} EscapeHtmlAmpAt(text: string, i: nat)
    requires i < |EscapeHtml(text)| && EscapeHtml(text)[i] == '&'
    ensures EntityAt(EscapeHtml(text), i)
    decreases |text|
  {
    var e := EscapeChar(text[0]);
    var rest := EscapeHtml(text[1..]);
    assert EscapeHtml(text) == e + rest;
    if i < |e| {
      EscapeCharAmp(text[0], i);
      EntityAtPrefix(e, rest, 0);
    } else {
      assert rest[i - |e|] == '&';
      EscapeHtmlAmpAt(text[1..], i - |e|);
      EntityAtSuffix(e, rest, i - |e|);
    }
  }

  /** The output holds no `<`, `>`, `"` or `'`; every `&` in it opens an entity. */
  lemma {:induction false} EscapeHtmlNoMarkup(text: string)
    ensures forall i :: 0 <= i < |EscapeHtml(text)| ==>
      EscapeHtml(text)[i] != '<' && EscapeHtml(text)[i] != '>' &&
      EscapeHtml(text)[i] != '"' && EscapeHtml(text)[i] != '\''
    ensures forall i :: 0 <= i < |EscapeHtml(text)| && EscapeHtml(text)[i] == '&' ==> EntityAt(EscapeHtml(text), i)
  {
    if text != [] {
      EscapeHtmlNoMarkup(text[1..]);
      var e := EscapeChar(text[0]);
      assert forall i :: 0 <= i < |e| ==> e[i] != '<' && e[i] != '>' && e[i] != '"' && e[i] != '\'';
    }
    forall i | 0 <= i < |EscapeHtml(text)| && EscapeHtml(text)[i] == '&' ensures EntityAt(EscapeHtml(text), i) {
      EscapeHtmlAmpAt(text, i);
    }
  }

  /** Text without any of the five special characters comes back unchanged. */
  lemma {:induction false} EscapeHtmlPlain(text: string)
    requires forall i :: 0 <= i < |text| ==> !IsHtmlSpecial(text[i])
    ensures EscapeHtml(text) == text
  {
    if text != [] {
      EscapeHtmlPlain(text[1..]);
      assert text == [text[0]] + text[1..];
    }
  }
}

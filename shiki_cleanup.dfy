/**
 * `cleanShikiHtml`: the highlighter's HTML is rewritten by a chain of global
 * regular-expression replacements. Each replacement is a `Rewrite`: a
 * matcher that says how long the match starting at the head of a string is
 * (the regular expression's own backtracking order decides which match), and
 * the text that replaces it. `ReplaceAll` is `String.prototype.replace` with
 * the `g` flag: scan left to right, replace each match, resume after it.
 */
module ShikiCleanup {
  import opened Text
  import opened Wrappers

  datatype Rewrite =
    | BackgroundDeclaration  // /background-color:[^;"]+;?/g  -> ""
    | PreWrapper             // /<pre[^>]*class="shiki[^"]*"[^>]*style="[^"]*"[^>]*>/g -> <pre class="shiki">
    | BackgroundStyle        // /style="background-color:[^"]*"/g  -> ""
    | CommentColor           // /color:#6B737C/gi  -> color:#8b949e

  const BackgroundPrefix := "background-color:"
  const StyleBackgroundPrefix := "style=\"background-color:"
  const PreOpen := "<pre"
  const ClassShiki := "class=\"shiki"
  const StyleOpen := "style=\""
  const PreReplacement := "<pre class=\"shiki\">"
  const DimComment := "color:#6b737c"
  const BrightComment := "color:#8b949e"

  /** The end of the longest run starting at `i` of characters outside `excluded`: `[^...]*`. */
  function SpanExcluding(t: string, i: nat, excluded: set<char>): (j: nat)
    requires i <= |t|
    ensures i <= j <= |t|
    ensures forall k :: i <= k < j ==> t[k] !in excluded
    ensures j == |t| || t[j] in excluded
    decreases |t| - i
  {
    if i < |t| && t[i] !in excluded then SpanExcluding(t, i + 1, excluded) else i
  }

  /** `[^>]*>` after the `style="..."` value: the first `>` closes the tag. */
  function AfterStyle(t: string, d0: nat): (r: Option<nat>)
    requires d0 <= |t|
    ensures r.Some? ==> d0 + 2 <= r.value <= |t|
  {
    var d := SpanExcluding(t, d0, {'"'});
    if d == |t| then None
    else
      var e := SpanExcluding(t, d + 1, {'>'});
      if e == |t| then None else Some(e + 1)
  }

  /** `[^>]*style="`, trying the longest run of non-`>` first, as greedy backtracking does. */
  function TryStyle(t: string, c0: nat, c: nat): (r: Option<nat>)
    requires c0 <= c <= |t|
    ensures r.Some? ==> c0 + 9 <= r.value <= |t|
    decreases c
  {
    var here := if OccursAt(t, StyleOpen, c) then AfterStyle(t, c + |StyleOpen|) else None;
    if here.Some? then here
    else if c == c0 then None
    else TryStyle(t, c0, c - 1)
  }

  /** `[^"]*"` after `class="shiki` (forced: the first quote), then the `style` part. */
  function AfterClass(t: string, b0: nat): (r: Option<nat>)
    requires b0 <= |t|
    ensures r.Some? ==> b0 + 10 <= r.value <= |t|
  {
    var b := SpanExcluding(t, b0, {'"'});
    if b == |t| then None
    else TryStyle(t, b + 1, SpanExcluding(t, b + 1, {'>'}))
  }

  /** `[^>]*class="shiki`, longest run first. */
  function TryClass(t: string, a: nat): (r: Option<nat>)
    requires 4 <= a <= |t|
    ensures r.Some? ==> 26 <= r.value <= |t|
    decreases a
  {
    var here := if OccursAt(t, ClassShiki, a) then AfterClass(t, a + |ClassShiki|) else None;
    if here.Some? then here
    else if a == 4 then None
    else TryClass(t, a - 1)
  }

  /** `s` starts with `p` when letter case is ignored (`p` is lower case). */
  predicate FoldedPrefix(s: string, p: string) {
    |s| >= |p| && forall k :: 0 <= k < |p| ==> LowerChar(s[k]) == p[k]
  }

  /** `t` starts with `color:#6b737c` in any letter case (the `i` flag). */
  predicate DimCommentAt(t: string) {
    FoldedPrefix(t, DimComment)
  }

  /** The length of the match of `rw` at the head of `t`, if there is one there. */
  function MatchLength(rw: Rewrite, t: string): (r: Option<nat>)
    ensures r.Some? ==> 0 < r.value <= |t|
    ensures r.Some? ==> |Replacement(rw)| <= r.value
    ensures rw == CommentColor ==> (r.Some? <==> DimCommentAt(t)) && (r.Some? ==> r.value == |DimComment|)
  {
    match rw
    case BackgroundDeclaration =>
      if !StartsWith(t, BackgroundPrefix) then None
      else
        var j := SpanExcluding(t, |BackgroundPrefix|, {';', '"'});
        if j == |BackgroundPrefix| then None
        else Some(if j < |t| && t[j] == ';' then j + 1 else j)
    case PreWrapper =>
      if !StartsWith(t, PreOpen) then None
      else TryClass(t, SpanExcluding(t, |PreOpen|, {'>'}))
    case BackgroundStyle =>
      if !StartsWith(t, StyleBackgroundPrefix) then None
      else
        var j := SpanExcluding(t, |StyleBackgroundPrefix|, {'"'});
        if j == |t| then None else Some(j + 1)
    case CommentColor =>
      if DimCommentAt(t) then Some(|DimComment|) else None
  }

  function Replacement(rw: Rewrite): string {
    match rw
    case BackgroundDeclaration => ""
    case PreWrapper => PreReplacement
    case BackgroundStyle => ""
    case CommentColor => BrightComment
  }

  /** `t.replace(regex, replacement)` with the `g` flag. */
  function ReplaceAll(rw: Rewrite, t: string): (r: string)
    decreases |t|
  {
    if t == [] then []
    else match MatchLength(rw, t)
      case Some(n) => Replacement(rw) + ReplaceAll(rw, t[n..])
      case None => [t[0]] + ReplaceAll(rw, t[1..])
  }

  /** The rewrites of the light variant: background declarations, the `pre` wrapper, background styles. */
  function StripBackgrounds(html: string): string {
    ReplaceAll(BackgroundStyle, ReplaceAll(PreWrapper, ReplaceAll(BackgroundDeclaration, html)))
  }

  /** `cleanShikiHtml(html, isDark)`. */
  function CleanShikiHtml(html: string, isDark: bool): string {
    var cleaned := StripBackgrounds(html);
    if isDark then ReplaceAll(CommentColor, ReplaceAll(CommentColor, cleaned)) else cleaned
  }

  predicate HasMatch(rw: Rewrite, t: string) {
    exists p :: 0 <= p < |t| && MatchLength(rw, t[p..]).Some?
  }

  /** Without any match the replacement returns its input. */
  lemma {:induction false} ReplaceAllNoMatch(rw: Rewrite, t: string)
    requires forall p :: 0 <= p < |t| ==> MatchLength(rw, t[p..]).None?
    ensures ReplaceAll(rw, t) == t
    decreases |t|
  {
    if t != [] {
      assert t[0..] == t;
      forall p | 0 <= p < |t| - 1 ensures MatchLength(rw, t[1..][p..]).None? {
        assert t[1..][p..] == t[p + 1..];
      }
      ReplaceAllNoMatch(rw, t[1..]);
      assert t == [t[0]] + t[1..];
    }
  }

  /** No rewrite makes the text longer; the comment-colour one keeps the length. */
  lemma {:induction false} ReplaceAllLength(rw: Rewrite, t: string)
    ensures |ReplaceAll(rw, t)| <= |t|
    ensures rw == CommentColor ==> |ReplaceAll(rw, t)| == |t|
    decreases |t|
  {
    if t != [] {
      match MatchLength(rw, t)
      case Some(n) => ReplaceAllLength(rw, t[n..]);
      case None => ReplaceAllLength(rw, t[1..]);
    }
  }

  /** Light cleaning never lengthens the HTML; the dark variant has the light variant's length. */
  lemma CleanShikiHtmlLength(html: string)
    ensures |CleanShikiHtml(html, false)| <= |html|
    ensures |CleanShikiHtml(html, true)| == |CleanShikiHtml(html, false)|
  {
    var c1 := ReplaceAll(BackgroundDeclaration, html);
    var c2 := ReplaceAll(PreWrapper, c1);
    ReplaceAllLength(BackgroundDeclaration, html);
    ReplaceAllLength(PreWrapper, c1);
    ReplaceAllLength(BackgroundStyle, c2);
    var c3 := StripBackgrounds(html);
    ReplaceAllLength(CommentColor, c3);
    ReplaceAllLength(CommentColor, ReplaceAll(CommentColor, c3));
  }

  predicate NoDimComment(s: string) {
    forall p :: 0 <= p < |s| ==> !DimCommentAt(s[p..])
  }

  /** A case-insensitive prefix is checked one character at a time. */
  lemma FoldedPrefixStep(s: string, p: string)
    requires p != []
    ensures FoldedPrefix(s, p) <==> s != [] && LowerChar(s[0]) == p[0] && FoldedPrefix(s[1..], p[1..])
  {
    if s != [] && LowerChar(s[0]) == p[0] && FoldedPrefix(s[1..], p[1..]) {
      forall k | 0 <= k < |p| ensures LowerChar(s[k]) == p[k] {
        if k > 0 {
          assert s[k] == s[1..][k - 1] && p[k] == p[1..][k - 1];
        }
      }
    }
  }

  /** No match can start inside the replacement text `color:#8b949e`. */
  lemma BrightCommentNoDim(rest: string)
    requires NoDimComment(rest)
    ensures NoDimComment(BrightComment + rest)
  {
    var r := BrightComment + rest;
    forall p | 0 <= p < |r| ensures !DimCommentAt(r[p..]) {
      if p < |BrightComment| {
        assert r[p..][0] == BrightComment[p];
        if p == 0 {
          assert r[p..][7] == '8';
        }
      } else {
        assert r[p..] == rest[p - |BrightComment|..];
      }
    }
  }

  /** Every tail `DimComment[j..]` of the pattern that `r` starts with, `t` starts with too. */
  predicate TailsFrom(r: string, t: string) {
    forall j :: 0 < j < |DimComment| && FoldedPrefix(r, DimComment[j..]) ==> FoldedPrefix(t, DimComment[j..])
  }

  /** The only `c` of the pattern past its head is its last character. */
  lemma DimCommentInnerC(j: nat)
    requires 0 < j < |DimComment| && DimComment[j] == 'c'
    ensures j == 12
  {
  }

  /** A tail of the pattern at the head of `color:#8b949e...` is the final `c`, which `t` starts with too. */
  lemma BrightTail(t: string, rest: string, j: nat)
    requires DimCommentAt(t) && 0 < j < |DimComment| && FoldedPrefix(BrightComment + rest, DimComment[j..])
    ensures FoldedPrefix(t, DimComment[j..])
  {
    var r := BrightComment + rest;
    assert LowerChar(r[0]) == DimComment[j..][0];
    assert r[0] == 'c';
    DimCommentInnerC(j);
    assert DimComment[j..] == "c";
    assert LowerChar(t[0]) == DimComment[0];
  }

  /** A match at the head of `t` is replaced by `color:#8b949e`, which starts no new match. */
  lemma DimCommentStep(t: string, rest: string)
    requires DimCommentAt(t) && NoDimComment(rest)
    ensures NoDimComment(BrightComment + rest) && TailsFrom(BrightComment + rest, t)
  {
    BrightCommentNoDim(rest);
    forall j | 0 < j < |DimComment| && FoldedPrefix(BrightComment + rest, DimComment[j..])
      ensures FoldedPrefix(t, DimComment[j..])
    {
      BrightTail(t, rest, j);
    }
  }

  /** A character that starts no match is kept, and a match cannot start at it in the result either. */
  lemma KeptCharStep(t: string, rest: string)
    requires t != [] && !DimCommentAt(t) && NoDimComment(rest) && TailsFrom(rest, t[1..])
    ensures NoDimComment([t[0]] + rest) && TailsFrom([t[0]] + rest, t)
  {
    var r := [t[0]] + rest;
    assert r[1..] == rest;
    forall j | 0 < j < |DimComment| && FoldedPrefix(r, DimComment[j..]) ensures FoldedPrefix(t, DimComment[j..]) {
      FoldedPrefixStep(r, DimComment[j..]);
      FoldedPrefixStep(t, DimComment[j..]);
      assert DimComment[j..][1..] == DimComment[j + 1..];
    }
    forall p | 0 <= p < |r| ensures !DimCommentAt(r[p..]) {
      if p > 0 {
        assert r[p..] == rest[p - 1..];
      } else {
        assert r[0..] == r;
        FoldedPrefixStep(r, DimComment);
        FoldedPrefixStep(t, DimComment);
        assert DimComment[1..] == DimComment[1..][0..];
      }
    }
  }

  /**
   * After the comment-colour rewrite no occurrence of `color:#6B737C`, in any
   * letter case, is left: the replacement text cannot take part in a new match,
   * and a tail `DimComment[j..]` of the pattern at the head of the result was
   * already at the head of the input.
   */
  lemma {:induction false} CommentColorRemovesAll(t: string)
    ensures NoDimComment(ReplaceAll(CommentColor, t))
    ensures TailsFrom(ReplaceAll(CommentColor, t), t)
    decreases |t|
  {
    if t == [] {
    } else if DimCommentAt(t) {
      CommentColorRemovesAll(t[|DimComment|..]);
      assert ReplaceAll(CommentColor, t) == BrightComment + ReplaceAll(CommentColor, t[|DimComment|..]);
      DimCommentStep(t, ReplaceAll(CommentColor, t[|DimComment|..]));
    } else {
      CommentColorRemovesAll(t[1..]);
      assert ReplaceAll(CommentColor, t) == [t[0]] + ReplaceAll(CommentColor, t[1..]);
      KeptCharStep(t, ReplaceAll(CommentColor, t[1..]));
    }
  }

  /**
   * The second dark-mode replacement (`/color:#6b737c/gi`) finds nothing left
   * to replace: the dark variant is the light variant with the comment colour
   * swapped, once, and holds no dim comment colour at all.
   */
  lemma CleanShikiHtmlDark(html: string)
    ensures CleanShikiHtml(html, true) == ReplaceAll(CommentColor, CleanShikiHtml(html, false))
    ensures NoDimComment(CleanShikiHtml(html, true))
  {
    var once := ReplaceAll(CommentColor, StripBackgrounds(html));
    CommentColorRemovesAll(StripBackgrounds(html));
    ReplaceAllNoMatch(CommentColor, once);
  }

  /** HTML without any of the rewritten patterns passes through unchanged (light variant). */
  lemma CleanShikiHtmlUntouched(html: string)
    requires forall p :: 0 <= p < |html| ==> MatchLength(BackgroundDeclaration, html[p..]).None?
    requires forall p :: 0 <= p < |html| ==> MatchLength(PreWrapper, html[p..]).None?
    requires forall p :: 0 <= p < |html| ==> MatchLength(BackgroundStyle, html[p..]).None?
    ensures CleanShikiHtml(html, false) == html
    ensures NoDimComment(html) ==> CleanShikiHtml(html, true) == html
  {
    ReplaceAllNoMatch(BackgroundDeclaration, html);
    ReplaceAllNoMatch(PreWrapper, html);
    ReplaceAllNoMatch(BackgroundStyle, html);
    if NoDimComment(html) {
      ReplaceAllNoMatch(CommentColor, html);
    }
  }
}

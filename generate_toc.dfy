/**
 * `generateTOC(content)`: the level-2 and level-3 headings of a markdown
 * text, found with the global, multiline regular expression
 * `^(#{2,3})\s+(.+)$` and returned in document order, each with the slug of
 * its text as `id`.
 *
 * The regular expression is modelled with its backtracking spelled out. At
 * a position `p` where a line starts (the text start, or just after a line
 * terminator), `#{2,3}` takes the hashes there, which must number 2 or 3 and
 * be followed by white space (with four or more, both choices leave a `#`
 * where `\s` is needed). `\s+` first takes the whole run `W` of white space,
 * line breaks included, and gives back characters until `.` can match: the
 * text starts at the last position of the run, or just after it, that holds
 * a character other than a line terminator. `.+` then runs to the next line
 * terminator or to the end, where `$` matches. The search resumes where the
 * match ended.
 */
module Toc {
  import opened Wrappers
  import opened Text
  import opened BlogTypes
  import opened Slugs

  /** `^` under the `m` flag. */
  predicate LineStart(s: string, p: nat)
    requires p <= |s|
  {
    p == 0 || IsLineTerminator(s[p - 1])
  }

  /** The number of `#` characters from position `p` on. */
  function HashRun(s: string, p: nat): (n: nat)
    requires p <= |s|
    ensures p + n <= |s|
    ensures p + n == |s| || s[p + n] != '#'
    decreases |s| - p
  {
    if p < |s| && s[p] == '#' then 1 + HashRun(s, p + 1) else 0
  }

  /** The number of white-space characters from position `q` on. */
  function SpaceRun(s: string, q: nat): (n: nat)
    requires q <= |s|
    ensures q + n <= |s|
    ensures q + n == |s| || !IsSpace(s[q + n])
    decreases |s| - q
  {
    if q < |s| && IsSpace(s[q]) then 1 + SpaceRun(s, q + 1) else 0
  }

  /** The text can start at `i`: `.` matches there. */
  predicate CanStartText(s: string, i: nat) {
    i < |s| && !IsLineTerminator(s[i])
  }

  /**
   * How many characters `\s+` keeps when it may keep at most `k` of the run
   * starting at `q`: the largest `j` in `1..k` where the text can start at
   * `q + j`, or 0 when there is none and the match fails.
   */
  function KeptSpaces(s: string, q: nat, k: nat): (j: nat)
    ensures j <= k
    ensures j > 0 ==> CanStartText(s, q + j)
  {
    if k == 0 then 0
    else if CanStartText(s, q + k) then k
    else KeptSpaces(s, q, k - 1)
  }

  /** The end of the line holding position `i`: the next line terminator, or the end. */
  function LineEnd(s: string, i: nat): (e: nat)
    requires i <= |s|
    ensures i <= e <= |s|
    ensures e == |s| || IsLineTerminator(s[e])
    decreases |s| - i
  {
    if i == |s| || IsLineTerminator(s[i]) then i else LineEnd(s, i + 1)
  }

  /** The run `HashRun` counts is made of hashes. */
  lemma {:induction false} HashRunHashes(s: string, p: nat)
    requires p <= |s|
    ensures forall i :: p <= i < p + HashRun(s, p) ==> s[i] == '#'
    decreases |s| - p
  {
    if p < |s| && s[p] == '#' {
      HashRunHashes(s, p + 1);
    }
  }

  /** The run `SpaceRun` counts is made of white space. */
  lemma {:induction false} SpaceRunSpaces(s: string, q: nat)
    requires q <= |s|
    ensures forall i :: q <= i < q + SpaceRun(s, q) ==> IsSpace(s[i])
    decreases |s| - q
  {
    if q < |s| && IsSpace(s[q]) {
      SpaceRunSpaces(s, q + 1);
    }
  }

  /** No line terminator lies between `i` and `LineEnd(s, i)`. */
  lemma {:induction false} LineEndWithin(s: string, i: nat)
    requires i <= |s|
    ensures forall k :: i <= k < LineEnd(s, i) ==> !IsLineTerminator(s[k])
    decreases |s| - i
  {
    if i < |s| && !IsLineTerminator(s[i]) {
      LineEndWithin(s, i + 1);
    }
  }

  /** `KeptSpaces` keeps as many as it can: the text cannot start further on. */
  lemma {:induction false} KeptSpacesLargest(s: string, q: nat, k: nat)
    ensures forall i :: q + KeptSpaces(s, q, k) < i <= q + k ==> !CanStartText(s, i)
  {
    if k > 0 && !CanStartText(s, q + k) {
      KeptSpacesLargest(s, q, k - 1);
    }
  }

  /** A match: where it starts, the number of hashes, and where the text is. */
  datatype Match = Match(start: nat, level: nat, textStart: nat, textEnd: nat)

  /** The match of the regular expression that starts at `p`, if any. */
  function MatchAt(s: string, p: nat): (r: Option<Match>)
    requires p <= |s|
    ensures r.Some? ==> r.value.start == p && p + r.value.level < r.value.textStart < r.value.textEnd <= |s|
  {
    if !LineStart(s, p) then None
    else
      var h := HashRun(s, p);
      if h < 2 || h > 3 || p + h == |s| || !IsSpace(s[p + h]) then None
      else
        var q := p + h;
        var k := KeptSpaces(s, q, SpaceRun(s, q));
        if k == 0 then None
        else Some(Match(p, h, q + k, LineEnd(s, q + k)))
  }

  /** `headingRegex.exec(content)` with `lastIndex == from`: the leftmost match at or after `from`. */
  function Exec(s: string, from: nat): (r: Option<Match>)
    requires from <= |s|
    ensures r.Some? ==> from <= r.value.start < r.value.textStart < r.value.textEnd <= |s|
    decreases |s| - from
  {
    match MatchAt(s, from)
    case Some(m) => Some(m)
    case None => if from == |s| then None else Exec(s, from + 1)
  }

  /** `exec` finds the leftmost match at or after `from`, and reports none only when there is none. */
  lemma ExecLeftmost(s: string, from: nat)
    requires from <= |s|
    ensures Exec(s, from).Some? ==> MatchAt(s, Exec(s, from).value.start) == Exec(s, from)
    ensures Exec(s, from).Some? ==> forall p :: from <= p < Exec(s, from).value.start ==> MatchAt(s, p).None?
    ensures Exec(s, from).None? ==> forall p :: from <= p <= |s| ==> MatchAt(s, p).None?
  {
    if Exec(s, from).Some? {
      ExecFound(s, from);
    }
    forall p | from <= p <= |s| && (Exec(s, from).None? || p < Exec(s, from).value.start)
      ensures MatchAt(s, p).None?
    {
      ExecSkips(s, from, p);
    }
  }

  /** What `exec` reports is the match at the position it reports. */
  lemma {:induction false} ExecFound(s: string, from: nat)
    requires from <= |s| && Exec(s, from).Some?
    ensures MatchAt(s, Exec(s, from).value.start) == Exec(s, from)
    decreases |s| - from
  {
    if MatchAt(s, from).None? {
      ExecFound(s, from + 1);
    }
  }

  /** No match starts at a position `exec` passed over. */
  lemma {:induction false} ExecSkips(s: string, from: nat, p: nat)
    requires from <= p <= |s|
    requires Exec(s, from).None? || p < Exec(s, from).value.start
    ensures MatchAt(s, p).None?
    decreases p - from
  {
    if p > from {
      assert MatchAt(s, from).None?;
      ExecSkips(s, from + 1, p);
    }
  }

  /** The matches that successive calls of `exec` return, starting at `from`. */
  function MatchesFrom(s: string, from: nat): seq<Match>
    requires from <= |s|
    decreases |s| - from
  {
    match Exec(s, from)
    case None => []
    case Some(m) => [m] + MatchesFrom(s, m.textEnd)
  }

  /** The heading a match yields: its level, its text and the slug of the text. */
  function Heading(s: string, m: Match, fold: Fold): (h: TocHeading)
    requires m.textStart <= m.textEnd <= |s|
    ensures h.level == m.level && h.text == s[m.textStart..m.textEnd] && h.id == Slugify(h.text, fold)
  {
    var text := s[m.textStart..m.textEnd];
    TocHeading(m.level, text, Slugify(text, fold))
  }

  predicate InText(s: string, ms: seq<Match>) {
    forall i :: 0 <= i < |ms| ==> ms[i].textStart <= ms[i].textEnd <= |s|
  }

  lemma {:induction false} MatchesInText(s: string, from: nat)
    requires from <= |s|
    ensures InText(s, MatchesFrom(s, from))
    decreases |s| - from
  {
    match Exec(s, from)
    case None =>
    case Some(m) =>
      MatchesInText(s, m.textEnd);
  }

  function Headings(s: string, ms: seq<Match>, fold: Fold): (r: seq<TocHeading>)
    requires InText(s, ms)
    ensures |r| == |ms|
    ensures forall i :: 0 <= i < |ms| ==> r[i] == Heading(s, ms[i], fold)
  {
    seq(|ms|, i requires 0 <= i < |ms| => Heading(s, ms[i], fold))
  }

  /** One call of `exec` that matches yields that match, then the matches after it. */
  lemma MatchesStep(s: string, from: nat)
    requires from <= |s| && Exec(s, from).Some?
    ensures Exec(s, from).value.textEnd <= |s|
    ensures MatchesFrom(s, from) == [Exec(s, from).value] + MatchesFrom(s, Exec(s, from).value.textEnd)
  {
  }

  lemma Reassociate(found: seq<Match>, m: Match, rest: seq<Match>, all: seq<Match>)
    requires found + ([m] + rest) == all
    ensures (found + [m]) + rest == all
  {
  }

  /** Appending one match in the text appends its heading. */
  lemma HeadingsSnoc(s: string, ms: seq<Match>, m: Match, fold: Fold)
    requires InText(s, ms) && m.textStart <= m.textEnd <= |s|
    ensures InText(s, ms + [m])
    ensures Headings(s, ms + [m], fold) == Headings(s, ms, fold) + [Heading(s, m, fold)]
  {
    var l := Headings(s, ms + [m], fold);
    var r := Headings(s, ms, fold) + [Heading(s, m, fold)];
    assert |l| == |r|;
    forall i | 0 <= i < |l| ensures l[i] == r[i] {
      if i < |ms| {
        assert (ms + [m])[i] == ms[i];
      }
    }
  }

  /** `generateTOC(content)`. */
  method GenerateToc(content: string, fold: Fold) returns (headings: seq<TocHeading>)
    ensures InText(content, MatchesFrom(content, 0))
    ensures headings == Headings(content, MatchesFrom(content, 0), fold)
  {
    var lastIndex := 0;
    headings := [];
    ghost var matches: seq<Match> := [];
    ghost var all := MatchesFrom(content, 0);
    assert Headings(content, [], fold) == [];
    while true
      invariant lastIndex <= |content|
      invariant matches + MatchesFrom(content, lastIndex) == all
      invariant InText(content, matches)
      invariant headings == Headings(content, matches, fold)
      decreases |content| - lastIndex
    {
      var m := Exec(content, lastIndex);
      if m.None? {
        break;
      }
      MatchesStep(content, lastIndex);
      Reassociate(matches, m.value, MatchesFrom(content, m.value.textEnd), all);
      HeadingsSnoc(content, matches, m.value, fold);
      headings := headings + [Heading(content, m.value, fold)];
      matches := matches + [m.value];
      lastIndex := m.value.textEnd;
    }
    assert MatchesFrom(content, lastIndex) == [];
    assert matches == all;
  }

  /**
   * The regular expression in logical terms: a match starts at `p` exactly
   * when a line starts there with two or three hashes, those are followed by
   * white space, and somewhere in that white space run, or just after it, a
   * character other than a line terminator can start the text. The level is
   * then the number of hashes, and the text runs to the end of its line.
   */
  lemma MatchAtSpec(s: string, p: nat)
    requires p <= |s|
    ensures MatchAt(s, p).Some? <==>
      && LineStart(s, p)
      && (HashRun(s, p) == 2 || HashRun(s, p) == 3)
      && p + HashRun(s, p) < |s| && IsSpace(s[p + HashRun(s, p)])
      && exists i :: p + HashRun(s, p) < i <= p + HashRun(s, p) + SpaceRun(s, p + HashRun(s, p)) && CanStartText(s, i)
    ensures MatchAt(s, p).Some? ==>
      var m := MatchAt(s, p).value;
      && m.level == HashRun(s, p)
      && (forall i :: p <= i < p + m.level ==> s[i] == '#')
      && (forall i :: p + m.level <= i < m.textStart ==> IsSpace(s[i]))
      && (forall i :: m.textStart <= i < m.textEnd ==> !IsLineTerminator(s[i]))
      && (m.textEnd == |s| || IsLineTerminator(s[m.textEnd]))
  {
    MatchAtIff(s, p);
    if MatchAt(s, p).Some? {
      MatchAtShape(s, p);
    }
  }

  /** When a match starts at `p`: the condition on the hashes and on the white space after them. */
  lemma MatchAtIff(s: string, p: nat)
    requires p <= |s|
    ensures MatchAt(s, p).Some? <==>
      && LineStart(s, p)
      && (HashRun(s, p) == 2 || HashRun(s, p) == 3)
      && p + HashRun(s, p) < |s| && IsSpace(s[p + HashRun(s, p)])
      && exists i :: p + HashRun(s, p) < i <= p + HashRun(s, p) + SpaceRun(s, p + HashRun(s, p)) && CanStartText(s, i)
  {
    if LineStart(s, p) {
      var h := HashRun(s, p);
      if 2 <= h <= 3 && p + h < |s| && IsSpace(s[p + h]) {
        var q := p + h;
        var w := SpaceRun(s, q);
        var k := KeptSpaces(s, q, w);
        KeptSpacesLargest(s, q, w);
        if i :| q < i <= q + w && CanStartText(s, i) {
          assert q + k >= i;
        }
        if k > 0 {
          assert CanStartText(s, q + k);
        }
      }
    }
  }

  /** The parts of a match: the hashes, the white space kept, and the text up to the end of its line. */
  lemma MatchAtShape(s: string, p: nat)
    requires p <= |s| && MatchAt(s, p).Some?
    ensures var m := MatchAt(s, p).value;
      && m.level == HashRun(s, p)
      && (forall i :: p <= i < p + m.level ==> s[i] == '#')
      && (forall i :: p + m.level <= i < m.textStart ==> IsSpace(s[i]))
      && (forall i :: m.textStart <= i < m.textEnd ==> !IsLineTerminator(s[i]))
      && (m.textEnd == |s| || IsLineTerminator(s[m.textEnd]))
  {
    var h := HashRun(s, p);
    var q := p + h;
    var w := SpaceRun(s, q);
    var k := KeptSpaces(s, q, w);
    assert MatchAt(s, p) == Some(Match(p, h, q + k, LineEnd(s, q + k)));
    HashRunHashes(s, p);
    SpaceRunSpaces(s, q);
    LineEndWithin(s, q + k);
  }

  /**
   * A line opened by a single `#`, or by four or more, or whose hashes are
   * not followed by white space, yields no heading.
   */
  lemma NoHeading(s: string, p: nat)
    requires p <= |s|
    requires HashRun(s, p) < 2 || HashRun(s, p) > 3
          || p + HashRun(s, p) == |s| || !IsSpace(s[p + HashRun(s, p)])
    ensures MatchAt(s, p).None?
  {
  }

  /** The facts about a list of matches that the lemmas below establish. */
  predicate Ordered(ms: seq<Match>, from: nat) {
    && (forall i :: 0 <= i < |ms| ==> ms[i].start < ms[i].textEnd)
    && (|ms| > 0 ==> from <= ms[0].start)
    && (forall i :: 0 <= i < |ms| - 1 ==> ms[i].textEnd <= ms[i + 1].start)
  }

  /**
   * The matches are in document order and do not overlap: each starts where
   * or after the previous one ended, and each is the match at its start.
   */
  lemma {:induction false} MatchesOrdered(s: string, from: nat)
    requires from <= |s|
    ensures Ordered(MatchesFrom(s, from), from)
    ensures forall m :: m in MatchesFrom(s, from) ==> m.start <= |s| && MatchAt(s, m.start) == Some(m)
    decreases |s| - from
  {
    ExecLeftmost(s, from);
    match Exec(s, from)
    case None =>
    case Some(m) =>
      MatchesOrdered(s, m.textEnd);
      var rest := MatchesFrom(s, m.textEnd);
      assert MatchesFrom(s, from) == [m] + rest;
  }

  /**
   * No match is skipped: a position where the regular expression matches is
   * the start of a returned match, or lies inside the text of an earlier one
   * (the search resumes only after that text).
   */
  lemma {:induction false} MatchesComplete(s: string, from: nat, p: nat)
    requires from <= p <= |s| && MatchAt(s, p).Some?
    ensures exists i :: (0 <= i < |MatchesFrom(s, from)| &&
      MatchesFrom(s, from)[i].start <= p < MatchesFrom(s, from)[i].textEnd)
    decreases |s| - from
  {
    ExecLeftmost(s, from);
    match Exec(s, from)
    case None =>
    case Some(m) =>
      var ms := MatchesFrom(s, from);
      assert ms[0] == m;
      if p >= m.textEnd {
        MatchesComplete(s, m.textEnd, p);
        var i :| 0 <= i < |MatchesFrom(s, m.textEnd)|
          && MatchesFrom(s, m.textEnd)[i].start <= p < MatchesFrom(s, m.textEnd)[i].textEnd;
        assert ms[i + 1] == MatchesFrom(s, m.textEnd)[i];
      } else {
        assert m.start <= p;
      }
  }

  /**
   * Every heading has level 2 or 3, the number of hashes opening its line in
   * the text, and its `id` is the slug of its text; headings come in the
   * order of their matches.
   */
  lemma TocHeadings(s: string, fold: Fold, i: nat)
    requires InText(s, MatchesFrom(s, 0)) && i < |MatchesFrom(s, 0)|
    ensures var m := MatchesFrom(s, 0)[i];
      var h := Headings(s, MatchesFrom(s, 0), fold)[i];
      && m.start <= |s| && LineStart(s, m.start)
      && (h.level == 2 || h.level == 3) && h.level == HashRun(s, m.start)
      && h.text == s[m.textStart..m.textEnd]
      && h.id == Slugify(h.text, fold)
  {
    MatchesOrdered(s, 0);
    var m := MatchesFrom(s, 0)[i];
    assert m in MatchesFrom(s, 0);
    MatchAtSpec(s, m.start);
  }
}

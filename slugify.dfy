/**
 * `slugify(text)` of the table-of-contents generator: lower-case the text,
 * decompose it (Unicode NFD), remove the combining diacritical marks
 * U+0300..U+036F, remove every character that is not a word character, white
 * space or `-`, turn each run of white space into `-`, turn each run of
 * hyphens into one `-`, and trim.
 *
 * Case mapping and decomposition are exact on ASCII (lower-casing the letters,
 * nothing else). For a character outside ASCII, `toLowerCase` followed by
 * `normalize("NFD")` is the parameter `fold`, applied character by character.
 */
module Slugs {
  import opened Text

  /** `c.toLowerCase().normalize("NFD")` for a character `c` outside ASCII. */
  type Fold = char -> string

  /** The block of combining diacritical marks, `[̀-ͯ]`. */
  predicate IsMark(c: char) {
    '\U{300}' <= c <= '\U{36F}'
  }

  /** What `[^\w\s-]` does not remove. */
  predicate Allowed(c: char) {
    IsWordChar(c) || IsSpace(c) || c == '-'
  }

  /** A character of a slug: a word character or a hyphen. */
  predicate SlugChar(c: char) {
    IsWordChar(c) || c == '-'
  }

  /** `toLowerCase().normalize("NFD")`. */
  function Decompose(s: string, fold: Fold): (r: string)
  {
    if s == [] then []
    else (if IsAscii(s[0]) then [LowerChar(s[0])] else fold(s[0])) + Decompose(s[1..], fold)
  }

  /** `.replace(/[̀-ͯ]/g, "")`. */
  function StripMarks(s: string): (r: string)
    ensures |r| <= |s|
  {
    if s == [] then []
    else (if IsMark(s[0]) then [] else [s[0]]) + StripMarks(s[1..])
  }

  /** `.replace(/[^\w\s-]/g, "")`. */
  function KeepAllowed(s: string): (r: string)
    ensures |r| <= |s|
  {
    if s == [] then []
    else (if Allowed(s[0]) then [s[0]] else []) + KeepAllowed(s[1..])
  }

  /** `.replace(/\s+/g, "-")`: each maximal run of white space becomes one hyphen. */
  function CollapseSpaces(s: string): (r: string)
    decreases |s|
  {
    if s == [] then []
    else if IsSpace(s[0]) then "-" + CollapseSpaces(TrimStart(s[1..]))
    else [s[0]] + CollapseSpaces(s[1..])
  }

  /** The text after the hyphens at the start of `s`. */
  function DropHyphens(s: string): (r: string)
    ensures |r| <= |s| && r == s[|s| - |r|..]
    ensures r == [] || r[0] != '-'
  {
    if s != [] && s[0] == '-' then DropHyphens(s[1..]) else s
  }

  /** `.replace(/--+/g, "-")`: each run of two or more hyphens becomes one. */
  function CollapseHyphens(s: string): (r: string)
    ensures s != [] ==> r != [] && r[0] == s[0]
    decreases |s|
  {
    if s == [] then []
    else if s[0] == '-' then "-" + CollapseHyphens(DropHyphens(s[1..]))
    else [s[0]] + CollapseHyphens(s[1..])
  }

  /** `slugify(text)`. */
  function Slugify(text: string, fold: Fold): string {
    Trim(CollapseHyphens(CollapseSpaces(KeepAllowed(StripMarks(Decompose(text, fold))))))
  }

  /** The slug before the final `trim`. */
  function Collapsed(text: string, fold: Fold): string {
    CollapseHyphens(CollapseSpaces(KeepAllowed(StripMarks(Decompose(text, fold)))))
  }

  /** A character of a suffix of `s` is a character of `s`. */
  lemma InSuffix(s: string, k: nat, x: char)
    requires k <= |s| && x in s[k..]
    ensures x in s
  {
    var j :| 0 <= j < |s[k..]| && s[k..][j] == x;
    assert s[k + j] == x;
  }

  /** Removing the marks leaves no mark and only characters of the input. */
  lemma {:induction false} StripMarksChars(s: string)
    ensures forall i :: 0 <= i < |StripMarks(s)| ==> !IsMark(StripMarks(s)[i]) && StripMarks(s)[i] in s
  {
    if s != [] {
      StripMarksChars(s[1..]);
      var head, t := if IsMark(s[0]) then [] else [s[0]], StripMarks(s[1..]);
      assert StripMarks(s) == head + t;
      forall i | 0 <= i < |head + t| ensures !IsMark((head + t)[i]) && (head + t)[i] in s {
        if i >= |head| {
          assert (head + t)[i] == t[i - |head|];
          InSuffix(s, 1, t[i - |head|]);
        }
      }
    }
  }

  /** The special-character filter leaves only allowed characters of the input. */
  lemma {:induction false} KeepAllowedChars(s: string)
    ensures forall i :: 0 <= i < |KeepAllowed(s)| ==> Allowed(KeepAllowed(s)[i]) && KeepAllowed(s)[i] in s
  {
    if s != [] {
      KeepAllowedChars(s[1..]);
      var head, t := if Allowed(s[0]) then [s[0]] else [], KeepAllowed(s[1..]);
      assert KeepAllowed(s) == head + t;
      forall i | 0 <= i < |head + t| ensures Allowed((head + t)[i]) && (head + t)[i] in s {
        if i >= |head| {
          assert (head + t)[i] == t[i - |head|];
          InSuffix(s, 1, t[i - |head|]);
        }
      }
    }
  }

  /** After collapsing there is no white space; every other character is from the input. */
  lemma CollapseSpacesChars(s: string)
    ensures forall i :: 0 <= i < |CollapseSpaces(s)| ==>
      !IsSpace(CollapseSpaces(s)[i]) && (CollapseSpaces(s)[i] == '-' || CollapseSpaces(s)[i] in s)
  {
    forall i | 0 <= i < |CollapseSpaces(s)|
      ensures !IsSpace(CollapseSpaces(s)[i]) && (CollapseSpaces(s)[i] == '-' || CollapseSpaces(s)[i] in s)
    {
      CollapseSpacesAt(s, i);
    }
  }

  /** The character at `i` of the collapsed text: no white space, and a hyphen or a character of the input. */
  lemma {:induction false} CollapseSpacesAt(s: string, i: nat)
    requires i < |CollapseSpaces(s)|
    ensures !IsSpace(CollapseSpaces(s)[i]) && (CollapseSpaces(s)[i] == '-' || CollapseSpaces(s)[i] in s)
    decreases |s|
  {
    var rest := if IsSpace(s[0]) then TrimStart(s[1..]) else s[1..];
    var t := CollapseSpaces(rest);
    var r := [if IsSpace(s[0]) then '-' else s[0]] + t;
    assert CollapseSpaces(s) == r;
    if i > 0 {
      assert r[i] == t[i - 1];
      CollapseSpacesAt(rest, i - 1);
      if t[i - 1] != '-' {
        assert rest == s[|s| - |rest|..];
        InSuffix(s, |s| - |rest|, t[i - 1]);
      }
    }
  }

  /** After collapsing, every character other than a hyphen is from the input. */
  lemma {:induction false} CollapseHyphensChars(s: string)
    ensures forall i :: 0 <= i < |CollapseHyphens(s)| ==> CollapseHyphens(s)[i] == '-' || CollapseHyphens(s)[i] in s
    decreases |s|
  {
    if s != [] {
      var rest := if s[0] == '-' then DropHyphens(s[1..]) else s[1..];
      CollapseHyphensChars(rest);
      var t := CollapseHyphens(rest);
      var r := [s[0]] + t;
      assert CollapseHyphens(s) == r;
      forall i | 0 <= i < |r| ensures r[i] == '-' || r[i] in s {
        if i > 0 {
          assert r[i] == t[i - 1];
          if t[i - 1] != '-' {
            assert rest == s[|s| - |rest|..];
            InSuffix(s, |s| - |rest|, t[i - 1]);
          }
        }
      }
    }
  }

  /** After collapsing there are no two hyphens in a row. */
  lemma {:induction false} CollapseHyphensNoDouble(s: string)
    ensures forall i :: 0 <= i < |CollapseHyphens(s)| - 1 ==>
      !(CollapseHyphens(s)[i] == '-' && CollapseHyphens(s)[i + 1] == '-')
    decreases |s|
  {
    if s != [] {
      var rest := if s[0] == '-' then DropHyphens(s[1..]) else s[1..];
      CollapseHyphensNoDouble(rest);
      var t := CollapseHyphens(rest);
      var r := [s[0]] + t;
      assert CollapseHyphens(s) == r;
      forall i | 0 <= i < |r| - 1 ensures !(r[i] == '-' && r[i + 1] == '-') {
        assert r[i + 1] == t[i];
        if i > 0 {
          assert r[i] == t[i - 1];
        } else if s[0] == '-' {
          assert t[0] == rest[0];
        }
      }
    }
  }

  /**
   * The collapsed text is made of word characters and hyphens only, so the
   * final `trim` finds nothing to remove: in particular it removes no hyphen.
   */
  lemma SlugifyTrimsNothing(text: string, fold: Fold)
    ensures forall i :: 0 <= i < |Collapsed(text, fold)| ==> SlugChar(Collapsed(text, fold)[i])
    ensures Slugify(text, fold) == Collapsed(text, fold)
  {
    var d := Decompose(text, fold);
    var k := KeepAllowed(StripMarks(d));
    var c := CollapseSpaces(k);
    var h := CollapseHyphens(c);
    KeepAllowedChars(StripMarks(d));
    CollapseSpacesChars(k);
    CollapseHyphensChars(c);
    forall i | 0 <= i < |h| ensures SlugChar(h[i]) && !IsSpace(h[i]) {
      if h[i] != '-' {
        assert h[i] in c;
        var j :| 0 <= j < |c| && c[j] == h[i];
        assert !IsSpace(c[j]) && c[j] in k;
        var m :| 0 <= m < |k| && k[m] == h[i];
        assert Allowed(k[m]);
      }
    }
    TrimUnchanged(h);
  }

  /**
   * A slug has no white space, no two hyphens in a row, and only word
   * characters and hyphens; each of its other characters comes from the
   * decomposed text.
   */
  lemma SlugifyShape(text: string, fold: Fold)
    ensures var r := Slugify(text, fold);
      && (forall i :: 0 <= i < |r| ==> !IsSpace(r[i]) && SlugChar(r[i]))
      && (forall i :: 0 <= i < |r| - 1 ==> !(r[i] == '-' && r[i + 1] == '-'))
      && (forall i :: 0 <= i < |r| ==> r[i] == '-' || r[i] in Decompose(text, fold))
  {
    SlugifyTrimsNothing(text, fold);
    var d := Decompose(text, fold);
    var s := StripMarks(d);
    var k := KeepAllowed(s);
    var c := CollapseSpaces(k);
    var h := CollapseHyphens(c);
    StripMarksChars(d);
    KeepAllowedChars(s);
    CollapseSpacesChars(k);
    CollapseHyphensChars(c);
    CollapseHyphensNoDouble(c);
    forall i | 0 <= i < |h| ensures h[i] == '-' || h[i] in d {
      if h[i] != '-' {
        assert h[i] in c;
        var j :| 0 <= j < |c| && c[j] == h[i];
        assert c[j] in k;
        var m :| 0 <= m < |k| && k[m] == h[i];
        assert k[m] in s;
        var n :| 0 <= n < |s| && s[n] == h[i];
        assert s[n] in d;
      }
    }
  }

  lemma {:induction false} DecomposeAscii(s: string, fold: Fold)
    requires forall i :: 0 <= i < |s| ==> IsAscii(s[i])
    ensures Decompose(s, fold) == Lower(s)
  {
    if s != [] {
      DecomposeAscii(s[1..], fold);
      assert Lower(s) == [LowerChar(s[0])] + Lower(s[1..]);
    }
  }

  lemma {:induction false} DecomposeNoUpper(s: string, fold: Fold)
    requires forall c :: !IsAscii(c) ==> NoAsciiUpper(fold(c))
    ensures NoAsciiUpper(Decompose(s, fold))
  {
    if s != [] {
      DecomposeNoUpper(s[1..], fold);
      var head := if IsAscii(s[0]) then [LowerChar(s[0])] else fold(s[0]);
      assert NoAsciiUpper(head);
      var r := Decompose(s, fold);
      assert r == head + Decompose(s[1..], fold);
      forall i | 0 <= i < |r| ensures !IsAsciiUpper(r[i]) {
        if i >= |head| {
          assert r[i] == Decompose(s[1..], fold)[i - |head|];
        }
      }
    }
  }

  /** For ASCII text the slug is made of `[a-z0-9_-]` only. */
  lemma SlugifyAscii(text: string, fold: Fold)
    requires forall i :: 0 <= i < |text| ==> IsAscii(text[i])
    ensures var r := Slugify(text, fold);
      forall i :: 0 <= i < |r| ==> ('a' <= r[i] <= 'z') || ('0' <= r[i] <= '9') || r[i] == '_' || r[i] == '-'
  {
    SlugifyShape(text, fold);
    DecomposeAscii(text, fold);
    LowerIdempotent(text);
    var r := Slugify(text, fold);
    forall i | 0 <= i < |r|
      ensures ('a' <= r[i] <= 'z') || ('0' <= r[i] <= '9') || r[i] == '_' || r[i] == '-'
    {
      if r[i] != '-' {
        var j :| 0 <= j < |Lower(text)| && Lower(text)[j] == r[i];
      }
    }
  }

  lemma {:induction false} StripMarksUnchanged(s: string)
    requires forall i :: 0 <= i < |s| ==> !IsMark(s[i])
    ensures StripMarks(s) == s
  {
    if s != [] { StripMarksUnchanged(s[1..]); }
  }

  lemma {:induction false} KeepAllowedUnchanged(s: string)
    requires forall i :: 0 <= i < |s| ==> Allowed(s[i])
    ensures KeepAllowed(s) == s
  {
    if s != [] { KeepAllowedUnchanged(s[1..]); }
  }

  lemma {:induction false} CollapseSpacesUnchanged(s: string)
    requires forall i :: 0 <= i < |s| ==> !IsSpace(s[i])
    ensures CollapseSpaces(s) == s
  {
    if s != [] { CollapseSpacesUnchanged(s[1..]); }
  }

  lemma {:induction false} CollapseHyphensUnchanged(s: string)
    requires forall i :: 0 <= i < |s| - 1 ==> !(s[i] == '-' && s[i + 1] == '-')
    ensures CollapseHyphens(s) == s
  {
    if s != [] {
      CollapseHyphensUnchanged(s[1..]);
      if s[0] == '-' {
        assert DropHyphens(s[1..]) == s[1..];
      }
    }
  }

  /**
   * `slugify` is idempotent, provided lower-casing and decomposing a
   * character outside ASCII never yields an upper-case ASCII letter.
   */
  lemma SlugifyIdempotent(text: string, fold: Fold)
    requires forall c :: !IsAscii(c) ==> NoAsciiUpper(fold(c))
    ensures Slugify(Slugify(text, fold), fold) == Slugify(text, fold)
  {
    var r := Slugify(text, fold);
    SlugifyShape(text, fold);
    DecomposeNoUpper(text, fold);
    forall i | 0 <= i < |r| ensures IsAscii(r[i]) && !IsAsciiUpper(r[i]) {
      if r[i] != '-' {
        var j :| 0 <= j < |Decompose(text, fold)| && Decompose(text, fold)[j] == r[i];
      }
    }
    DecomposeAscii(r, fold);
    LowerOfLowerCase(r);
    StripMarksUnchanged(r);
    KeepAllowedUnchanged(r);
    CollapseSpacesUnchanged(r);
    CollapseHyphensUnchanged(r);
    TrimUnchanged(r);
  }

  lemma {:induction false} DecomposeConcat(a: string, b: string, fold: Fold)
    ensures Decompose(a + b, fold) == Decompose(a, fold) + Decompose(b, fold)
  {
    if a != [] {
      assert (a + b)[0] == a[0] && (a + b)[1..] == a[1..] + b;
      DecomposeConcat(a[1..], b, fold);
    } else {
      assert a + b == b;
    }
  }

  lemma {:induction false} StripMarksConcat(a: string, b: string)
    ensures StripMarks(a + b) == StripMarks(a) + StripMarks(b)
  {
    if a != [] {
      assert (a + b)[0] == a[0] && (a + b)[1..] == a[1..] + b;
      StripMarksConcat(a[1..], b);
    } else {
      assert a + b == b;
    }
  }

  lemma {:induction false} KeepAllowedConcat(a: string, b: string)
    ensures KeepAllowed(a + b) == KeepAllowed(a) + KeepAllowed(b)
  {
    if a != [] {
      assert (a + b)[0] == a[0] && (a + b)[1..] == a[1..] + b;
      KeepAllowedConcat(a[1..], b);
    } else {
      assert a + b == b;
    }
  }

  /** A text ending in white space or a hyphen collapses to one ending in a hyphen. */
  lemma {:induction false} CollapseSpacesLast(s: string)
    requires s != [] && (IsSpace(s[|s| - 1]) || s[|s| - 1] == '-')
    ensures CollapseSpaces(s) != [] && CollapseSpaces(s)[|CollapseSpaces(s)| - 1] == '-'
    decreases |s|
  {
    var rest := if IsSpace(s[0]) then TrimStart(s[1..]) else s[1..];
    var h := if IsSpace(s[0]) then '-' else s[0];
    assert CollapseSpaces(s) == [h] + CollapseSpaces(rest);
    if rest != [] {
      assert rest[|rest| - 1] == s[|s| - 1];
      CollapseSpacesLast(rest);
    }
    LastOfCons(h, CollapseSpaces(rest));
  }

  lemma LastOfCons(h: char, t: string)
    requires t == [] ==> h == '-'
    requires t != [] ==> t[|t| - 1] == '-'
    ensures ([h] + t)[|[h] + t| - 1] == '-'
  {
  }

  lemma {:induction false} CollapseHyphensLast(s: string)
    requires s != [] && s[|s| - 1] == '-'
    ensures CollapseHyphens(s) != [] && CollapseHyphens(s)[|CollapseHyphens(s)| - 1] == '-'
    decreases |s|
  {
    if s[0] == '-' {
      var rest := DropHyphens(s[1..]);
      if rest != [] {
        assert rest[|rest| - 1] == s[|s| - 1];
        CollapseHyphensLast(rest);
      }
    } else {
      assert |s| > 1 && s[1..][|s[1..]| - 1] == s[|s| - 1];
      CollapseHyphensLast(s[1..]);
    }
  }

  /** Lower-casing and decomposing one character. */
  lemma DecomposeOne(c: char, fold: Fold)
    ensures Decompose([c], fold) == if IsAscii(c) then [LowerChar(c)] else fold(c)
  {
    assert [c][1..] == [];
  }

  /** A text ending in an ASCII white-space character gives a slug ending in `-`. */
  lemma SlugifyTrailingSpace(text: string, c: char, fold: Fold)
    requires IsSpace(c) && IsAscii(c)
    ensures var r := Slugify(text + [c], fold);
      r != [] && r[|r| - 1] == '-'
  {
    var d := Decompose(text, fold);
    var k := KeepAllowed(StripMarks(d)) + [c];
    assert KeepAllowed(StripMarks(Decompose(text + [c], fold))) == k by {
      DecomposeConcat(text, [c], fold);
      DecomposeOne(c, fold);
      StripMarksConcat(d, [c]);
      assert StripMarks([c]) == [c] by { assert [c][1..] == []; }
      KeepAllowedConcat(StripMarks(d), [c]);
      assert KeepAllowed([c]) == [c] by { assert [c][1..] == []; }
    }
    CollapseSpacesLast(k);
    CollapseHyphensLast(CollapseSpaces(k));
    SlugifyTrimsNothing(text + [c], fold);
  }

  /**
   * Accents are removed: with `é` and `ó` decomposing to a base letter and
   * the combining acute accent, `Café com Código` becomes `cafe-com-codigo`.
   */
  lemma SlugifyDiacritics(fold: Fold)
    requires fold('\U{E9}') == "e\U{301}" && fold('\U{F3}') == "o\U{301}"
    ensures Slugify("Caf\U{E9} com C\U{F3}digo", fold) == "cafe-com-codigo"
  {
    ExampleAccents();
    SlugifyStripsAccent("Caf", " com C\U{F3}digo", '\U{E9}', 'e', "\U{301}", fold);
    SlugifyStripsAccent("Cafe com C", "digo", '\U{F3}', 'o', "\U{301}", fold);
    ExampleAscii(fold);
  }

  lemma ExampleAccents()
    ensures "Caf\U{E9} com C\U{F3}digo" == "Caf" + ['\U{E9}'] + " com C\U{F3}digo"
    ensures "Caf" + ['e'] + " com C\U{F3}digo" == "Cafe com C" + ['\U{F3}'] + "digo"
    ensures "Cafe com C" + ['o'] + "digo" == "Cafe com Codigo"
    ensures "e\U{301}" == ['e'] + "\U{301}" && "o\U{301}" == ['o'] + "\U{301}"
    ensures IsMark('\U{301}') && !IsAscii('\U{E9}') && !IsAscii('\U{F3}')
  {
  }

  /** The accent-free text of the example. */
  lemma ExampleAscii(fold: Fold)
    ensures Slugify("Cafe com Codigo", fold) == "cafe-com-codigo"
  {
    ExampleWords();
    SlugifyThreeWords("Cafe", "com", "Codigo", fold);
  }

  lemma ExampleWords()
    ensures AsciiWord("Cafe") && AsciiWord("com") && AsciiWord("Codigo")
    ensures "Cafe" + (" " + ("com" + (" " + "Codigo"))) == "Cafe com Codigo"
    ensures Lower("Cafe") + ("-" + (Lower("com") + ("-" + Lower("Codigo")))) == "cafe-com-codigo"
  {
    ExampleLower();
  }

  lemma ExampleLower()
    ensures Lower("Cafe") == "cafe" && Lower("com") == "com" && Lower("Codigo") == "codigo"
  {
    assert Lower("Cafe") == "cafe";
    assert Lower("com") == "com";
    assert Lower("Codigo") == "codigo";
  }

  predicate AsciiWord(w: string) {
    w != [] && forall i :: 0 <= i < |w| ==> IsWordChar(w[i])
  }

  lemma LowerWord(w: string, fold: Fold)
    requires AsciiWord(w)
    ensures AsciiWord(Lower(w)) && Decompose(w, fold) == Lower(w)
  {
    DecomposeAscii(w, fold);
  }

  /** Three ASCII words separated by single spaces: the lower-cased words joined by hyphens. */
  lemma SlugifyThreeWords(w1: string, w2: string, w3: string, fold: Fold)
    requires AsciiWord(w1) && AsciiWord(w2) && AsciiWord(w3)
    ensures Slugify(w1 + (" " + (w2 + (" " + w3))), fold) == Lower(w1) + ("-" + (Lower(w2) + ("-" + Lower(w3))))
  {
    var l1, l2, l3 := Lower(w1), Lower(w2), Lower(w3);
    LowerWord(w1, fold);
    LowerWord(w2, fold);
    LowerWord(w3, fold);
    var d := l1 + (" " + (l2 + (" " + l3)));
    var h := l1 + ("-" + (l2 + ("-" + l3)));
    assert Decompose(w1 + (" " + (w2 + (" " + w3))), fold) == d by {
      DecomposeThreeWords(w1, w2, w3, fold);
    }
    assert KeepAllowed(StripMarks(d)) == d by {
      ThreeWordsChars(l1, l2, l3, ' ');
      StripMarksUnchanged(d);
      KeepAllowedUnchanged(d);
    }
    assert CollapseSpaces(d) == h by {
      CollapseThreeWords(l1, l2, l3);
    }
    assert Trim(CollapseHyphens(h)) == h by {
      ThreeWordsChars(l1, l2, l3, '-');
      CollapseHyphensUnchanged(h);
      TrimUnchanged(h);
    }
  }

  lemma DecomposeThreeWords(w1: string, w2: string, w3: string, fold: Fold)
    requires AsciiWord(w1) && AsciiWord(w2) && AsciiWord(w3)
    ensures Decompose(w1 + (" " + (w2 + (" " + w3))), fold) == Lower(w1) + (" " + (Lower(w2) + (" " + Lower(w3))))
  {
    LowerWord(w1, fold);
    LowerWord(w2, fold);
    LowerWord(w3, fold);
    DecomposeAscii(" ", fold);
    assert Lower(" ") == " ";
    DecomposeConcat(" ", w3, fold);
    DecomposeConcat(w2, " " + w3, fold);
    DecomposeConcat(" ", w2 + (" " + w3), fold);
    DecomposeConcat(w1, " " + (w2 + (" " + w3)), fold);
  }

  /** Words joined by a separator that is white space or a hyphen. */
  lemma ThreeWordsChars(l1: string, l2: string, l3: string, sep: char)
    requires AsciiWord(l1) && AsciiWord(l2) && AsciiWord(l3) && (sep == ' ' || sep == '-')
    ensures var d := l1 + ([sep] + (l2 + ([sep] + l3)));
      && (forall i :: 0 <= i < |d| ==> Allowed(d[i]) && !IsMark(d[i]) && (sep == '-' ==> !IsSpace(d[i])))
      && (forall i :: 0 <= i < |d| - 1 ==> !(d[i] == '-' && d[i + 1] == '-'))
  {
    var d := l1 + ([sep] + (l2 + ([sep] + l3)));
    forall i | 0 <= i < |d| ensures IsWordChar(d[i]) || d[i] == sep {
      if i < |l1| {
        assert d[i] == l1[i];
      } else if i == |l1| {
      } else if i < |l1| + 1 + |l2| {
        assert d[i] == l2[i - |l1| - 1];
      } else if i == |l1| + 1 + |l2| {
      } else {
        assert d[i] == l3[i - |l1| - 2 - |l2|];
      }
    }
    forall i | 0 <= i < |d| - 1 ensures !(d[i] == '-' && d[i + 1] == '-') {
      if !IsWordChar(d[i]) {
        assert i == |l1| || i == |l1| + 1 + |l2|;
      }
    }
  }

  /** Three words separated by single spaces collapse to the words joined by hyphens. */
  lemma CollapseThreeWords(w1: string, w2: string, w3: string)
    requires w2 != [] && w3 != []
    requires forall i :: 0 <= i < |w1| ==> !IsSpace(w1[i])
    requires forall i :: 0 <= i < |w2| ==> !IsSpace(w2[i])
    requires forall i :: 0 <= i < |w3| ==> !IsSpace(w3[i])
    ensures CollapseSpaces(w1 + (" " + (w2 + (" " + w3)))) == w1 + ("-" + (w2 + ("-" + w3)))
  {
    CollapseSpacesUnchanged(w3);
    SpaceThenWord(w3);
    CollapseSpacesWord(w2, " " + w3);
    SpaceThenWord(w2 + (" " + w3));
    CollapseSpacesWord(w1, " " + (w2 + (" " + w3)));
  }

  /** One space before a word collapses to one hyphen. */
  lemma SpaceThenWord(w: string)
    requires w != [] && !IsSpace(w[0])
    ensures CollapseSpaces([' '] + w) == "-" + CollapseSpaces(w)
  {
    assert ([' '] + w)[1..] == w;
  }

  /**
   * An accented letter whose decomposition is an ASCII base letter followed
   * by combining marks gives the same slug as the base letter itself.
   */
  lemma SlugifyStripsAccent(a: string, b: string, c: char, x: char, marks: string, fold: Fold)
    requires !IsAscii(c) && fold(c) == [x] + marks
    requires IsAscii(x) && !IsAsciiUpper(x)
    requires forall i :: 0 <= i < |marks| ==> IsMark(marks[i])
    ensures Slugify(a + [c] + b, fold) == Slugify(a + [x] + b, fold)
  {
    var da, db := Decompose(a, fold), Decompose(b, fold);
    var dx := da + [x];
    assert Decompose(a + [c] + b, fold) == (dx + marks) + db by {
      DecomposeConcat(a + [c], b, fold);
      DecomposeConcat(a, [c], fold);
      DecomposeOne(c, fold);
      assert da + ([x] + marks) == dx + marks;
    }
    assert Decompose(a + [x] + b, fold) == dx + db by {
      DecomposeConcat(a + [x], b, fold);
      DecomposeConcat(a, [x], fold);
      DecomposeOne(x, fold);
    }
    assert StripMarks((dx + marks) + db) == StripMarks(dx + db) by {
      StripMarksConcat(dx + marks, db);
      StripMarksConcat(dx, marks);
      StripMarksNone(marks);
      StripMarksConcat(dx, db);
      assert StripMarks(dx) + [] == StripMarks(dx);
    }
  }

  lemma {:induction false} StripMarksNone(s: string)
    requires forall i :: 0 <= i < |s| ==> IsMark(s[i])
    ensures StripMarks(s) == []
  {
    if s != [] { StripMarksNone(s[1..]); }
  }

  /** A word without white space is copied by the space collapse. */
  lemma {:induction false} CollapseSpacesWord(w: string, rest: string)
    requires forall i :: 0 <= i < |w| ==> !IsSpace(w[i])
    ensures CollapseSpaces(w + rest) == w + CollapseSpaces(rest)
  {
    if w != [] {
      assert (w + rest)[0] == w[0] && (w + rest)[1..] == w[1..] + rest;
      CollapseSpacesWord(w[1..], rest);
    } else {
      assert w + rest == rest;
    }
  }
}

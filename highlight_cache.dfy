/**
 * The file cache of `highlightCodeCached`. A key is the md5 digest (the
 * parameter `hash`) of `${code}-${language}-${theme}-v2`; the cache
 * directory is a map from key to file content; a read that fails is a miss
 * (`null`); a write that fails is swallowed, which is a write that does not
 * happen (the parameter `writable` says which keys can be written).
 */
module HighlightCache {
  import opened Wrappers
  import opened Text
  import opened HighlightLanguages
  import opened Highlighting

  /** The text that is hashed into a cache key. */
  function KeyInput(code: string, language: string, theme: Theme): string {
    code + "-" + language + "-" + theme.Name() + "-v2"
  }

  /** `getCacheKey(code, language, theme)`. */
  function Key(hash: string -> string, code: string, language: string, theme: Theme): string {
    hash(KeyInput(code, language, theme))
  }

  /** `readFromCache(key)`: the file's content, or `null` when it cannot be read. */
  function Read(cache: map<string, string>, key: string): (r: Option<string>)
    ensures r.Some? <==> key in cache
    ensures r.Some? ==> r.value == cache[key]
  {
    if key in cache then Some(cache[key]) else None
  }

  /** `writeToCache(key, content)`: the file is written, unless the write fails. */
  function Write(cache: map<string, string>, key: string, content: string, writable: bool): (r: map<string, string>)
    ensures writable ==> r == cache[key := content]
    ensures !writable ==> r == cache
  {
    if writable then cache[key := content] else cache
  }

  /** `cachedLight && cachedDark`: both reads succeed with non-empty (truthy) content. */
  function Hit(cache: map<string, string>, lightKey: string, darkKey: string): (r: Option<Highlighted>)
    ensures r.Some? <==> lightKey in cache && darkKey in cache && cache[lightKey] != "" && cache[darkKey] != ""
    ensures r.Some? ==> r.value == Highlighted(cache[lightKey], cache[darkKey])
  {
    match (Read(cache, lightKey), Read(cache, darkKey))
    case (Some(light), Some(dark)) =>
      if light != "" && dark != "" then Some(Highlighted(light, dark)) else None
    case _ => None
  }

  /**
   * `highlightCodeCached(code, language)` on a cache and a highlighter: the
   * pair returned and the cache afterwards.
   */
  function Lookup(hash: string -> string, writable: string -> bool, highlighter: Option<Engine>,
                  cache: map<string, string>, code: string, language: string): (Highlighted, map<string, string>)
  {
    var lightKey := Key(hash, code, language, MinLight);
    var darkKey := Key(hash, code, language, MinDark);
    match Hit(cache, lightKey, darkKey)
    case Some(cached) => (cached, cache)
    case None =>
      var h := HighlightCode(highlighter, code, language);
      (h, Write(Write(cache, lightKey, h.light, writable(lightKey)), darkKey, h.dark, writable(darkKey)))
  }

  /** A hit returns the cached pair, leaves the cache alone and does not depend on the highlighter. */
  lemma LookupHit(hash: string -> string, writable: string -> bool, h1: Option<Engine>, h2: Option<Engine>,
                  cache: map<string, string>, code: string, language: string)
    requires Hit(cache, Key(hash, code, language, MinLight), Key(hash, code, language, MinDark)).Some?
    ensures Lookup(hash, writable, h1, cache, code, language) == Lookup(hash, writable, h2, cache, code, language)
    ensures Lookup(hash, writable, h1, cache, code, language).1 == cache
    ensures Lookup(hash, writable, h1, cache, code, language).0
         == Highlighted(cache[Key(hash, code, language, MinLight)], cache[Key(hash, code, language, MinDark)])
  {
  }

  /**
   * A miss, partial hits included, recomputes both renderings, stores light
   * under the light key and dark under the dark key, and changes no other entry.
   */
  lemma LookupMiss(hash: string -> string, writable: string -> bool, h: Option<Engine>,
                   cache: map<string, string>, code: string, language: string)
    requires Hit(cache, Key(hash, code, language, MinLight), Key(hash, code, language, MinDark)).None?
    ensures var (r, after) := Lookup(hash, writable, h, cache, code, language);
      var lk, dk := Key(hash, code, language, MinLight), Key(hash, code, language, MinDark);
      && r == HighlightCode(h, code, language)
      && (writable(dk) ==> dk in after && after[dk] == r.dark)
      && (writable(lk) && lk != dk ==> lk in after && after[lk] == r.light)
      && (forall k :: k != lk && k != dk ==> (k in after <==> k in cache) && (k in cache ==> after[k] == cache[k]))
  {
  }

  /**
   * After a miss whose two writes succeed under distinct keys, the same call
   * hits and returns the same pair (when neither rendering is empty).
   */
  lemma SecondCallHits(hash: string -> string, writable: string -> bool, h1: Option<Engine>, h2: Option<Engine>,
                       cache: map<string, string>, code: string, language: string)
    requires Key(hash, code, language, MinLight) != Key(hash, code, language, MinDark)
    requires writable(Key(hash, code, language, MinLight)) && writable(Key(hash, code, language, MinDark))
    requires HighlightCode(h1, code, language).light != "" && HighlightCode(h1, code, language).dark != ""
    ensures var (first, after) := Lookup(hash, writable, h1, cache, code, language);
      var (second, again) := Lookup(hash, writable, h2, after, code, language);
      second == first && again == after
  {
  }

  /** The fallback renderings are never empty, so they can be cache hits. */
  lemma FallbackNonEmpty(code: string)
    ensures FallbackHtml(code) != ""
  {
  }

  /** The theme is part of the key: light and dark key inputs always differ. */
  lemma KeyInputThemesDiffer(code: string, language: string)
    ensures KeyInput(code, language, MinLight) != KeyInput(code, language, MinDark)
  {
    assert |KeyInput(code, language, MinLight)| == |KeyInput(code, language, MinDark)| + 1;
  }

  /**
   * Keys are built from the language as the caller wrote it: `js` and
   * `javascript` name one language but occupy two cache entries.
   */
  lemma KeyInputRawLanguage(code: string, theme: Theme)
    ensures NormalizeLanguage("js") == NormalizeLanguage("javascript")
    ensures KeyInput(code, "js", theme) != KeyInput(code, "javascript", theme)
  {
    assert |KeyInput(code, "javascript", theme)| == |KeyInput(code, "js", theme)| + 8;
    assert Lower("js") == "js";
    assert Lower("javascript") == "javascript";
  }

  predicate NoHyphen(s: string) {
    forall i :: 0 <= i < |s| ==> s[i] != '-'
  }

  /** The position of the last hyphen in `u`, or -1. */
  function LastHyphen(u: string): (r: int)
    ensures -1 <= r < |u|
  {
    if u == [] then -1
    else if u[|u| - 1] == '-' then |u| - 1
    else LastHyphen(u[..|u| - 1])
  }

  /** In `c + "-" + l` with `l` free of hyphens, the last hyphen is the separator. */
  lemma {:induction false} LastHyphenSeparator(c: string, l: string)
    requires NoHyphen(l)
    ensures LastHyphen(c + "-" + l) == |c|
    decreases |l|
  {
    var u := c + "-" + l;
    if l != [] {
      var l' := l[..|l| - 1];
      assert u[..|u| - 1] == c + "-" + l';
      assert u[|u| - 1] == l[|l| - 1];
      LastHyphenSeparator(c, l');
    }
  }

  /** `c + "-" + l` determines `c` and `l` when `l` has no hyphen. */
  lemma SplitAtLastHyphen(c1: string, l1: string, c2: string, l2: string)
    requires c1 + "-" + l1 == c2 + "-" + l2 && NoHyphen(l1) && NoHyphen(l2)
    ensures c1 == c2 && l1 == l2
  {
    var u := c1 + "-" + l1;
    LastHyphenSeparator(c1, l1);
    LastHyphenSeparator(c2, l2);
    assert c1 == u[..|c1|] && c2 == u[..|c2|];
    assert l1 == u[|c1| + 1..] && l2 == u[|c2| + 1..];
  }

  /** The text after the language: a hyphen, the theme's name and the version tag. */
  function Suffix(theme: Theme): string {
    "-" + theme.Name() + "-v2"
  }

  lemma KeyInputSplit(code: string, language: string, theme: Theme)
    ensures KeyInput(code, language, theme) == (code + "-" + language) + Suffix(theme)
    ensures |Suffix(theme)| >= 12
    ensures KeyInput(code, language, theme)[|KeyInput(code, language, theme)| - 12]
         == if theme == MinLight then 'm' else '-'
  {
    var x := KeyInput(code, language, theme);
    assert x == (code + "-" + language) + Suffix(theme);
    var n := |x| - |Suffix(theme)|;
    assert x[n..] == Suffix(theme);
    if theme == MinLight {
      assert Suffix(theme) == "-min-light-v2";
      assert x[|x| - 12] == x[n..][1];
    } else {
      assert Suffix(theme) == "-min-dark-v2";
      assert x[|x| - 12] == x[n..][0];
    }
  }

  /** The theme is recovered from the end of the key input. */
  lemma KeyInputTheme(c1: string, l1: string, t1: Theme, c2: string, l2: string, t2: Theme)
    requires KeyInput(c1, l1, t1) == KeyInput(c2, l2, t2)
    ensures t1 == t2 && c1 + "-" + l1 == c2 + "-" + l2
  {
    var x := KeyInput(c1, l1, t1);
    KeyInputSplit(c1, l1, t1);
    KeyInputSplit(c2, l2, t2);
    assert x[..|x| - |Suffix(t1)|] == c1 + "-" + l1;
    assert x[..|x| - |Suffix(t2)|] == c2 + "-" + l2;
  }

  /**
   * For languages without a hyphen (every fence tag is one: it is made of
   * word characters) the key input determines code, language and theme.
   */
  lemma KeyInputInjective(c1: string, l1: string, t1: Theme, c2: string, l2: string, t2: Theme)
    requires NoHyphen(l1) && NoHyphen(l2)
    requires KeyInput(c1, l1, t1) == KeyInput(c2, l2, t2)
    ensures c1 == c2 && l1 == l2 && t1 == t2
  {
    KeyInputTheme(c1, l1, t1, c2, l2, t2);
    SplitAtLastHyphen(c1, l1, c2, l2);
  }

  /**
   * With a hyphen in the language the key input is ambiguous: code `x-git`
   * in the language `commit` and code `x` in the supported language
   * `git-commit` share every cache entry.
   */
  lemma KeyInputCollision(theme: Theme)
    ensures KeyInput("x-git", "commit", theme) == KeyInput("x", "git-commit", theme)
    ensures "git-commit" in SupportedLanguages
  {
    assert "x-git" + "-" + "commit" == "x" + "-" + "git-commit";
    assert SupportedLanguages[36] == "git-commit";
  }
}

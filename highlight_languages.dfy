/**
 * The language handling of the syntax highlighter: the alias table that maps
 * a fence's language tag to the name the engine knows, and the list of
 * languages the engine is loaded with.
 */
module HighlightLanguages {
  import opened Text
  import opened Wrappers
  import JsObject

  /** The languages the highlighter is created with. */
  const SupportedLanguages: seq<string> :=
    SupportedGroup1 + SupportedGroup2 + SupportedGroup3 + SupportedGroup4 + SupportedGroup5

  /** The list in its own order, eight names at a time. */
  const SupportedGroup1: seq<string> := ["python", "javascript", "typescript", "jsx", "tsx", "bash", "shell", "json"]
  const SupportedGroup2: seq<string> := ["yaml", "markdown", "css", "html", "sql", "rust", "go", "java"]
  const SupportedGroup3: seq<string> := ["c", "cpp", "ruby", "php", "swift", "kotlin", "scala", "r"]
  const SupportedGroup4: seq<string> := ["lua", "perl", "haskell", "elixir", "clojure", "dockerfile", "nginx", "graphql"]
  const SupportedGroup5: seq<string> := ["xml", "toml", "ini", "diff", "git-commit", "git-rebase", "makefile", "cmake"]

  /** Lower-case alias to canonical language name. */
  const Aliases: map<string, string> := map[
    "js" := "javascript", "ts" := "typescript", "py" := "python", "sh" := "bash",
    "zsh" := "bash", "yml" := "yaml", "md" := "markdown", "dockerfile" := "dockerfile",
    "docker" := "dockerfile", "rs" := "rust", "rb" := "ruby", "kt" := "kotlin",
    "ex" := "elixir", "exs" := "elixir", "hs" := "haskell", "clj" := "clojure",
    "pl" := "perl"
  ]

  /**
   * `normalizeLanguage`: the lower-cased name, replaced by its canonical name
   * when it is an alias. Only the table's own entries are consulted.
   */
  function NormalizeLanguage(lang: string): (r: string)
  {
    var lower := Lower(lang);
    if lower in Aliases then Aliases[lower] else lower
  }

  /** `isLanguageSupported`: the normalised name is one the engine is loaded with. */
  predicate IsLanguageSupported(lang: string) {
    NormalizeLanguage(lang) in SupportedLanguages
  }

  lemma AliasTargetsSupported()
    ensures forall a :: a in Aliases ==> Aliases[a] in SupportedLanguages
  {
  }

  lemma AliasTargetsLowerCase()
    ensures forall a :: a in Aliases ==> NoAsciiUpper(Aliases[a])
  {
  }

  /** No alias target is itself an alias of something else. */
  lemma AliasTargetsFixed()
    ensures forall a :: a in Aliases ==> Aliases[a] !in Aliases || Aliases[Aliases[a]] == Aliases[a]
  {
  }

  /** The result is an alias target or the lower-cased input, and has no upper-case letter. */
  lemma NormalizeLanguageShape(lang: string)
    ensures NoAsciiUpper(NormalizeLanguage(lang))
    ensures NormalizeLanguage(lang) == Lower(lang) || NormalizeLanguage(lang) in Aliases.Values
    ensures Lower(lang) in Aliases ==> NormalizeLanguage(lang) == Aliases[Lower(lang)]
    ensures Lower(lang) !in Aliases ==> NormalizeLanguage(lang) == Lower(lang)
  {
    AliasTargetsLowerCase();
    LowerIdempotent(lang);
  }

  /** Case does not matter: `JS`, `Js` and `js` normalise alike. */
  lemma NormalizeLanguageCaseInsensitive(lang: string)
    ensures NormalizeLanguage(lang) == NormalizeLanguage(Lower(lang))
    ensures NormalizeLanguage("JS") == "javascript" && NormalizeLanguage("Py") == "python"
  {
    LowerIdempotent(lang);
    assert Lower("JS") == "js";
    assert Lower("Py") == "py";
  }

  lemma {:induction false} NormalizeLanguageIdempotent(lang: string)
    ensures NormalizeLanguage(NormalizeLanguage(lang)) == NormalizeLanguage(lang)
  {
    var n := NormalizeLanguage(lang);
    NormalizeLanguageShape(lang);
    LowerOfLowerCase(n);
    AliasTargetsFixed();
    if Lower(lang) in Aliases {
      assert n in Aliases.Values;
    } else {
      LowerIdempotent(lang);
    }
  }

  /**
   * `highlightCode` normalises and then asks `isLanguageSupported`, which
   * normalises again; by idempotence that second step changes nothing, and
   * every alias leads to a supported language.
   */
  lemma SupportedAfterNormalizing(lang: string)
    ensures IsLanguageSupported(NormalizeLanguage(lang)) <==> NormalizeLanguage(lang) in SupportedLanguages
    ensures IsLanguageSupported(NormalizeLanguage(lang)) <==> IsLanguageSupported(lang)
    ensures Lower(lang) in Aliases ==> IsLanguageSupported(lang)
  {
    NormalizeLanguageIdempotent(lang);
    AliasTargetsSupported();
  }

  /**
   * `normalizeLanguage` as written: `aliases[key] || key` on an object
   * literal, which also finds the members `Object.prototype` lends to it.
   * `None` stands for such an inherited member: a function or an object,
   * never a string.
   */
  function NormalizeLanguageAsWritten(lang: string): (r: Option<string>)
  {
    match JsObject.Get(Aliases, Lower(lang))
    case Own(v) => Some(v)
    case Inherited(_) => None
    case Undefined => Some(Lower(lang))
  }

  /** The two agree except on the names `Object.prototype` defines. */
  lemma NormalizeLanguageAsWrittenAgrees(lang: string)
    ensures Lower(lang) !in JsObject.ObjectPrototypeKeys ==> NormalizeLanguageAsWritten(lang) == Some(NormalizeLanguage(lang))
  {
  }

  /**
   * A fence tagged `constructor` normalises to the inherited `Object`
   * function; `isLanguageSupported` then calls `toLowerCase` on it, which
   * throws before `highlightCode`'s `try` block is reached.
   */
  lemma NormalizeLanguageAsWrittenConstructor()
    ensures NormalizeLanguageAsWritten("Constructor") == None
    ensures NormalizeLanguage("Constructor") == "constructor"
    ensures !IsLanguageSupported("Constructor")
  {
    LowerConstructorTag();
    ConstructorUnknown();
  }

  lemma LowerConstructorTag()
    ensures Lower("Constructor") == "constructor"
  {
    assert Lower("Constructor")[0] == 'c';
    assert Lower("Constructor")[1..] == "Constructor"[1..];
  }

  /** `constructor` is neither an alias nor a supported language, but `Object.prototype` has it. */
  lemma ConstructorUnknown()
    ensures "constructor" in JsObject.ObjectPrototypeKeys
    ensures "constructor" !in Aliases
    ensures "constructor" !in SupportedLanguages
  {
    ConstructorNotAlias();
    ConstructorNotSupported();
  }

  lemma ConstructorNotAlias()
    ensures "constructor" !in Aliases
  {
  }

  lemma ConstructorNotSupported()
    ensures "constructor" !in SupportedLanguages
  {
    assert "constructor" !in SupportedGroup1 && "constructor" !in SupportedGroup2;
    assert "constructor" !in SupportedGroup3 && "constructor" !in SupportedGroup4;
    assert "constructor" !in SupportedGroup5;
  }

  /** A lower-cased tag that is a key of `Object.prototype` is `constructor` or `__proto__`. */
  lemma LoweredPrototypeKeys(tag: string)
    ensures Lower(tag) in JsObject.ObjectPrototypeKeys <==> Lower(tag) == "constructor" || Lower(tag) == "__proto__"
  {
    LoweredIsNot(tag, "__defineGetter__", 8);
    LoweredIsNot(tag, "__defineSetter__", 8);
    LoweredIsNot(tag, "__lookupGetter__", 8);
    LoweredIsNot(tag, "__lookupSetter__", 8);
    LoweredIsNot(tag, "hasOwnProperty", 3);
    LoweredIsNot(tag, "isPrototypeOf", 2);
    LoweredIsNot(tag, "propertyIsEnumerable", 8);
    LoweredIsNot(tag, "toLocaleString", 2);
    LoweredIsNot(tag, "toString", 2);
    LoweredIsNot(tag, "valueOf", 5);
  }

  /** No lower-cased tag equals a name with an upper-case letter. */
  lemma LoweredIsNot(tag: string, name: string, i: nat)
    requires i < |name| && IsAsciiUpper(name[i])
    ensures Lower(tag) != name
  {
    LowerIdempotent(tag);
    if |Lower(tag)| == |name| {
      assert !IsAsciiUpper(Lower(tag)[i]);
    }
  }
}

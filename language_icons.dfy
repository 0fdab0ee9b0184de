/**
 * The language tables of the code-block header: `LANGUAGE_ICONS` (language
 * identifier to icon component), `SUPPORTED_LANGUAGES` (its keys, in the
 * order they are written), and the lookups `getLanguageIcon`,
 * `hasLanguageIcon` and `getLanguageDisplayName`. Icon components are the
 * constructors of `Icon`; each is a function, hence truthy.
 *
 * The lookups index plain object literals, which also answer for the names
 * of `Object.prototype`. The members named `...AsWritten` model that; the
 * others answer from the table's own entries only, as the tables intend.
 */
module LanguageIcons {
  import opened Wrappers
  import opened Text
  import JsObject

  datatype Icon =
    | SiPython | SiJavascript | SiTypescript | SiCss3 | SiHtml5 | SiMarkdown | SiJson | SiYaml
    | SiGnubash | SiRust | SiGo | SiPhp | SiRuby | SiSwift | SiKotlin | SiCplusplus | SiC
    | SiDocker | SiGit | VscTerminalBash | VscJson | VscCode | VscFileCode

  /** The entries of `LANGUAGE_ICONS`, in the order of the object literal, group by group. */
  const PopularEntries: seq<(string, Icon)> := [
    ("python", SiPython), ("py", SiPython),
    ("javascript", SiJavascript), ("js", SiJavascript), ("jsx", SiJavascript),
    ("typescript", SiTypescript), ("ts", SiTypescript), ("tsx", SiTypescript)]
  const ShellEntries: seq<(string, Icon)> := [
    ("bash", SiGnubash), ("sh", SiGnubash),
    ("shell", VscTerminalBash), ("zsh", VscTerminalBash), ("fish", VscTerminalBash)]
  const WebEntries: seq<(string, Icon)> := [
    ("css", SiCss3), ("scss", SiCss3), ("sass", SiCss3), ("html", SiHtml5), ("htm", SiHtml5)]
  const DataEntries: seq<(string, Icon)> := [
    ("json", SiJson), ("jsonc", VscJson), ("yaml", SiYaml), ("yml", SiYaml), ("toml", VscFileCode)]
  const MarkupEntries: seq<(string, Icon)> := [
    ("markdown", SiMarkdown), ("md", SiMarkdown), ("mdx", SiMarkdown)]
  const SystemsEntries: seq<(string, Icon)> := [
    ("rust", SiRust), ("rs", SiRust), ("go", SiGo), ("c", SiC), ("cpp", SiCplusplus), ("c++", SiCplusplus)]
  const OtherEntries: seq<(string, Icon)> := [
    ("php", SiPhp), ("ruby", SiRuby), ("rb", SiRuby), ("swift", SiSwift), ("kotlin", SiKotlin), ("kt", SiKotlin)]
  const ToolEntries: seq<(string, Icon)> := [
    ("docker", SiDocker), ("dockerfile", SiDocker), ("git", SiGit), ("gitignore", SiGit)]
  const FallbackEntries: seq<(string, Icon)> := [
    ("text", VscFileCode), ("txt", VscFileCode), ("plaintext", VscFileCode)]

  const IconEntries: seq<(string, Icon)> :=
    PopularEntries + ShellEntries + WebEntries + DataEntries + MarkupEntries
    + SystemsEntries + OtherEntries + ToolEntries + FallbackEntries

  /** The object an object literal builds: each entry sets its key, a later one overriding an earlier. */
  function ToMap<V>(entries: seq<(string, V)>): (m: map<string, V>)
    ensures |entries| > 0 ==> entries[|entries| - 1].0 in m
  {
    if entries == [] then map[]
    else ToMap(entries[..|entries| - 1])[entries[|entries| - 1].0 := entries[|entries| - 1].1]
  }

  /** The keys of the object are exactly the keys of the entries. */
  lemma {:induction false} ToMapKeys<V>(entries: seq<(string, V)>, k: string)
    ensures k in ToMap(entries) <==> exists i :: 0 <= i < |entries| && entries[i].0 == k
  {
    if entries != [] {
      var init := entries[..|entries| - 1];
      ToMapKeys(init, k);
      if i :| 0 <= i < |init| && init[i].0 == k {
        assert entries[i] == init[i];
      }
      if i :| 0 <= i < |entries| - 1 && entries[i].0 == k {
        assert init[i] == entries[i];
      }
    }
  }

  /** `LANGUAGE_ICONS`. */
  function IconTable(): map<string, Icon> { ToMap(IconEntries) }

  /** `SUPPORTED_LANGUAGES = Object.keys(LANGUAGE_ICONS)`. */
  function SupportedLanguages(): (r: seq<string>)
    ensures |r| == |IconEntries|
  {
    seq(|IconEntries|, i requires 0 <= i < |IconEntries| => IconEntries[i].0)
  }

  /** `language.toLowerCase().trim()`. */
  function Normalize(language: string): string {
    Trim(Lower(language))
  }

  /** `getLanguageIcon(language)`, answering from the table's own entries. */
  function GetLanguageIcon(language: string): Icon {
    var n := Normalize(language);
    if n in IconTable() then IconTable()[n] else VscCode
  }

  /** `hasLanguageIcon(language)`, answering from the table's own entries. */
  predicate HasLanguageIcon(language: string) {
    Normalize(language) in IconTable()
  }

  /** What `LANGUAGE_ICONS[normalizedLang] || VscCode` yields as written. */
  datatype IconValue = Component(icon: Icon) | PrototypeMember(name: string)

  /** `getLanguageIcon(language)` as written: an inherited member is truthy and is returned. */
  function GetLanguageIconAsWritten(language: string): (r: IconValue)
  {
    match JsObject.Get(IconTable(), Normalize(language))
    case Own(icon) => Component(icon)
    case Inherited(name) => IconValue.PrototypeMember(name)
    case Undefined => Component(VscCode)
  }

  /** `hasLanguageIcon(language)` as written: the `in` operator sees inherited names too. */
  predicate HasLanguageIconAsWritten(language: string) {
    JsObject.Has(IconTable(), Normalize(language))
  }

  /** The `displayNames` table of `getLanguageDisplayName`. */
  const DisplayNames: map<string, string> := map[
    "py" := "Python", "js" := "JavaScript", "jsx" := "JavaScript",
    "ts" := "TypeScript", "tsx" := "TypeScript", "sh" := "Shell", "bash" := "Bash",
    "zsh" := "Zsh", "fish" := "Fish", "md" := "Markdown", "mdx" := "MDX", "yml" := "YAML",
    "rb" := "Ruby", "rs" := "Rust", "kt" := "Kotlin", "cpp" := "C++", "c++" := "C++"
  ]

  /**
   * `language.charAt(0).toUpperCase() + language.slice(1).toLowerCase()`,
   * of the argument as the caller wrote it.
   */
  function Capitalize(language: string): (r: string)
    ensures |r| == |language|
    ensures language != [] ==> r[0] == UpperChar(language[0]) && r[1..] == Lower(language[1..])
  {
    if language == [] then "" else [UpperChar(language[0])] + Lower(language[1..])
  }

  /** `getLanguageDisplayName(language)`, answering from the table's own entries. */
  function GetLanguageDisplayName(language: string): string {
    var n := Normalize(language);
    if n in DisplayNames then DisplayNames[n] else Capitalize(language)
  }

  /** What `displayNames[normalized] || ...` yields as written. */
  datatype DisplayValue = Name(text: string) | PrototypeMember(name: string)

  /**
   * `getLanguageDisplayName(language)` as written: every table value is a
   * non-empty string, hence truthy; an inherited member is a function or an
   * object, also truthy, and is returned.
   */
  function GetLanguageDisplayNameAsWritten(language: string): DisplayValue {
    match JsObject.Get(DisplayNames, Normalize(language))
    case Own(name) => if name != "" then Name(name) else Name(Capitalize(language))
    case Inherited(name) => DisplayValue.PrototypeMember(name)
    case Undefined => Name(Capitalize(language))
  }

  /** No entry of the table is the fallback icon. */
  lemma NoEntryIsFallback(k: string)
    ensures (k, VscCode) !in IconEntries
  {
  }

  /** Every value of an object built from entries is the value of one of them. */
  lemma {:induction false} ToMapValues<V>(entries: seq<(string, V)>, k: string)
    requires k in ToMap(entries)
    ensures exists i :: 0 <= i < |entries| && entries[i] == (k, ToMap(entries)[k])
  {
    var last := entries[|entries| - 1];
    var init := entries[..|entries| - 1];
    if k != last.0 {
      assert k in ToMap(init);
      ToMapValues(init, k);
      var i :| 0 <= i < |init| && init[i] == (k, ToMap(init)[k]);
      assert entries[i] == init[i];
    } else {
      assert entries[|entries| - 1] == (k, ToMap(entries)[k]);
    }
  }

  /** `getLanguageIcon` falls back to `VscCode` exactly when `hasLanguageIcon` is false. */
  lemma IconFallbackIffNoIcon(language: string)
    ensures GetLanguageIcon(language) == VscCode <==> !HasLanguageIcon(language)
  {
    var n := Normalize(language);
    if n in IconTable() {
      NoEntryIsFallback(n);
      ToMapValues(IconEntries, n);
    }
  }

  /** `hasLanguageIcon` holds exactly for the names in `SUPPORTED_LANGUAGES`, after normalising. */
  lemma HasIconIffSupported(language: string)
    ensures HasLanguageIcon(language) <==> Normalize(language) in SupportedLanguages()
  {
    var n := Normalize(language);
    ToMapKeys(IconEntries, n);
    if n in IconTable() {
      var i :| 0 <= i < |IconEntries| && IconEntries[i].0 == n;
      assert SupportedLanguages()[i] == n;
    }
    if n in SupportedLanguages() {
      var i :| 0 <= i < |IconEntries| && SupportedLanguages()[i] == n;
      assert IconEntries[i].0 == n;
    }
  }

  /** All three lookups depend only on the normalised name, except the fallback display name. */
  lemma LookupsNormalize(a: string, b: string)
    requires Normalize(a) == Normalize(b)
    ensures GetLanguageIcon(a) == GetLanguageIcon(b)
    ensures HasLanguageIcon(a) == HasLanguageIcon(b)
    ensures Normalize(a) in DisplayNames ==> GetLanguageDisplayName(a) == GetLanguageDisplayName(b)
  {
  }

  /** A name that is not in the table is capitalised from the argument, untrimmed. */
  lemma DisplayFallback(language: string)
    requires Normalize(language) !in DisplayNames
    ensures var r := GetLanguageDisplayName(language);
      |r| == |language| && (language != [] ==> r[0] == UpperChar(language[0]) && r[1..] == Lower(language[1..]))
  {
  }

  /** A name without upper case or surrounding white space normalises to itself. */
  lemma NormalizePlain(language: string)
    requires NoAsciiUpper(language)
    requires language == [] || (!IsSpace(language[0]) && !IsSpace(language[|language| - 1]))
    ensures Normalize(language) == language
  {
    LowerOfLowerCase(language);
    TrimUnchanged(language);
  }

  /** The entries of the display table the examples below use. */
  lemma DisplayEntry(k: string, v: string)
    requires (k, v) == ("py", "Python") || (k, v) == ("js", "JavaScript")
    ensures k in DisplayNames && DisplayNames[k] == v
  {
  }

  lemma RustNotDisplayed()
    ensures "rust" !in DisplayNames
  {
  }

  /** `getLanguageDisplayName("py")` is `"Python"`. */
  lemma DisplayNamePython()
    ensures GetLanguageDisplayName("py") == "Python"
  {
    NormalizePlain("py");
    DisplayEntry("py", "Python");
  }

  /** `getLanguageDisplayName("js")` is `"JavaScript"`. */
  lemma DisplayNameJavaScript()
    ensures GetLanguageDisplayName("js") == "JavaScript"
  {
    NormalizePlain("js");
    DisplayEntry("js", "JavaScript");
  }

  /** `"rust"` is not in the display table; its capitalised fallback is `"Rust"`. */
  lemma DisplayNameRust()
    ensures GetLanguageDisplayName("rust") == "Rust"
  {
    NormalizePlain("rust");
    RustNotDisplayed();
    CapitalizeLowerTail("rust");
    assert UpperChar('r') == 'R';
  }

  /** Every display name is a non-empty string, so `||` never falls through an own entry. */
  lemma DisplayNamesNonEmpty(k: string)
    requires k in DisplayNames
    ensures DisplayNames[k] != ""
  {
  }

  /** Outside the names of `Object.prototype` the lookups as written agree with the table. */
  lemma AsWrittenAgrees(language: string)
    requires Normalize(language) !in JsObject.ObjectPrototypeKeys
    ensures GetLanguageIconAsWritten(language) == Component(GetLanguageIcon(language))
    ensures HasLanguageIconAsWritten(language) == HasLanguageIcon(language)
    ensures GetLanguageDisplayNameAsWritten(language) == Name(GetLanguageDisplayName(language))
  {
    var n := Normalize(language);
    if n in DisplayNames {
      DisplayNamesNonEmpty(n);
    }
  }

  lemma NormalizeConstructor()
    ensures Normalize("constructor") == "constructor"
  {
    NormalizePlain("constructor");
  }

  /** No key of the icon table is eleven characters long. */
  lemma KeysShort(e: (string, Icon))
    requires e in IconEntries
    ensures |e.0| <= 10
  {
    assert e in PopularEntries || e in ShellEntries || e in WebEntries || e in DataEntries
      || e in MarkupEntries || e in SystemsEntries || e in OtherEntries || e in ToolEntries
      || e in FallbackEntries;
  }

  lemma ConstructorNoEntry(v: Icon)
    ensures ("constructor", v) !in IconEntries
  {
    if ("constructor", v) in IconEntries {
      KeysShort(("constructor", v));
    }
  }

  /** A key of an object built from entries comes with its value from one of them. */
  lemma ToMapEntry<V>(entries: seq<(string, V)>, k: string)
    requires k in ToMap(entries)
    ensures (k, ToMap(entries)[k]) in entries
  {
    ToMapValues(entries, k);
  }

  /** A name whose tail is lower case is capitalised by upper-casing its first character. */
  lemma CapitalizeLowerTail(s: string)
    requires s != [] && NoAsciiUpper(s[1..])
    ensures Capitalize(s) == [UpperChar(s[0])] + s[1..]
  {
    LowerOfLowerCase(s[1..]);
  }

  lemma CapitalizeConstructor()
    ensures Capitalize("constructor") == "Constructor"
  {
    var s := "constructor";
    assert NoAsciiUpper(s[1..]);
    CapitalizeLowerTail(s);
    assert UpperChar('c') == 'C';
  }

  /** `"constructor"` is a name `Object.prototype` answers for. */
  lemma ConstructorInherited()
    ensures "constructor" in JsObject.ObjectPrototypeKeys
    ensures JsObject.Get(IconTable(), "constructor") == JsObject.Inherited("constructor")
    ensures JsObject.Get(DisplayNames, "constructor") == JsObject.Inherited("constructor")
  {
    ConstructorNotInTables();
  }

  /** `"constructor"` is not a key of either table. */
  lemma ConstructorNotInTables()
    ensures "constructor" !in IconTable()
    ensures "constructor" !in DisplayNames
  {
    var t := IconTable();
    if "constructor" in t {
      ToMapEntry(IconEntries, "constructor");
      ConstructorNoEntry(t["constructor"]);
    }
  }

  /** `"constructor"` is not a language of the table. */
  lemma ConstructorNotSupported()
    ensures "constructor" !in SupportedLanguages()
  {
    NormalizeConstructor();
    ConstructorNotInTables();
    HasIconIffSupported("constructor");
  }

  /**
   * As written, `hasLanguageIcon("constructor")` is true although the name is
   * not in `SUPPORTED_LANGUAGES`, `getLanguageIcon("constructor")` returns the
   * `Object` function instead of an icon, and `getLanguageDisplayName("constructor")`
   * returns that function instead of a string.
   */
  lemma ConstructorAsWritten()
    ensures HasLanguageIconAsWritten("constructor") && "constructor" !in SupportedLanguages()
    ensures GetLanguageIconAsWritten("constructor") == IconValue.PrototypeMember("constructor")
    ensures GetLanguageDisplayNameAsWritten("constructor") == DisplayValue.PrototypeMember("constructor")
  {
    ConstructorHasIconAsWritten();
    ConstructorNotSupported();
    ConstructorIconAsWritten();
    ConstructorDisplayAsWritten();
  }

  lemma ConstructorHasIconAsWritten()
    ensures HasLanguageIconAsWritten("constructor")
  {
    NormalizeConstructor();
    ConstructorInherited();
  }

  lemma ConstructorIconAsWritten()
    ensures GetLanguageIconAsWritten("constructor") == IconValue.PrototypeMember("constructor")
  {
    NormalizeConstructor();
    ConstructorInherited();
  }

  lemma ConstructorDisplayAsWritten()
    ensures GetLanguageDisplayNameAsWritten("constructor") == DisplayValue.PrototypeMember("constructor")
  {
    NormalizeConstructor();
    ConstructorInherited();
  }

  /** The corrected lookups treat `"constructor"` as the unknown language it is. */
  lemma ConstructorCorrected()
    ensures !HasLanguageIcon("constructor")
    ensures GetLanguageIcon("constructor") == VscCode
    ensures GetLanguageDisplayName("constructor") == "Constructor"
  {
    ConstructorNoIcon();
    ConstructorFallbackIcon();
    ConstructorDisplayName();
  }

  lemma ConstructorNoIcon()
    ensures !HasLanguageIcon("constructor")
  {
    NormalizeConstructor();
    ConstructorNotInTables();
  }

  lemma ConstructorFallbackIcon()
    ensures GetLanguageIcon("constructor") == VscCode
  {
    NormalizeConstructor();
    ConstructorNotInTables();
  }

  lemma ConstructorDisplayName()
    ensures GetLanguageDisplayName("constructor") == "Constructor"
  {
    NormalizeConstructor();
    ConstructorNotInTables();
    CapitalizeConstructor();
  }
}

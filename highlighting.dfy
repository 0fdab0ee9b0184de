/**
 * `highlightCode`: a fragment of code in some language becomes a pair of
 * HTML renderings, one per theme. The highlighting engine is a parameter: an
 * `Engine` maps code, a language and a theme to HTML, or to `None` where
 * `codeToHtml` throws. Where there is no engine (`createHighlighter` threw),
 * the engine fails or the language is not supported, both renderings are the
 * escaped plain-text fallback.
 */
module Highlighting {
  import opened Wrappers
  import opened Text
  import opened HighlightLanguages
  import opened HtmlEscape
  import opened ShikiCleanup
  import JsObject

  /** The two themes the highlighter is created with. */
  datatype Theme = MinLight | MinDark {
    function Name(): (r: string)
      ensures r == "min-light" || r == "min-dark"
    {
      match this
      case MinLight => "min-light"
      case MinDark => "min-dark"
    }
  }

  /** `{ light, dark }`. */
  datatype Highlighted = Highlighted(light: string, dark: string)

  /** `highlighter.codeToHtml(code, { lang, theme })`; `None` where it throws. */
  type Engine = (string, string, Theme) -> Option<string>

  const FallbackOpen := "<pre class=\"shiki\"><code>"
  const FallbackClose := "</code></pre>"

  /** The plain-text rendering: the escaped code inside the bare wrapper. */
  function FallbackHtml(code: string): (r: string)
    ensures r == FallbackOpen + EscapeHtml(code) + FallbackClose
    ensures UnescapeHtml(r[|FallbackOpen|..|r| - |FallbackClose|]) == code
  {
    var r := FallbackOpen + EscapeHtml(code) + FallbackClose;
    assert r[|FallbackOpen|..|r| - |FallbackClose|] == EscapeHtml(code);
    EscapeHtmlRoundTrip(code);
    r
  }

  function Fallback(code: string): Highlighted {
    Highlighted(FallbackHtml(code), FallbackHtml(code))
  }

  /**
   * `highlightCode(code, language)` given the highlighter that
   * `getHighlighter` yields (`None`: it threw).
   */
  function HighlightCode(highlighter: Option<Engine>, code: string, language: string): Highlighted
  {
    var lang := NormalizeLanguage(language);
    if !IsLanguageSupported(lang) then Fallback(code)
    else match highlighter
      case None => Fallback(code)
      case Some(engine) =>
        match (engine(code, lang, MinLight), engine(code, lang, MinDark))
        case (Some(light), Some(dark)) => Highlighted(CleanShikiHtml(light, false), CleanShikiHtml(dark, true))
        case _ => Fallback(code)
  }

  /**
   * An unsupported language never reaches the engine: whatever the
   * highlighter, both renderings are the same escaped fallback.
   */
  lemma UnsupportedLanguageFallback(h1: Option<Engine>, h2: Option<Engine>, code: string, language: string)
    requires !IsLanguageSupported(language)
    ensures HighlightCode(h1, code, language) == HighlightCode(h2, code, language)
    ensures HighlightCode(h1, code, language).light == HighlightCode(h1, code, language).dark
    ensures HighlightCode(h1, code, language).light == FallbackOpen + EscapeHtml(code) + FallbackClose
  {
    SupportedAfterNormalizing(language);
  }

  /** When the engine cannot be created, or throws for either theme, the result is the fallback pair. */
  lemma EngineFailureFallback(h: Option<Engine>, code: string, language: string)
    requires h.None? || h.value(code, NormalizeLanguage(language), MinLight).None?
                     || h.value(code, NormalizeLanguage(language), MinDark).None?
    ensures HighlightCode(h, code, language) == Highlighted(FallbackHtml(code), FallbackHtml(code))
  {
  }

  /**
   * With a working engine and a supported language, the light rendering is
   * the light engine output cleaned without the dark-mode rewrite, the dark
   * one the dark output cleaned with it, and no dim comment colour is left
   * in the dark rendering.
   */
  lemma HighlightedThemes(engine: Engine, code: string, language: string)
    requires IsLanguageSupported(language)
    requires engine(code, NormalizeLanguage(language), MinLight).Some?
    requires engine(code, NormalizeLanguage(language), MinDark).Some?
    ensures var lang := NormalizeLanguage(language);
      HighlightCode(Some(engine), code, language)
      == Highlighted(StripBackgrounds(engine(code, lang, MinLight).value),
                     ReplaceAll(CommentColor, StripBackgrounds(engine(code, lang, MinDark).value)))
    ensures NoDimComment(HighlightCode(Some(engine), code, language).dark)
  {
    var lang := NormalizeLanguage(language);
    SupportedAfterNormalizing(language);
    CleanShikiHtmlDark(engine(code, lang, MinDark).value);
  }

  /** The engine is asked for the canonical name: an alias and its target highlight alike. */
  lemma HighlightCodeAlias(h: Option<Engine>, code: string, language: string)
    requires Lower(language) in Aliases
    ensures HighlightCode(h, code, language) == HighlightCode(h, code, Aliases[Lower(language)])
  {
    NormalizeLanguageIdempotent(language);
    AliasTargetsFixed();
  }

  /**
   * `highlightCode` as written: `isLanguageSupported(normalizeLanguage(language))`
   * normalises a second time, outside the `try` block. For a name that
   * `Object.prototype` defines, the first normalisation yields an inherited
   * function, and calling `toLowerCase` on it throws.
   */
  function HighlightCodeAsWritten(highlighter: Option<Engine>, code: string, language: string): (r: Result<Highlighted>)
    ensures r.Failure? <==> Lower(language) in JsObject.ObjectPrototypeKeys && Lower(language) !in Aliases
  {
    match NormalizeLanguageAsWritten(language)
    case None => Failure("TypeError: lang.toLowerCase is not a function")
    case Some(_) => Success(HighlightCode(highlighter, code, language))
  }

  /** Outside `Object.prototype`'s names the corrected and the as-written versions agree. */
  lemma HighlightCodeAsWrittenAgrees(h: Option<Engine>, code: string, language: string)
    requires Lower(language) !in JsObject.ObjectPrototypeKeys
    ensures HighlightCodeAsWritten(h, code, language) == Success(HighlightCode(h, code, language))
  {
    NormalizeLanguageAsWrittenAgrees(language);
  }

  /** A fence tagged `constructor` makes the as-written `highlightCode` throw; the model falls back. */
  lemma HighlightCodeConstructor(h: Option<Engine>, code: string)
    ensures HighlightCodeAsWritten(h, code, "constructor").Failure?
    ensures HighlightCode(h, code, "constructor") == Fallback(code)
  {
    NormalizeLanguageAsWrittenConstructor();
    assert Lower("constructor") == Lower("Constructor");
  }
}

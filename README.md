# Blog content pipeline

This project models the content side of a bilingual (English and Brazilian
Portuguese) personal blog and proves properties of the model:

- **Syntax highlighting of MDX posts** (`lib/blog/syntax-highlighter.ts`).
  Fenced code blocks are extracted with a regular expression. Their language tag
  is normalised through an alias table and checked against the list of languages
  the highlighter loads. Each block is rendered in a light and a dark theme,
  the engine's HTML is cleaned, and both renderings sit in a file cache keyed
  by a hash of code, language and theme. Then each block that is not plain
  text is spliced back into the post as a `<CodeHighlighted …/>` marker,
  working from the last block to the first.
- **Table of contents** (`lib/blog/generate-toc.ts`). The `##` and `###`
  headings of a post are found with a multi-line regular expression, and each
  gets a slug made by lower-casing, decomposing, stripping diacritics and
  special characters, and collapsing white space and hyphens.
- **Post loading** (`lib/blog/get-posts.ts`):
  - all posts of a locale, newest first, with drafts only on request in development;
  - the post for a slug, searched in the posts directory then the drafts directory;
  - the sorted, duplicate-free list of all tags;
  - the posts carrying a tag.
- **Related posts** (`lib/blog/blog-utils.ts`). Other posts are scored by the
  number of shared tags, sorted stably by score and cut to a limit.
- **Language icons** (`lib/blog/language-icons.tsx`): the icon table, the
  display-name table and their fallbacks.
- **The blog listing page**:
  - `components/blog/blog-page-client.tsx` filters the posts by search term and
    selected tags, then sorts the result by date;
  - `components/blog/blog-filters.tsx` toggles a tag, clears the filters and
    says whether any filter is set.
- **The data types** of `lib/blog/types.ts`.

The code follows the source's own form:
- Regular expressions, string rewrites, lookups and sorts are functions over
  `seq`/`map`.
- The loops that build lists are methods with loop invariants, proved equal
  to those functions: the `exec` loops of `extractCodeBlocks` and
  `generateTOC`, the directory loops of `getAllPosts`, `getPostBySlug` and
  `getAllTags`, and the backward splicing loop of `highlightCodeBlocks`.
- The module state of the highlighter is a class with `modifies` clauses:
  the singleton `highlighterInstance` and the cache directory.
- `filteredPosts` sorts an array in place, and is modelled on an `array`.

JavaScript details the code depends on are modelled explicitly:
- `Array.prototype.sort` is stable.
- Object literals inherit the members of `Object.prototype`.
- `slice` accepts a negative end.
- `\s` matches the JavaScript white-space set.
- `^` and `.` follow the line-terminator rules of the `m` flag.
- The `[^>]*` parts of the `<pre …>` cleanup pattern backtrack greedily.

The modules are:
- `Text`: case mapping, `trim`, `includes`.
- `JsObject`: property lookup on an object literal.
- `StableSort`: the engine's comparator sort.
- `BlogTypes`: the data types.
- `HighlightLanguages`, `HtmlEscape`, `ShikiCleanup`, `JsonString`,
  `Highlighting`, `HighlightCache`, `CodeBlocks` and `SyntaxHighlighterState`:
  the highlighter.
- `Slugs` and `Toc`: the table of contents.
- `Posts`: post loading.
- `BlogUtils`: related posts.
- `LanguageIcons`: icons and display names.
- `BlogPageClient` and `BlogFilters`: the listing page.

Outside effects are parameters of the model:
- The file system is a value. It holds the two directories with their files
  in `readdir` order, and the cache, which is a map from key to content plus
  a predicate saying which writes succeed.
- The Shiki engine is a function from code, language and theme to HTML, or to
  nothing where it throws. What `createHighlighter` yields is a constructor
  argument of the highlighter state.
- The md5 digest is a function.
- Frontmatter parsing and reading-time estimation are functions.
- `process.env.NODE_ENV` is a string.
- The lower-casing and NFD decomposition of a non-ASCII character is a
  function `fold`.

The model keeps some details of the code that a reader might not expect:
- The cache key hashes `${code}-${language}-${theme}-v2` on the raw,
  un-normalised language, so `js` and `javascript` are cached apart
  (`HighlightCache.KeyInputRawLanguage`). Because both code and language may
  hold hyphens, two different (code, language) pairs can give the same text to
  hash (`HighlightCache.KeyInputCollision`: `x-git`/`commit` and
  `x`/`git-commit`, a supported language). Without hyphens in the language the
  text is unambiguous (`HighlightCache.KeyInputInjective`).
- In the heading pattern `^(#{2,3})\s+(.+)$`, the `\s+` also matches line
  breaks. A `##` followed by an empty line therefore takes the next line as its
  text. `Toc.MatchAtSpec` states the match exactly.
- `getPostBySlug` also accepts a file named `<slug>.<locale>` with no
  extension (`Posts.SlugFileNames`). It searches the drafts directory in every
  environment (`Posts.DraftsAlwaysSearched`), while `getAllPosts` reads drafts
  only in development and only when asked (`Posts.DraftGate`).
- The second dark-mode replacement `/color:#6b737c/gi` repeats the first,
  which is also case-insensitive, and never finds anything
  (`ShikiCleanup.CleanShikiHtmlDark`).
- When no filter is set, `filteredPosts` sorts the `initialPosts` array
  itself in place (`BlogPageClient.FilterAndSort`).

## Model

| member | source | states |
|---|---|---|
| Text.Lower | lib/blog/syntax-highlighter.ts:90 | each character is lower-cased on its own and the length is kept |
| Text.LowerIdempotent | lib/blog/syntax-highlighter.ts:90 | a lower-cased string has no upper-case letter and lower-casing it again changes nothing |
| Text.TrimStart | lib/blog/syntax-highlighter.ts:313 | `trimStart` keeps a suffix of the input that does not start with white space |
| Text.TrimStartDropsSpaces | lib/blog/syntax-highlighter.ts:313 | every character `trimStart` drops is white space |
| Text.TrimEnd | lib/blog/syntax-highlighter.ts:313 | `trimEnd` keeps a prefix of the input that does not end with white space |
| Text.TrimEndDropsSpaces | lib/blog/syntax-highlighter.ts:313 | every character `trimEnd` drops is white space |
| Text.TrimUnchanged | lib/blog/language-icons.tsx:119 | a string that neither starts nor ends with white space is its own `trim` |
| Text.ContainsAt | components/blog/blog-page-client.tsx:34-36 | `includes` holds exactly when the needle occurs at some position |
| JsObject.Get | lib/blog/language-icons.tsx:120 | `table[key]` is an own value exactly when the key is an own key; it is an inherited member exactly when the key is not own but names a member of `Object.prototype`; otherwise it is `undefined`; an own value is the table's entry and an inherited member is the one the key names |
| HighlightLanguages.AliasTargetsSupported | lib/blog/syntax-highlighter.ts:11-89 | every alias maps to a language in `SUPPORTED_LANGUAGES` |
| HighlightLanguages.AliasTargetsLowerCase | lib/blog/syntax-highlighter.ts:71-89 | every alias target is lower case |
| HighlightLanguages.AliasTargetsFixed | lib/blog/syntax-highlighter.ts:71-89 | an alias target that is itself an alias maps to itself (`dockerfile`) |
| HighlightLanguages.NormalizeLanguageShape | lib/blog/syntax-highlighter.ts:70-91 | the result is the alias target of the lower-cased name when there is one, otherwise the lower-cased name; it has no upper-case letter |
| HighlightLanguages.NormalizeLanguageCaseInsensitive | lib/blog/syntax-highlighter.ts:70-91 | normalising ignores letter case (`JS` gives `javascript`, `Py` gives `python`) |
| HighlightLanguages.NormalizeLanguageIdempotent | lib/blog/syntax-highlighter.ts:195-198 | normalising twice, as `highlightCode` does through `isLanguageSupported`, equals normalising once |
| HighlightLanguages.SupportedAfterNormalizing | lib/blog/syntax-highlighter.ts:96-99 | a normalised name is supported exactly when it is in the list, and exactly when the raw name is; every alias is supported |
| HighlightLanguages.NormalizeLanguageAsWrittenAgrees | lib/blog/syntax-highlighter.ts:70-91 | the as-written lookup `aliases[key] \|\| key` returns the modelled string on every name outside `Object.prototype` |
| HighlightLanguages.LoweredPrototypeKeys | lib/blog/syntax-highlighter.ts:90 | a lower-cased tag is a key of `Object.prototype` exactly when it is `constructor` or `__proto__`; the camel-case keys are unreachable |
| HighlightLanguages.NormalizeLanguageAsWrittenConstructor | lib/blog/syntax-highlighter.ts:90 | as written, `Constructor` normalises to an inherited function, not a string; corrected, it is the unsupported `constructor` |
| HighlightLanguages.ConstructorUnknown | lib/blog/syntax-highlighter.ts:11-89 | `constructor` is neither an alias nor a supported language, but `Object.prototype` has it |
| HtmlEscape.UnescapeEscapedChar | lib/blog/syntax-highlighter.ts:105-112 | decoding the escape of one character followed by any text gives back the character, then the decoding of the text |
| HtmlEscape.EscapeHtmlRoundTrip | lib/blog/syntax-highlighter.ts:104-113 | decoding the five entities undoes `escapeHtml` for every text |
| HtmlEscape.EscapeHtmlNoMarkup | lib/blog/syntax-highlighter.ts:104-113 | the escaped text holds no `<`, `>`, `"` or `'`, and every `&` in it opens one of the five entities |
| HtmlEscape.EscapeHtmlAmpAt | lib/blog/syntax-highlighter.ts:104-113 | an `&` at any position of the escaped text opens `&amp;`, `&lt;`, `&gt;`, `&quot;` or `&#039;` |
| HtmlEscape.EscapeCharAmp | lib/blog/syntax-highlighter.ts:106-112 | in the escape of one character an `&` only appears first, where an entity starts |
| HtmlEscape.EscapeHtmlPlain | lib/blog/syntax-highlighter.ts:104-113 | `escapeHtml` leaves text without special characters unchanged |
| ShikiCleanup.SpanExcluding | lib/blog/syntax-highlighter.ts:169 | a `[^…]*` run ends at the first excluded character or at the end, and holds no excluded character |
| ShikiCleanup.MatchLength | lib/blog/syntax-highlighter.ts:169-181 | a match is non-empty, fits in the text and is no shorter than its replacement; the comment-colour pattern matches exactly where `color:#6b737c` starts in any letter case, on 13 characters |
| ShikiCleanup.ReplaceAllNoMatch | lib/blog/syntax-highlighter.ts:169-181 | a global replace with no match anywhere returns its input |
| ShikiCleanup.ReplaceAllLength | lib/blog/syntax-highlighter.ts:169-181 | no rewrite lengthens the HTML; the comment-colour rewrite keeps its length |
| ShikiCleanup.CleanShikiHtmlLength | lib/blog/syntax-highlighter.ts:163-185 | light cleaning never lengthens the HTML; the dark variant has the light variant's length |
| ShikiCleanup.BrightCommentNoDim | lib/blog/syntax-highlighter.ts:180 | the replacement `color:#8b949e` starts no new match of the dim colour in front of text that has none |
| ShikiCleanup.CommentColorRemovesAll | lib/blog/syntax-highlighter.ts:180 | after the first dark-mode replace, no dim comment colour remains in any letter case |
| ShikiCleanup.CleanShikiHtmlDark | lib/blog/syntax-highlighter.ts:179-182 | the dark variant is the light variant with the comment colour replaced once, since the second replace finds nothing; it holds no dim comment colour |
| ShikiCleanup.CleanShikiHtmlUntouched | lib/blog/syntax-highlighter.ts:166-184 | HTML without any of the three background patterns passes the light cleaning unchanged, and the dark cleaning too when it has no dim comment colour |
| JsonString.ControlHex | lib/blog/syntax-highlighter.ts:317 | the four digits `00hh` that `JSON.stringify` writes for a control character decode to that character |
| JsonString.UnescapeControl | lib/blog/syntax-highlighter.ts:317 | the `\u00hh` escape of a control character decodes back to it |
| JsonString.UnescapeEscapedChar | lib/blog/syntax-highlighter.ts:317 | the escape of any one character decodes back to it, followed by the decoding of the rest |
| JsonString.Quote | lib/blog/syntax-highlighter.ts:317 | `JSON.stringify` of a string is the escaped string between double quotes |
| JsonString.EscapeRoundTrip | lib/blog/syntax-highlighter.ts:317 | decoding undoes the escaping for every string |
| JsonString.QuoteRoundTrip | lib/blog/syntax-highlighter.ts:317 | `JSON.parse(JSON.stringify(s))` is `s`, so the marker's `rawCode`, `lightHtml` and `darkHtml` carry the exact strings |
| JsonString.EscapeNoQuote | lib/blog/syntax-highlighter.ts:317 | every double quote inside the literal follows a backslash, so the literal ends at its closing quote |
| JsonString.EscapeQuoteAt | lib/blog/syntax-highlighter.ts:317 | a double quote at any position of an escaped text follows a backslash |
| Highlighting.Theme.Name | lib/blog/syntax-highlighter.ts:60 | a theme is `min-light` or `min-dark` |
| Highlighting.FallbackHtml | lib/blog/syntax-highlighter.ts:200-201 | the fallback is the escaped code in the bare `<pre class="shiki"><code>` wrapper, and the code can be read back from it |
| Highlighting.UnsupportedLanguageFallback | lib/blog/syntax-highlighter.ts:195-203 | an unsupported language never reaches the engine: whatever the highlighter, light and dark are the same escaped fallback |
| Highlighting.EngineFailureFallback | lib/blog/syntax-highlighter.ts:205-230 | when the highlighter cannot be created, or the engine throws for either theme, both renderings are the fallback |
| Highlighting.HighlightedThemes | lib/blog/syntax-highlighter.ts:205-222 | for a supported language the engine renders in both themes, asked under the normalised name: light is its light HTML with the backgrounds stripped, dark its dark HTML with the backgrounds stripped and the comment colour brightened, with no dim comment colour left |
| Highlighting.HighlightCodeAlias | lib/blog/syntax-highlighter.ts:195 | an alias and its target highlight alike |
| Highlighting.HighlightCodeAsWritten | lib/blog/syntax-highlighter.ts:191-203 | as written, `highlightCode` rejects exactly for the names `Object.prototype` lends to the alias table that are not aliases |
| Highlighting.HighlightCodeAsWrittenAgrees | lib/blog/syntax-highlighter.ts:191-231 | outside those names, the as-written and the corrected `highlightCode` agree |
| Highlighting.HighlightCodeConstructor | lib/blog/syntax-highlighter.ts:195-198 | a block tagged `constructor` makes the as-written `highlightCode` reject; the corrected one falls back to plain text |
| HighlightCache.Read | lib/blog/syntax-highlighter.ts:134-143 | reading a key yields its file's content exactly when the file exists, and `null` otherwise |
| HighlightCache.Write | lib/blog/syntax-highlighter.ts:148-157 | a successful write stores the content under the key; a failed write changes nothing |
| HighlightCache.Hit | lib/blog/syntax-highlighter.ts:244-249 | the cache answers exactly when both keys are present with non-empty content, and then with those two contents |
| HighlightCache.LookupHit | lib/blog/syntax-highlighter.ts:247-249 | a hit returns the cached pair, leaves the cache alone and does not depend on the highlighter |
| HighlightCache.LookupMiss | lib/blog/syntax-highlighter.ts:251-257 | a miss, partial hits included, returns `highlightCode`'s pair, stores light under the light key and dark under the dark key where writable, and changes no other entry |
| HighlightCache.SecondCallHits | lib/blog/syntax-highlighter.ts:236-258 | after a miss whose two writes succeed under distinct keys, the same call hits and returns the same pair |
| HighlightCache.FallbackNonEmpty | lib/blog/syntax-highlighter.ts:201 | the fallback rendering is never empty, so it can be a cache hit |
| HighlightCache.KeyInputThemesDiffer | lib/blog/syntax-highlighter.ts:118-122 | the light and the dark key inputs always differ |
| HighlightCache.KeyInputRawLanguage | lib/blog/syntax-highlighter.ts:241-242 | the key input uses the raw language, so `js` and `javascript` are cached apart although they normalise alike |
| HighlightCache.LastHyphenSeparator | lib/blog/syntax-highlighter.ts:120 | in `c-l` with `l` free of hyphens, the last hyphen is the separator |
| HighlightCache.KeyInputTheme | lib/blog/syntax-highlighter.ts:120 | equal key inputs have equal themes and equal `code-language` texts |
| HighlightCache.KeyInputInjective | lib/blog/syntax-highlighter.ts:118-122 | without hyphens in the language, equal key inputs mean equal code, language and theme |
| HighlightCache.KeyInputCollision | lib/blog/syntax-highlighter.ts:120 | `x-git` in `commit` and `x` in the supported `git-commit` share a key input |
| CodeBlocks.WordEndRun | lib/blog/syntax-highlighter.ts:270 | `(\w+)?` takes the whole run of word characters and stops before a non-word character |
| CodeBlocks.FindFence | lib/blog/syntax-highlighter.ts:270 | what the lazy `[\s\S]*?` stops at is a closing fence |
| CodeBlocks.FindFenceFirst | lib/blog/syntax-highlighter.ts:270 | the lazy part stops at the first closing fence |
| CodeBlocks.FenceAt | lib/blog/syntax-highlighter.ts:270-285 | a match at `p` starts at `p`, is the text's own slice there, and is an opening fence, a tag or nothing (`text`), a line break, code without a fence, and the closing fence |
| CodeBlocks.UntaggedIsText | lib/blog/syntax-highlighter.ts:282 | a fence without a tag gets the language `text` |
| CodeBlocks.NextBlock | lib/blog/syntax-highlighter.ts:279 | `exec` returns the match at the position it reports, at or after `lastIndex` |
| CodeBlocks.NextBlockLeftmost | lib/blog/syntax-highlighter.ts:279 | no match starts between `lastIndex` and the block `exec` finds, nor anywhere after it when it finds none |
| CodeBlocks.ExtractCodeBlocks | lib/blog/syntax-highlighter.ts:264-289 | the `exec` loop collects exactly the blocks of successive `exec` calls |
| CodeBlocks.BlocksFromLaid | lib/blog/syntax-highlighter.ts:264-289 | the extracted blocks lie in the text one after another, without overlapping |
| CodeBlocks.BlocksFromInPlace | lib/blog/syntax-highlighter.ts:264-289 | each extracted block is well formed and is the text's own slice at its start index |
| CodeBlocks.BlocksFromOrdered | lib/blog/syntax-highlighter.ts:279-286 | each block ends before the next one starts |
| CodeBlocks.BlocksFromComplete | lib/blog/syntax-highlighter.ts:279-286 | every position where the pattern matches lies inside an extracted block |
| CodeBlocks.NoFenceNoBlocks | lib/blog/syntax-highlighter.ts:264-289 | text without a fence gives no block |
| CodeBlocks.SpliceStep | lib/blog/syntax-highlighter.ts:319-322 | splicing one more block, from the back, gives the assembly from that block on |
| CodeBlocks.SpliceVerbatim | lib/blog/syntax-highlighter.ts:319-322 | replacing a block by its own text changes nothing |
| CodeBlocks.AssembleVerbatim | lib/blog/syntax-highlighter.ts:295-326 | when every replacement is the block itself, the assembly is the text |
| SyntaxHighlighterState.Replacements | lib/blog/syntax-highlighter.ts:309-317 | each block's replacement is its own text when plain, and its marker with the pair obtained for it otherwise |
| SyntaxHighlighterState.SweepStep | lib/blog/syntax-highlighter.ts:305-313 | one backward step of the loop extends the renderings and the cache of the blocks after it |
| SyntaxHighlighterState.AssembleLoopStep | lib/blog/syntax-highlighter.ts:305-323 | after block `j-1` is spliced in, or skipped when plain, the text is the assembly from block `j-1` on |
| SyntaxHighlighterState.SyntaxHighlighter.constructor | lib/blog/syntax-highlighter.ts:8 | no highlighter exists yet, and the cache holds the files on disk |
| SyntaxHighlighterState.SyntaxHighlighter.GetHighlighter | lib/blog/syntax-highlighter.ts:57-65 | the existing instance is returned and kept; without one, the created one is stored and returned |
| SyntaxHighlighterState.SyntaxHighlighter.HighlightCode | lib/blog/syntax-highlighter.ts:191-231 | the pair is `highlightCode`'s for the highlighter the state yields; an unsupported language does not create the highlighter |
| SyntaxHighlighterState.SyntaxHighlighter.HighlightCodeCached | lib/blog/syntax-highlighter.ts:236-258 | the pair and the new cache are those of the cache lookup (hit, or miss and two writes) |
| SyntaxHighlighterState.SyntaxHighlighter.HighlightBlockAt | lib/blog/syntax-highlighter.ts:306-322 | one loop iteration: block `j-1` is replaced by its marker unless plain, and the sweep's renderings and cache extend by that block |
| SyntaxHighlighterState.SyntaxHighlighter.HighlightCodeBlocks | lib/blog/syntax-highlighter.ts:295-326 | the result is the text with every extracted block replaced by its replacement, read front to back; the cache is the one the backward sweep leaves |
| SyntaxHighlighterState.NoBlocksUnchanged | lib/blog/syntax-highlighter.ts:298-300 | when the content has no blocks, assembling it from its (empty) block list and replacements gives back the content |
| SyntaxHighlighterState.PlainBlocksUnchanged | lib/blog/syntax-highlighter.ts:309 | when every block is `text` or `plaintext`, the content comes back unchanged |
| Slugs.StripMarksChars | lib/blog/generate-toc.ts:7 | after removing marks, no mark is left, and every character is from the input |
| Slugs.KeepAllowedChars | lib/blog/generate-toc.ts:8 | the special-character filter leaves only allowed characters of the input |
| Slugs.CollapseSpacesAt | lib/blog/generate-toc.ts:9 | every character after the space collapse is a hyphen or a character of the input, and none is white space |
| Slugs.CollapseSpacesChars | lib/blog/generate-toc.ts:9 | after the collapse there is no white space, and every other character is a hyphen or from the input |
| Slugs.CollapseHyphensChars | lib/blog/generate-toc.ts:10 | after collapsing hyphens, every character other than a hyphen is from the input |
| Slugs.CollapseHyphensNoDouble | lib/blog/generate-toc.ts:10 | after collapsing, no two hyphens are adjacent |
| Slugs.SlugifyTrimsNothing | lib/blog/generate-toc.ts:3-12 | every character before the final `trim` is a word character or a hyphen, so `trim` removes nothing |
| Slugs.SlugifyShape | lib/blog/generate-toc.ts:3-12 | a slug holds only word characters and hyphens, no white space, no two adjacent hyphens, and besides hyphens only characters of the decomposed text |
| Slugs.SlugifyAscii | lib/blog/generate-toc.ts:3-12 | the slug of ASCII text is made of `[a-z0-9_-]` only |
| Slugs.SlugifyIdempotent | lib/blog/generate-toc.ts:3-12 | slugifying a slug gives it back, when decomposition yields no upper-case letter |
| Slugs.SlugifyTrailingSpace | lib/blog/generate-toc.ts:9-11 | a text ending in ASCII white space gives a slug ending in `-`: the final `trim` does not remove hyphens |
| Slugs.SlugifyDiacritics | lib/blog/generate-toc.ts:4-7 | `Café com Código` slugifies to `cafe-com-codigo` |
| Slugs.SlugifyThreeWords | lib/blog/generate-toc.ts:3-12 | three ASCII words separated by single spaces give the lower-cased words joined by hyphens |
| Slugs.SlugifyStripsAccent | lib/blog/generate-toc.ts:5-7 | a letter whose decomposition is an ASCII letter plus combining marks slugifies as that letter |
| Toc.HashRun | lib/blog/generate-toc.ts:15 | the run of `#` stops at the end or before a character that is not `#` |
| Toc.SpaceRun | lib/blog/generate-toc.ts:15 | the run of white space stops at the end or before a character that is not white space |
| Toc.LineEnd | lib/blog/generate-toc.ts:15 | the end of a line is the next line terminator, or the end of the text |
| Toc.LineEndWithin | lib/blog/generate-toc.ts:15 | `.+` crosses no line terminator |
| Toc.KeptSpacesLargest | lib/blog/generate-toc.ts:15 | `\s+` gives back only as many characters as `.+` needs: the text cannot start any later |
| Toc.MatchAtIff | lib/blog/generate-toc.ts:15 | a heading matches at `p` exactly when `p` starts a line, two or three `#` are followed by white space, and some position in that white space run can start the text |
| Toc.MatchAtShape | lib/blog/generate-toc.ts:15 | a match consists of its `#` run, white space, and text that runs to the end of its line |
| Toc.MatchAtSpec | lib/blog/generate-toc.ts:15 | a heading matches at `p` exactly under the condition above, and then its level is the number of `#`, its text holds no line terminator and ends at the end of its line |
| Toc.NoHeading | lib/blog/generate-toc.ts:15 | one `#`, four or more, or no white space after them: no match |
| Toc.ExecFound | lib/blog/generate-toc.ts:19 | what `exec` reports is the match at the position it reports |
| Toc.ExecSkips | lib/blog/generate-toc.ts:19 | no match starts at a position `exec` passed over |
| Toc.ExecLeftmost | lib/blog/generate-toc.ts:19 | `exec` finds the leftmost match at or after `lastIndex`, and reports none only when there is none |
| Toc.Heading | lib/blog/generate-toc.ts:20-24 | a heading's level is the number of `#`, its text the captured text, its id the slug of that text |
| Toc.MatchesStep | lib/blog/generate-toc.ts:19 | a successful `exec` yields its match, then the matches after its end |
| Toc.HeadingsSnoc | lib/blog/generate-toc.ts:20-24 | pushing a match's heading appends exactly that heading |
| Toc.GenerateToc | lib/blog/generate-toc.ts:14-28 | the loop returns one heading per match of successive `exec` calls, in order |
| Toc.MatchesOrdered | lib/blog/generate-toc.ts:19-25 | the matches are those found at their own starts, and each ends before the next starts |
| Toc.MatchesComplete | lib/blog/generate-toc.ts:19-25 | every position where a heading matches lies inside a collected match |
| Toc.TocHeadings | lib/blog/generate-toc.ts:14-28 | each heading comes from a line start, has level 2 or 3, and its id is the slug of its text |
| BlogTypes.Locale.Tag | lib/blog/types.ts:7 | a locale is `en` or `pt-BR` |
| BlogTypes.BuildPost | lib/blog/get-posts.ts:41-48 | a post copies every frontmatter field and the body; the reading time is the frontmatter's when present and non-zero, and the computed one otherwise |
| StableSort.SortDescNonIncreasing | lib/blog/get-posts.ts:53-55 | keys never increase along the sort's result |
| StableSort.SortDesc | lib/blog/get-posts.ts:53-55 | the sort's result is a permutation of its input |
| StableSort.SortDescStable | lib/blog/get-posts.ts:53-55 | among the elements with any one key, the sort keeps their input order |
| StableSort.SortDescOfSorted | lib/blog/get-posts.ts:53-55 | a list already in order is returned unchanged |
| StableSort.InsertWithKey | lib/blog/get-posts.ts:53-55 | insertion puts the new element first among those of its key |
| StableSort.SortStrings | lib/blog/get-posts.ts:102 | `sort()` on strings returns a permutation of its input |
| StableSort.SortStringsAscending | lib/blog/get-posts.ts:102 | `sort()` on distinct strings gives strictly ascending code-point order |
| StableSort.StrLessTotal | lib/blog/get-posts.ts:102 | two different strings are ordered one way or the other |
| StableSort.StrLessTransitive | lib/blog/get-posts.ts:102 | code-point order is transitive |
| Posts.PostFilesMembers | lib/blog/get-posts.ts:31-33 | exactly the files ending in `.<locale>.mdx` or `.<locale>.md` are read |
| Posts.LoadPost | lib/blog/get-posts.ts:37-48 | a post is the parsed body and every frontmatter field (`title`, `description`, `author`, `image`, `slug`, `date`, `tags`, `locale`), with the frontmatter's reading time when it is set and non-zero and the estimate otherwise |
| Posts.LoadAllPosts | lib/blog/get-posts.ts:35-49 | each file read yields exactly its own post, in file order |
| Posts.PushPosts | lib/blog/get-posts.ts:35-49 | the inner loop appends the posts of the files, in order |
| Posts.GetAllPosts | lib/blog/get-posts.ts:12-56 | the loops return the collected posts of the scanned directories, sorted stably newest first |
| Posts.AllPostsNewestFirst | lib/blog/get-posts.ts:53-55 | dates never increase along `getAllPosts` |
| Posts.DraftGate | lib/blog/get-posts.ts:16-28 | the drafts are read only when asked for in development; a missing directory contributes nothing |
| Posts.StripExtension | lib/blog/get-posts.ts:71 | a final `.mdx`, else a final `.md`, is removed, and any other name is kept |
| Posts.StripExtensionOf | lib/blog/get-posts.ts:71 | both extensions strip to the same stem |
| Posts.FindFile | lib/blog/get-posts.ts:70-73 | a file found is one of the files with the target name; none is found only when no file has it |
| Posts.FindFileFirst | lib/blog/get-posts.ts:70-73 | `find` returns the first such file |
| Posts.GetPostBySlug | lib/blog/get-posts.ts:58-92 | the loop returns the post of the first directory holding the file, posts before drafts, or `null` |
| Posts.PostsBeforeDrafts | lib/blog/get-posts.ts:62-88 | a file in the posts directory wins over a draft of the same name |
| Posts.DraftsAlwaysSearched | lib/blog/get-posts.ts:62-89 | in every environment, the drafts directory is searched once the posts directory has no such file |
| Posts.NotFound | lib/blog/get-posts.ts:91 | `null` exactly when neither existing directory holds the file |
| Posts.SlugFileNames | lib/blog/get-posts.ts:71-72 | `<slug>.<locale>.mdx`, `.md` and the bare `<slug>.<locale>` all reach the post |
| Posts.AddPostTags | lib/blog/get-posts.ts:99 | the loop adds each tag of one post that is not yet in the set, in order |
| Posts.TagSetStep | lib/blog/get-posts.ts:98-100 | visiting one more post adds its tags to the set |
| Posts.GetAllTags | lib/blog/get-posts.ts:94-103 | the loops build the set of `getAllTags` and return it sorted |
| Posts.AddTagsMembers | lib/blog/get-posts.ts:96-100 | adding tags keeps the set duplicate-free and holds the old tags and the new ones |
| Posts.TagSetMembers | lib/blog/get-posts.ts:96-100 | the set holds each tag of each post, once |
| Posts.AllTagsSpec | lib/blog/get-posts.ts:94-103 | `getAllTags` is strictly ascending and holds exactly the tags of the posts and drafts `getAllPosts(locale, true)` returns |
| Posts.GetPostsByTag | lib/blog/get-posts.ts:105-111 | the result is the non-draft posts filtered by the tag |
| Posts.WithTagMembers | lib/blog/get-posts.ts:110 | the filter keeps exactly the posts carrying the tag |
| Posts.WithTagKeepsOrder | lib/blog/get-posts.ts:110 | the filter keeps the newest-first order |
| Posts.PostsByTagSpec | lib/blog/get-posts.ts:105-111 | `getPostsByTag` returns newest first exactly the posts of the posts directory that carry the tag |
| BlogUtils.Shared | lib/blog/blog-utils.ts:12 | the shared tags are tags of the post that the current post also has |
| BlogUtils.SharedNonEmpty | lib/blog/blog-utils.ts:12-14 | a score is positive exactly when a tag is shared |
| BlogUtils.SliceTo | lib/blog/blog-utils.ts:16 | `slice(0, end)` keeps the first `end` elements, at most all; a negative end counts from the back and stops at the front |
| BlogUtils.CandidatesMembers | lib/blog/blog-utils.ts:8-14 | a scored post is a candidate exactly when it is another post of the list, with its true, positive score |
| BlogUtils.RelatedAreCandidates | lib/blog/blog-utils.ts:3-17 | every related post is another input post, with its true score, at least 1 |
| BlogUtils.RelatedLength | lib/blog/blog-utils.ts:16 | at most `limit` results, exactly `limit` when there are that many candidates, and every candidate when there are no more |
| BlogUtils.RelatedNonIncreasing | lib/blog/blog-utils.ts:15 | scores never increase along the result |
| BlogUtils.RelatedIsSortedPrefix | lib/blog/blog-utils.ts:15-16 | the result is a prefix of the stable sort of the candidates |
| BlogUtils.RelatedStable | lib/blog/blog-utils.ts:15-16 | the results with one score are the first candidates with that score, in the order of `allPosts` |
| LanguageIcons.ToMapKeys | lib/blog/language-icons.tsx:41-104 | the object's keys are exactly the entries' keys |
| LanguageIcons.ToMapValues | lib/blog/language-icons.tsx:41-104 | every value of the object is the value of one of the entries |
| LanguageIcons.Capitalize | lib/blog/language-icons.tsx:160-163 | the first character is upper-cased and the rest lower-cased, keeping the length |
| LanguageIcons.NoEntryIsFallback | lib/blog/language-icons.tsx:41-104 | no table entry is the fallback icon |
| LanguageIcons.IconFallbackIffNoIcon | lib/blog/language-icons.tsx:118-121 | `getLanguageIcon` gives `VscCode` exactly when `hasLanguageIcon` is false |
| LanguageIcons.HasIconIffSupported | lib/blog/language-icons.tsx:172-180 | `hasLanguageIcon` holds exactly for the names in `SUPPORTED_LANGUAGES`, after normalising |
| LanguageIcons.LookupsNormalize | lib/blog/language-icons.tsx:118-175 | all three lookups depend only on the normalised name, except the fallback display name |
| LanguageIcons.DisplayFallback | lib/blog/language-icons.tsx:160-163 | a name not in the display table is capitalised from the argument itself, untrimmed |
| LanguageIcons.NormalizePlain | lib/blog/language-icons.tsx:157 | a lower-case name without surrounding white space normalises to itself |
| LanguageIcons.DisplayNamePython | lib/blog/language-icons.tsx:138 | `getLanguageDisplayName("py")` is `Python` |
| LanguageIcons.DisplayNameJavaScript | lib/blog/language-icons.tsx:139 | `getLanguageDisplayName("js")` is `JavaScript` |
| LanguageIcons.DisplayNameRust | lib/blog/language-icons.tsx:160-163 | `rust` is not in the display table, and its capitalised fallback is `Rust` |
| LanguageIcons.DisplayNamesNonEmpty | lib/blog/language-icons.tsx:137-155 | every display name is non-empty, so `\|\|` never falls through an own entry |
| LanguageIcons.AsWrittenAgrees | lib/blog/language-icons.tsx:118-175 | outside the names of `Object.prototype`, the three lookups as written agree with the corrected ones |
| LanguageIcons.ConstructorAsWritten | lib/blog/language-icons.tsx:118-175 | as written, `hasLanguageIcon("constructor")` holds although `constructor` is not supported, and the icon and display name are the inherited `Object` function |
| LanguageIcons.ConstructorCorrected | lib/blog/language-icons.tsx:118-175 | corrected, `constructor` has no icon, gets the fallback icon and the display name `Constructor` |
| BlogPageClient.FilterSearchMembers | components/blog/blog-page-client.tsx:32-37 | the search filter keeps exactly the posts whose lower-cased title, description or some tag contains the term |
| BlogPageClient.FilterTagsMembers | components/blog/blog-page-client.tsx:41-45 | the tag filter keeps exactly the posts carrying every selected tag |
| BlogPageClient.FilterAndSort | components/blog/blog-page-client.tsx:26-55 | the array returned holds the filtered posts sorted by date; with no filter it is `initialPosts` itself, sorted in place, and otherwise a new array, with `initialPosts` left as it was |
| BlogPageClient.ListedIff | components/blog/blog-page-client.tsx:26-55 | a post is listed exactly when it is an initial post, matches the lower-cased search term when there is one, and carries every selected tag |
| BlogPageClient.NoFilterKeepsAll | components/blog/blog-page-client.tsx:26-55 | with no search term and no tag, every initial post is listed as often as it occurs |
| BlogPageClient.NoFiltersListsAll | components/blog/blog-filters.tsx:43 | when `hasFilters` is false, the listing holds every initial post |
| BlogPageClient.ListedOrder | components/blog/blog-page-client.tsx:48-52 | `newest` lists dates that never increase, `oldest` dates that never decrease |
| BlogPageClient.ListedStable | components/blog/blog-page-client.tsx:48-52 | posts with the same date keep their order from `initialPosts` |
| BlogFilters.RemoveMembers | components/blog/blog-filters.tsx:32 | removing a tag drops every occurrence of it and keeps every other tag |
| BlogFilters.RemoveConcat | components/blog/blog-filters.tsx:32 | removal distributes over concatenation, so the remaining tags keep their order |
| BlogFilters.RemoveAbsent | components/blog/blog-filters.tsx:32 | removing an absent tag changes nothing |
| BlogFilters.ToggleSpec | components/blog/blog-filters.tsx:30-36 | toggling a selected tag drops all its occurrences and keeps the other tags; toggling an unselected tag appends it |
| BlogFilters.ToggleTwice | components/blog/blog-filters.tsx:30-36 | toggling an unselected tag twice restores the selection |
| BlogFilters.ToggleSelectedTwice | components/blog/blog-filters.tsx:30-36 | toggling a selected tag twice moves it, once, to the end |
| BlogFilters.ClearFiltersSpec | components/blog/blog-filters.tsx:38-43 | after `clearFilters` no filter is set, and `hasFilters` holds exactly when a tag or a search term is set |

## Left out

- `getHighlightedCode` (`lib/blog/syntax-highlighter.ts:332-337`) only returns `highlightCodeCached(code, language)`. It is not a member of its own, and `SyntaxHighlighterState.SyntaxHighlighter.HighlightCodeCached` models it.
- `formatDate` (`lib/blog/blog-utils.ts:19-27`) formats through `Intl.DateTimeFormat`, whose locale data is outside the model.
- `getCacheDir` and the paths of the cache files: the cache is a map from key to content.
- Text.Lower: models `toLowerCase` on ASCII letters only. The source lower-cases all of Unicode.
- Text.Upper: likewise upper-cases ASCII letters only.
- Slugs.Slugify: reaches the non-ASCII part of `toLowerCase().normalize("NFD")` only through the `fold` parameter.
  - This works character by character, because NFD composition across characters is not modelled.
  - Slugs.SlugifyIdempotent adds a requirement on `fold`: it yields no upper-case ASCII letter.
- Strings are sequences of code points, not of UTF-16 code units. `sort()`, `slice`, `charAt` and the regex classes agree on these except for characters outside the Basic Multilingual Plane.
- SyntaxHighlighterState.SyntaxHighlighter.HighlightCode, SyntaxHighlighterState.SyntaxHighlighter.HighlightCodeCached, SyntaxHighlighterState.SyntaxHighlighter.HighlightBlockAt, SyntaxHighlighterState.SyntaxHighlighter.HighlightCodeBlocks, HighlightCache.Lookup: these follow the corrected `highlightCode` (Highlighting.HighlightCode), not the one as written. For a tag that lower-cases to `constructor` or `__proto__` the source throws at `lib/blog/syntax-highlighter.ts:195-198`, outside the `try`. There `highlightCode` rejects, `highlightCodeCached` rejects before it writes to the cache, and the whole `highlightCodeBlocks` rejects. The model instead returns the escaped plain-text fallback, caches it and completes the document. Highlighting.HighlightCodeAsWritten models the throwing path (see "## Findings").
- StableSort.SortStringsAscending: the order is therefore code-point order, which differs from UTF-16 order for such characters.
- Posts.LoadPost: takes the date as an integer, the value `new Date(date).getTime()` gives. Date parsing and invalid dates (`NaN`, which makes the comparator inconsistent) are not modelled.
- The file system is a value:
  - `existsSync` is whether a directory is present;
  - `readdirSync` is the file list, in the order given;
  - `readFileSync` is the file's content.
- Read errors other than a missing directory are not modelled.
- `parseFrontmatter` and `calculateReadingTime` are parameters (`Posts.Env`). `lib/blog/parse-frontmatter` and `lib/blog/reading-time` are not part of this model.
- The Shiki engine, `createHighlighter` and the md5 digest are parameters. The theme files and grammar data they use are outside the model, and so is whether md5 collides.
- SyntaxHighlighterState.SyntaxHighlighter.GetHighlighter: `createHighlighter` is modelled as always yielding the same result. Its result is fixed when the state is built, and a rejected creation is `None`.
- Asynchrony: the model runs operations one at a time. Concurrent `highlightCodeCached` calls racing on the singleton or the cache are not modelled.
- `console.warn` and `console.error` have no effect on results and are left out.
- React state, `useMemo` dependency tracking, the rendering of the components, and the UI toggles (`isTagsOpen`) are left out. The parent's callbacks are modelled as receiving the values `BlogFilters.ToggleTag` and `BlogFilters.ClearFilters` return.
- The `BundledLanguage` casts are type-only and have no effect at run time.

## Findings

| source | as written | input that shows it | evidently intended | confidence | as-written member | corrected member |
|---|---|---|---|---|---|---|
| lib/blog/syntax-highlighter.ts:90 | `aliases[lang.toLowerCase()] \|\| lang.toLowerCase()` also finds the members `Object.prototype` lends to the literal. The next `normalizeLanguage` call, in `isLanguageSupported` at line 97, calls `toLowerCase` on a function (or, for `__proto__`, an object) and throws outside the `try`, so `highlightCode` and the whole `highlightCodeBlocks` reject | a code block fenced as `` ```constructor `` (or `Constructor`, `__proto__`) | an unknown language falls back to escaped plain text | not executed | Highlighting.HighlightCodeAsWritten, Highlighting.HighlightCodeConstructor | Highlighting.HighlightCode, Highlighting.UnsupportedLanguageFallback |
| lib/blog/language-icons.tsx:174 | `normalizedLang in LANGUAGE_ICONS` is true for names inherited from `Object.prototype` | `hasLanguageIcon("constructor")` is true, while `SUPPORTED_LANGUAGES` does not list `constructor` | `hasLanguageIcon` holds exactly for the table's own keys | not executed | LanguageIcons.HasLanguageIconAsWritten, LanguageIcons.ConstructorAsWritten | LanguageIcons.HasIconIffSupported, LanguageIcons.ConstructorCorrected |
| lib/blog/language-icons.tsx:120 | `LANGUAGE_ICONS[normalizedLang] \|\| VscCode` returns the inherited `Object` function, which is truthy | `getLanguageIcon("constructor")` | the fallback icon `VscCode` | not executed | LanguageIcons.GetLanguageIconAsWritten, LanguageIcons.ConstructorAsWritten | LanguageIcons.IconFallbackIffNoIcon, LanguageIcons.ConstructorCorrected |
| lib/blog/language-icons.tsx:161 | `displayNames[normalized] \|\| …` returns the inherited `Object` function instead of a string | `getLanguageDisplayName("constructor")` | the capitalised fallback `Constructor` | not executed | LanguageIcons.GetLanguageDisplayNameAsWritten, LanguageIcons.ConstructorAsWritten | LanguageIcons.DisplayFallback, LanguageIcons.ConstructorCorrected |

/**
 * The stateful part of the syntax highlighter: the module-level
 * `highlighterInstance` singleton and the cache directory, and the
 * operations that read and update them: `getHighlighter`, `highlightCode`,
 * `highlightCodeCached` and `highlightCodeBlocks`.
 */
module SyntaxHighlighterState {
  import opened Wrappers
  import opened Text
  import opened HighlightLanguages
  import opened ShikiCleanup
  import opened Highlighting
  import opened HighlightCache
  import opened CodeBlocks

  /** What `highlightCodeCached` does for one block: the pair it returns and the cache after it. */
  function Step(hash: string -> string, writable: string -> bool, highlighter: Option<Engine>,
                cache: map<string, string>, b: CodeBlock): (Highlighted, map<string, string>)
  {
    if IsPlain(b) then (Highlighted("", ""), cache)
    else Lookup(hash, writable, highlighter, cache, Trim(b.code), b.language)
  }

  /**
   * The pairs obtained for `blocks` and the final cache, when the blocks are
   * processed from the last to the first.
   */
  function Sweep(hash: string -> string, writable: string -> bool, highlighter: Option<Engine>,
                 cache: map<string, string>, blocks: seq<CodeBlock>): (r: (seq<Highlighted>, map<string, string>))
    ensures |r.0| == |blocks|
    decreases |blocks|
  {
    if blocks == [] then ([], cache)
    else
      var (later, mid) := Sweep(hash, writable, highlighter, cache, blocks[1..]);
      var (h, after) := Step(hash, writable, highlighter, mid, blocks[0]);
      ([h] + later, after)
  }

  /** The replacement of each block given the pair obtained for it. */
  function Replacements(blocks: seq<CodeBlock>, pairs: seq<Highlighted>): (r: seq<string>)
    requires |pairs| == |blocks|
    ensures |r| == |blocks|
    ensures forall i :: 0 <= i < |blocks| ==> r[i] == BlockReplacement(blocks[i], pairs[i])
  {
    seq(|blocks|, i requires 0 <= i < |blocks| => BlockReplacement(blocks[i], pairs[i]))
  }

  lemma ReplacementsCons(b: CodeBlock, blocks: seq<CodeBlock>, h: Highlighted, pairs: seq<Highlighted>)
    requires |pairs| == |blocks|
    ensures Replacements([b] + blocks, [h] + pairs) == [BlockReplacement(b, h)] + Replacements(blocks, pairs)
  {
    var l := Replacements([b] + blocks, [h] + pairs);
    var r := [BlockReplacement(b, h)] + Replacements(blocks, pairs);
    forall i | 0 <= i < |l| ensures l[i] == r[i] {
      if i > 0 {
        assert ([b] + blocks)[i] == blocks[i - 1] && ([h] + pairs)[i] == pairs[i - 1];
      }
    }
  }

  /** Before the backward loop: no block processed, the text as it is. */
  lemma AssembleLoopInit(s: string, blocks: seq<CodeBlock>)
    requires blocks != [] && Laid(s, blocks, 0)
    ensures Laid(s, blocks[|blocks|..], Bound(blocks, |blocks|)) && Bound(blocks, |blocks|) <= |s|
    ensures s == s[..Bound(blocks, |blocks|)]
      + Assemble(s, blocks[|blocks|..], Replacements(blocks[|blocks|..], []), Bound(blocks, |blocks|))
  {
    var n := |blocks|;
    LaidSuffix(s, blocks, 0, n - 1);
    var bound := Bound(blocks, n);
    assert bound == End(blocks[n - 1]) <= |s|;
    assert blocks[n..] == [];
    assert Replacements([], []) == [];
    assert Assemble(s, [], [], bound) == s[bound..];
    assert s == s[..bound] + s[bound..];
  }

  /** One step of the backward sweep: the block before the ones already processed. */
  lemma SweepStep(hash: string -> string, writable: string -> bool, highlighter: Option<Engine>,
                  cache0: map<string, string>, blocks: seq<CodeBlock>, j: nat,
                  pairs: seq<Highlighted>, mid: map<string, string>, h: Highlighted, after: map<string, string>)
    requires 0 < j <= |blocks|
    requires (pairs, mid) == Sweep(hash, writable, highlighter, cache0, blocks[j..])
    requires (h, after) == Step(hash, writable, highlighter, mid, blocks[j - 1])
    ensures ([h] + pairs, after) == Sweep(hash, writable, highlighter, cache0, blocks[j - 1..])
  {
    assert blocks[j - 1..][1..] == blocks[j..];
  }

  /**
   * One step of the backward splicing: after block `j - 1` is spliced in (or,
   * when it is plain, left alone), the text is the assembly from block `j - 1` on.
   */
  lemma AssembleLoopStep(s: string, blocks: seq<CodeBlock>, j: nat, pairs: seq<Highlighted>,
                         processed: string, h: Highlighted)
    requires 0 < j <= |blocks| && |pairs| == |blocks| - j && Laid(s, blocks, 0)
    requires Laid(s, blocks[j..], Bound(blocks, j)) && Bound(blocks, j) <= |s|
    requires processed == s[..Bound(blocks, j)] + Assemble(s, blocks[j..], Replacements(blocks[j..], pairs), Bound(blocks, j))
    ensures End(blocks[j - 1]) <= |processed|
    ensures Laid(s, blocks[j - 1..], Bound(blocks, j - 1)) && Bound(blocks, j - 1) <= |s|
    ensures var b := blocks[j - 1];
      (if IsPlain(b) then processed
       else processed[..b.startIndex] + Placeholder(b.language, h, Trim(b.code)) + processed[End(b)..])
      == s[..Bound(blocks, j - 1)]
         + Assemble(s, blocks[j - 1..], Replacements(blocks[j - 1..], [h] + pairs), Bound(blocks, j - 1))
  {
    var b := blocks[j - 1];
    assert blocks[j - 1..] == [b] + blocks[j..];
    ReplacementsCons(b, blocks[j..], h, pairs);
    SpliceStep(s, blocks, Replacements(blocks[j..], pairs), j, BlockReplacement(b, h));
    LaidSuffix(s, blocks, 0, j - 1);
    if IsPlain(b) {
      SpliceVerbatim(s, processed, b, Bound(blocks, j));
    }
  }

  class SyntaxHighlighter {
    /** `highlighterInstance`: `None` until a highlighter has been created. */
    var instance: Option<Engine>
    /** The cache directory: `<key>.html` holds `cache[key]`. */
    var cache: map<string, string>
    /** What `createHighlighter` resolves to; `None` where it rejects. */
    const created: Option<Engine>
    /** The md5 hex digest. */
    const hash: string -> string
    /** Whether `writeToCache` can write the file of a key. */
    const writable: string -> bool

    constructor(created: Option<Engine>, hash: string -> string, writable: string -> bool, files: map<string, string>)
      ensures instance == None && cache == files
      ensures this.created == created && this.hash == hash && this.writable == writable
    {
      instance := None;
      cache := files;
      this.created := created;
      this.hash := hash;
      this.writable := writable;
    }

    /** The highlighter `getHighlighter` yields in the current state. */
    function Current(): Option<Engine>
      reads this
    {
      if instance.Some? then instance else created
    }

    /** `getHighlighter()`: the existing instance, or a new one, which is kept. */
    method GetHighlighter() returns (h: Option<Engine>)
      modifies this`instance
      ensures h == old(Current())
      ensures old(instance).Some? ==> instance == old(instance)
      ensures old(instance).None? ==> instance == created
      ensures Current() == old(Current())
    {
      if instance.None? {
        instance := created;
      }
      h := instance;
    }

    /** `highlightCode(code, language)`. */
    method HighlightCode(code: string, language: string) returns (h: Highlighted)
      modifies this`instance
      ensures h == Highlighting.HighlightCode(old(Current()), code, language)
      ensures !IsLanguageSupported(NormalizeLanguage(language)) ==> instance == old(instance)
      ensures Current() == old(Current())
    {
      var lang := NormalizeLanguage(language);
      if !IsLanguageSupported(lang) {
        return Fallback(code);
      }
      var highlighter := GetHighlighter();
      if highlighter.None? {
        return Fallback(code);
      }
      var light := highlighter.value(code, lang, MinLight);
      if light.None? {
        return Fallback(code);
      }
      var dark := highlighter.value(code, lang, MinDark);
      if dark.None? {
        return Fallback(code);
      }
      h := Highlighted(CleanShikiHtml(light.value, false), CleanShikiHtml(dark.value, true));
    }

    /** `highlightCodeCached(code, language)`. */
    method HighlightCodeCached(code: string, language: string) returns (h: Highlighted)
      modifies this`instance, this`cache
      ensures (h, cache) == Lookup(hash, writable, old(Current()), old(cache), code, language)
      ensures Current() == old(Current())
    {
      var lightKey := Key(hash, code, language, MinLight);
      var darkKey := Key(hash, code, language, MinDark);
      var cachedLight := Read(cache, lightKey);
      var cachedDark := Read(cache, darkKey);
      if cachedLight.Some? && cachedLight.value != "" && cachedDark.Some? && cachedDark.value != "" {
        return Highlighted(cachedLight.value, cachedDark.value);
      }
      h := HighlightCode(code, language);
      cache := Write(cache, lightKey, h.light, writable(lightKey));
      cache := Write(cache, darkKey, h.dark, writable(darkKey));
    }

    /**
     * One iteration of `highlightCodeBlocks`' loop: block `j - 1` is replaced
     * by its placeholder, unless it is plain.
     */
    method HighlightBlockAt(s: string, blocks: seq<CodeBlock>, j: nat, processed: string,
                            ghost pairs: seq<Highlighted>, ghost engine: Option<Engine>,
                            ghost cache0: map<string, string>)
      returns (next: string, ghost pairs': seq<Highlighted>)
      modifies this`instance, this`cache
      requires 0 < j <= |blocks| && Laid(s, blocks, 0)
      requires Current() == engine
      requires (pairs, cache) == Sweep(hash, writable, engine, cache0, blocks[j..])
      requires Laid(s, blocks[j..], Bound(blocks, j)) && Bound(blocks, j) <= |s|
      requires processed == s[..Bound(blocks, j)] + Assemble(s, blocks[j..], Replacements(blocks[j..], pairs), Bound(blocks, j))
      ensures Current() == engine
      ensures (pairs', cache) == Sweep(hash, writable, engine, cache0, blocks[j - 1..])
      ensures Laid(s, blocks[j - 1..], Bound(blocks, j - 1)) && Bound(blocks, j - 1) <= |s|
      ensures next == s[..Bound(blocks, j - 1)]
        + Assemble(s, blocks[j - 1..], Replacements(blocks[j - 1..], pairs'), Bound(blocks, j - 1))
    {
      var block := blocks[j - 1];
      ghost var mid := cache;
      if IsPlain(block) {
        AssembleLoopStep(s, blocks, j, pairs, processed, Highlighted("", ""));
        SweepStep(hash, writable, engine, cache0, blocks, j, pairs, mid, Highlighted("", ""), mid);
        return processed, [Highlighted("", "")] + pairs;
      }
      var code := Trim(block.code);
      var h := HighlightCodeCached(code, block.language);
      var replacement := Placeholder(block.language, h, code);
      AssembleLoopStep(s, blocks, j, pairs, processed, h);
      next := processed[..block.startIndex] + replacement + processed[block.startIndex + |block.fullMatch|..];
      SweepStep(hash, writable, engine, cache0, blocks, j, pairs, mid, h, cache);
      pairs' := [h] + pairs;
    }

    /**
     * `highlightCodeBlocks(mdxContent)`: every block that is not plain text is
     * replaced by its placeholder, working from the last block to the first.
     * `pairs` are the renderings obtained for the blocks, in block order.
     */
    method HighlightCodeBlocks(mdxContent: string) returns (r: string, ghost pairs: seq<Highlighted>)
      modifies this`instance, this`cache
      ensures var blocks := BlocksFrom(mdxContent, 0);
        && |pairs| == |blocks|
        && (pairs, cache) == Sweep(hash, writable, old(Current()), old(cache), blocks)
        && Laid(mdxContent, blocks, 0)
        && r == Assemble(mdxContent, blocks, Replacements(blocks, pairs), 0)
      ensures Current() == old(Current())
    {
      var blocks := ExtractCodeBlocks(mdxContent);
      BlocksFromLaid(mdxContent, 0);
      ghost var engine := Current();
      ghost var cache0 := cache;
      if |blocks| == 0 {
        pairs := [];
        return mdxContent, pairs;
      }
      var processed := mdxContent;
      pairs := [];
      var j := |blocks|;
      AssembleLoopInit(mdxContent, blocks);
      assert Sweep(hash, writable, engine, cache0, blocks[j..]) == ([], cache0) by {
        assert blocks[j..] == [];
      }
      while j > 0
        invariant 0 <= j <= |blocks|
        invariant Current() == engine
        invariant (pairs, cache) == Sweep(hash, writable, engine, cache0, blocks[j..])
        invariant Laid(mdxContent, blocks[j..], Bound(blocks, j)) && Bound(blocks, j) <= |mdxContent|
        invariant processed == mdxContent[..Bound(blocks, j)]
          + Assemble(mdxContent, blocks[j..], Replacements(blocks[j..], pairs), Bound(blocks, j))
        decreases j
      {
        processed, pairs := HighlightBlockAt(mdxContent, blocks, j, processed, pairs, engine, cache0);
        j := j - 1;
      }
      assert blocks[0..] == blocks;
      r := processed;
    }
  }

  /** Without blocks, `highlightCodeBlocks` returns its input. */
  lemma NoBlocksUnchanged(s: string, pairs: seq<Highlighted>)
    requires BlocksFrom(s, 0) == [] && |pairs| == 0
    ensures Assemble(s, BlocksFrom(s, 0), Replacements(BlocksFrom(s, 0), pairs), 0) == s
  {
  }

  /** When every block is plain text, the content comes back unchanged. */
  lemma PlainBlocksUnchanged(s: string, pairs: seq<Highlighted>)
    requires |pairs| == |BlocksFrom(s, 0)|
    requires forall b :: b in BlocksFrom(s, 0) ==> IsPlain(b)
    ensures Laid(s, BlocksFrom(s, 0), 0)
    ensures Assemble(s, BlocksFrom(s, 0), Replacements(BlocksFrom(s, 0), pairs), 0) == s
  {
    var blocks := BlocksFrom(s, 0);
    BlocksFromLaid(s, 0);
    var reps := Replacements(blocks, pairs);
    forall i | 0 <= i < |blocks| ensures reps[i] == blocks[i].fullMatch {
      assert blocks[i] in blocks;
    }
    AssembleVerbatim(s, blocks, reps, 0);
  }
}

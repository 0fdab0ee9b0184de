/**
 * Fenced code blocks in MDX text: `extractCodeBlocks`, which runs the global
 * regular expression /```(\w+)?\n([\s\S]*?)```/g over the text, and the
 * splicing that `highlightCodeBlocks` performs, block by block from the last
 * to the first.
 */
module CodeBlocks {
  import opened Text
  import opened Wrappers
  import opened Highlighting
  import JsonString

  const Fence := "```"

  /** `{ fullMatch, language, code, startIndex }`. */
  datatype CodeBlock = CodeBlock(fullMatch: string, language: string, code: string, startIndex: nat)

  /** The position just after the block. */
  function End(b: CodeBlock): nat {
    b.startIndex + |b.fullMatch|
  }

  /** `(\w+)?`, greedy: the end of the run of word characters from `i`. */
  function WordEnd(s: string, i: nat): (j: nat)
    requires i <= |s|
    ensures i <= j <= |s|
    decreases |s| - i
  {
    if i < |s| && IsWordChar(s[i]) then WordEnd(s, i + 1) else i
  }

  /** The run is all word characters, and the character after it is not one. */
  lemma {:induction false} WordEndRun(s: string, i: nat)
    requires i <= |s|
    ensures forall k :: i <= k < WordEnd(s, i) ==> IsWordChar(s[k])
    ensures WordEnd(s, i) == |s| || !IsWordChar(s[WordEnd(s, i)])
    decreases |s| - i
  {
    if i < |s| && IsWordChar(s[i]) {
      WordEndRun(s, i + 1);
    }
  }

  /** `[\s\S]*?` followed by the closing fence: the first fence at or after `i`. */
  function FindFence(s: string, i: nat): (r: Option<nat>)
    requires i <= |s|
    ensures r.Some? ==> i <= r.value && OccursAt(s, Fence, r.value)
    decreases |s| - i
  {
    if OccursAt(s, Fence, i) then Some(i)
    else if i + |Fence| >= |s| then None
    else FindFence(s, i + 1)
  }

  /** No fence starts between `i` and the one found: the lazy `[\s\S]*?` stops at the first. */
  lemma {:induction false} FindFenceFirst(s: string, i: nat, c: nat, k: nat)
    requires i <= |s| && FindFence(s, i) == Some(c) && i <= k < c
    ensures !OccursAt(s, Fence, k)
    decreases |s| - i
  {
    if k > i {
      FindFenceFirst(s, i + 1, c, k);
    }
  }

  /** No fence starts anywhere in `t`. */
  predicate NoFence(t: string) {
    forall k :: 0 <= k < |t| ==> !OccursAt(t, Fence, k)
  }

  predicate IsTag(t: string) {
    |t| > 0 && forall i :: 0 <= i < |t| ==> IsWordChar(t[i])
  }

  /**
   * A block the regular expression can produce: a fence, an optional tag of
   * word characters (none: the language is `text`), a line break, code
   * without a fence in it, and the closing fence.
   */
  predicate WellFormed(b: CodeBlock) {
    && ((b.language == "text" && b.fullMatch == Fence + "\n" + b.code + Fence)
        || (IsTag(b.language) && b.fullMatch == Fence + b.language + "\n" + b.code + Fence))
    && NoFence(b.code)
  }

  /** The block is the text's own slice at its start index. */
  predicate InPlace(s: string, b: CodeBlock) {
    End(b) <= |s| && s[b.startIndex..End(b)] == b.fullMatch
  }

  /** The match of the regular expression at position `p`, if there is one. */
  function FenceAt(s: string, p: nat): (r: Option<CodeBlock>)
    requires p <= |s|
    ensures r.Some? ==> r.value.startIndex == p && InPlace(s, r.value) && WellFormed(r.value)
    ensures r.Some? ==> |r.value.fullMatch| >= 2 * |Fence| + 1
  {
    if !OccursAt(s, Fence, p) then None
    else
      var w := WordEnd(s, p + |Fence|);
      if w == |s| || s[w] != '\n' then None
      else match FindFence(s, w + 1)
        case None => None
        case Some(c) =>
          var tag := s[p + |Fence|..w];
          var b := CodeBlock(s[p..c + |Fence|], if w == p + |Fence| then "text" else tag, s[w + 1..c], p);
          SkippedNoFence(s, w + 1, c);
          WordRunIsTag(s, p + |Fence|);
          FenceAtWellFormed(s, p, w, c, tag, b);
          Some(b)
  }

  /** `s[a..d]` cut at `b` and `c`. */
  lemma SliceThree(s: string, a: nat, b: nat, c: nat, d: nat)
    requires a <= b <= c <= d <= |s|
    ensures s[a..d] == s[a..b] + s[b..c] + s[c..d]
  {
  }

  /** A slice of text with no fence starting in it has no fence in it. */
  lemma NoFenceInSlice(s: string, a: nat, b: nat)
    requires a <= b <= |s|
    requires forall k :: a <= k < b ==> !OccursAt(s, Fence, k)
    ensures NoFence(s[a..b])
  {
    forall k | 0 <= k < b - a ensures !OccursAt(s[a..b], Fence, k) {
      if OccursAt(s[a..b], Fence, k) {
        OccursInSlice(s, a, b, Fence, k);
      }
    }
  }

  /** The code the lazy `[\s\S]*?` skips over holds no fence. */
  lemma SkippedNoFence(s: string, i: nat, c: nat)
    requires i <= |s| && FindFence(s, i) == Some(c)
    ensures NoFence(s[i..c])
  {
    forall k | i <= k < c ensures !OccursAt(s, Fence, k) {
      FindFenceFirst(s, i, c, k);
    }
    NoFenceInSlice(s, i, c);
  }

  /** The run `(\w+)?` matches is empty or a tag. */
  lemma WordRunIsTag(s: string, i: nat)
    requires i <= |s|
    ensures s[i..WordEnd(s, i)] == [] || IsTag(s[i..WordEnd(s, i)])
  {
    WordEndRun(s, i);
    var t := s[i..WordEnd(s, i)];
    forall j | 0 <= j < |t| ensures IsWordChar(t[j]) {
      assert t[j] == s[i + j];
    }
  }

  /** The text of a match: the opening fence, the tag, the line break, the code and the closing fence. */
  lemma FenceAtText(s: string, p: nat, w: nat, c: nat)
    requires OccursAt(s, Fence, p) && p + |Fence| <= w < |s| && s[w] == '\n'
    requires w + 1 <= c && OccursAt(s, Fence, c)
    ensures s[p..c + |Fence|] == Fence + s[p + |Fence|..w] + "\n" + s[w + 1..c] + Fence
  {
    assert s[w..w + 1] == "\n";
    SliceThree(s, p, p + |Fence|, w, w + 1);
    SliceThree(s, p, w + 1, c, c + |Fence|);
  }

  lemma FenceAtWellFormed(s: string, p: nat, w: nat, c: nat, tag: string, b: CodeBlock)
    requires OccursAt(s, Fence, p) && p + |Fence| <= w < |s| && s[w] == '\n'
    requires w + 1 <= c && OccursAt(s, Fence, c)
    requires tag == s[p + |Fence|..w] && (tag == [] || IsTag(tag))
    requires NoFence(s[w + 1..c])
    requires b == CodeBlock(s[p..c + |Fence|], if w == p + |Fence| then "text" else tag, s[w + 1..c], p)
    ensures InPlace(s, b) && WellFormed(b)
  {
    FenceAtText(s, p, w, c);
    if w == p + |Fence| {
      assert tag == [];
      assert b.fullMatch == Fence + "\n" + b.code + Fence;
    }
  }

  /** `regex.exec(s)` with `lastIndex == from`: the leftmost match at or after `from`. */
  function NextBlock(s: string, from: nat): (r: Option<CodeBlock>)
    requires from <= |s|
    ensures r.Some? ==> from <= r.value.startIndex <= |s| && FenceAt(s, r.value.startIndex) == r
    decreases |s| - from
  {
    match FenceAt(s, from)
    case Some(b) => Some(b)
    case None => if from == |s| then None else NextBlock(s, from + 1)
  }

  /** No match starts between `from` and the block found (anywhere after `from` when none is found). */
  lemma {:induction false} NextBlockLeftmost(s: string, from: nat, p: nat)
    requires from <= p <= |s|
    requires NextBlock(s, from).None? || p < NextBlock(s, from).value.startIndex
    ensures FenceAt(s, p).None?
    decreases p - from
  {
    if from < p {
      NextBlockLeftmost(s, from + 1, p);
    }
  }

  /** The blocks the `exec` loop collects from `from` on. */
  function BlocksFrom(s: string, from: nat): seq<CodeBlock>
    requires from <= |s|
    decreases |s| - from
  {
    match NextBlock(s, from)
    case None => []
    case Some(b) => [b] + BlocksFrom(s, End(b))
  }

  /** `extractCodeBlocks(content)`. */
  method ExtractCodeBlocks(content: string) returns (blocks: seq<CodeBlock>)
    ensures blocks == BlocksFrom(content, 0)
  {
    blocks := [];
    var lastIndex: nat := 0;
    ghost var all := BlocksFrom(content, 0);
    while true
      invariant lastIndex <= |content|
      invariant blocks + BlocksFrom(content, lastIndex) == all
      decreases |content| - lastIndex
    {
      var m := NextBlock(content, lastIndex);
      if m.None? {
        break;
      }
      var b := m.value;
      BlocksFromUnfold(content, lastIndex);
      assert blocks + BlocksFrom(content, lastIndex) == (blocks + [b]) + BlocksFrom(content, End(b));
      blocks := blocks + [b];
      lastIndex := End(b);
    }
  }

  /** The blocks lie in the text one after another, from `pos` on, without overlapping. */
  predicate Laid(s: string, blocks: seq<CodeBlock>, pos: nat)
    decreases |blocks|
  {
    blocks == [] ||
    (pos <= blocks[0].startIndex && InPlace(s, blocks[0]) && Laid(s, blocks[1..], End(blocks[0])))
  }

  /** The first block the loop collects and the blocks after it. */
  lemma BlocksFromUnfold(s: string, from: nat)
    requires from <= |s| && NextBlock(s, from).Some?
    ensures var b := NextBlock(s, from).value;
      from <= b.startIndex && from < End(b) <= |s| &&
      BlocksFrom(s, from) == [b] + BlocksFrom(s, End(b))
  {
  }

  /** The first block the loop collects is well formed and lies in the text. */
  lemma FirstBlockInPlace(s: string, from: nat)
    requires from <= |s| && NextBlock(s, from).Some?
    ensures InPlace(s, NextBlock(s, from).value) && WellFormed(NextBlock(s, from).value)
  {
  }

  /** The extracted blocks lie in the text one after another, without overlapping. */
  lemma {:induction false} BlocksFromLaid(s: string, from: nat)
    requires from <= |s|
    ensures Laid(s, BlocksFrom(s, from), from)
    decreases |s| - from
  {
    if NextBlock(s, from).Some? {
      var b := NextBlock(s, from).value;
      BlocksFromUnfold(s, from);
      FirstBlockInPlace(s, from);
      BlocksFromLaid(s, End(b));
      assert BlocksFrom(s, from)[1..] == BlocksFrom(s, End(b));
    }
  }

  /** Each extracted block is well formed and is the text's slice at its start index. */
  lemma {:induction false} BlocksFromInPlace(s: string, from: nat)
    requires from <= |s|
    ensures forall b :: b in BlocksFrom(s, from) ==> WellFormed(b) && InPlace(s, b) && from <= b.startIndex
    decreases |s| - from
  {
    if NextBlock(s, from).Some? {
      var b := NextBlock(s, from).value;
      BlocksFromUnfold(s, from);
      FirstBlockInPlace(s, from);
      BlocksFromInPlace(s, End(b));
    }
  }

  /** Every block starts at or after `pos`. */
  predicate StartAfter(bs: seq<CodeBlock>, pos: nat) {
    forall k :: 0 <= k < |bs| ==> pos <= bs[k].startIndex
  }

  /** Each block ends before any later one starts. */
  predicate Ordered(bs: seq<CodeBlock>) {
    forall i, j :: 0 <= i < j < |bs| ==> End(bs[i]) <= bs[j].startIndex
  }

  lemma StartAfterCons(b: CodeBlock, rest: seq<CodeBlock>, pos: nat)
    requires pos <= b.startIndex && StartAfter(rest, End(b))
    ensures StartAfter([b] + rest, pos)
  {
    forall k | 0 < k < |rest| + 1 ensures pos <= ([b] + rest)[k].startIndex {
      assert ([b] + rest)[k] == rest[k - 1];
    }
  }

  lemma OrderedCons(b: CodeBlock, rest: seq<CodeBlock>)
    requires StartAfter(rest, End(b)) && Ordered(rest)
    ensures Ordered([b] + rest)
  {
    var bs := [b] + rest;
    forall i, j | 0 <= i < j < |bs| ensures End(bs[i]) <= bs[j].startIndex {
      assert bs[j] == rest[j - 1];
      if i > 0 {
        assert bs[i] == rest[i - 1];
      }
    }
  }

  /** Every extracted block starts at or after `from`. */
  lemma {:induction false} BlocksFromAfter(s: string, from: nat)
    requires from <= |s|
    ensures StartAfter(BlocksFrom(s, from), from)
    decreases |s| - from
  {
    if NextBlock(s, from).Some? {
      var b := NextBlock(s, from).value;
      BlocksFromUnfold(s, from);
      BlocksFromAfter(s, End(b));
      StartAfterCons(b, BlocksFrom(s, End(b)), from);
    }
  }

  /** The start indices increase, and each block ends before the next one starts. */
  lemma {:induction false} BlocksFromOrdered(s: string, from: nat)
    requires from <= |s|
    ensures Ordered(BlocksFrom(s, from))
    decreases |s| - from
  {
    if NextBlock(s, from).Some? {
      var b := NextBlock(s, from).value;
      BlocksFromUnfold(s, from);
      BlocksFromOrdered(s, End(b));
      BlocksFromAfter(s, End(b));
      OrderedCons(b, BlocksFrom(s, End(b)));
    }
  }

  /** Every position where the regular expression matches lies inside an extracted block. */
  lemma {:induction false} BlocksFromComplete(s: string, from: nat, p: nat)
    requires from <= p <= |s| && FenceAt(s, p).Some?
    ensures Covers(BlocksFrom(s, from), p)
    decreases |s| - from
  {
    var nb := NextBlock(s, from);
    if nb.None? || p < nb.value.startIndex {
      NextBlockLeftmost(s, from, p);
      assert false;
    }
    var b := nb.value;
    BlocksFromUnfold(s, from);
    if End(b) <= p {
      BlocksFromComplete(s, End(b), p);
    }
    CoversCons(b, BlocksFrom(s, End(b)), p);
  }

  /** Position `p` lies inside one of the blocks. */
  predicate Covers(bs: seq<CodeBlock>, p: nat) {
    exists i :: 0 <= i < |bs| && bs[i].startIndex <= p < End(bs[i])
  }

  lemma CoversCons(b: CodeBlock, rest: seq<CodeBlock>, p: nat)
    requires (b.startIndex <= p < End(b)) || Covers(rest, p)
    ensures Covers([b] + rest, p)
  {
    var bs := [b] + rest;
    if b.startIndex <= p < End(b) {
      assert bs[0] == b;
    } else {
      var i :| 0 <= i < |rest| && rest[i].startIndex <= p < End(rest[i]);
      assert bs[i + 1] == rest[i];
    }
  }

  /** A fence with no tag is given the language `text`. */
  lemma UntaggedIsText(s: string, p: nat)
    requires p + |Fence| < |s| && OccursAt(s, Fence, p) && s[p + |Fence|] == '\n'
    requires FenceAt(s, p).Some?
    ensures FenceAt(s, p).value.language == "text"
  {
  }

  /** Text without a fence holds no block. */
  lemma NoFenceNoBlocks(s: string)
    requires forall k :: !OccursAt(s, Fence, k)
    ensures BlocksFrom(s, 0) == []
  {
    assert NextBlock(s, 0).None?;
  }

  /** Blocks `text` and `plaintext` are left verbatim. */
  predicate IsPlain(b: CodeBlock) {
    b.language == "text" || b.language == "plaintext"
  }

  /** The marker that replaces a highlighted block. */
  function Placeholder(language: string, h: Highlighted, rawCode: string): string {
    "<CodeHighlighted language=\"" + language + "\" lightHtml={" + JsonString.Quote(h.light)
      + "} darkHtml={" + JsonString.Quote(h.dark) + "} rawCode={" + JsonString.Quote(rawCode) + "} />"
  }

  /**
   * The text with each block replaced by its replacement, read front to back:
   * the text before the first block, its replacement, the text up to the next
   * block, and so on.
   */
  function Assemble(s: string, blocks: seq<CodeBlock>, reps: seq<string>, pos: nat): string
    requires pos <= |s| && |reps| == |blocks| && Laid(s, blocks, pos)
    decreases |blocks|
  {
    if blocks == [] then s[pos..]
    else s[pos..blocks[0].startIndex] + reps[0] + Assemble(s, blocks[1..], reps[1..], End(blocks[0]))
  }

  /** `t.slice(0, b.startIndex) + rep + t.slice(b.startIndex + b.fullMatch.length)`. */
  function Splice(t: string, b: CodeBlock, rep: string): string
    requires End(b) <= |t|
  {
    t[..b.startIndex] + rep + t[End(b)..]
  }

  /** The position the still unprocessed blocks `blocks[..j]` end at (the start of the text when `j == 0`). */
  function Bound(blocks: seq<CodeBlock>, j: nat): nat
    requires j <= |blocks|
  {
    if j == 0 then 0 else End(blocks[j - 1])
  }

  lemma {:induction false} LaidSuffix(s: string, blocks: seq<CodeBlock>, pos: nat, j: nat)
    requires Laid(s, blocks, pos) && j < |blocks|
    ensures Laid(s, blocks[j..], if j == 0 then pos else End(blocks[j - 1]))
    ensures (if j == 0 then pos else End(blocks[j - 1])) <= blocks[j].startIndex
    ensures InPlace(s, blocks[j])
    decreases j
  {
    if j > 0 {
      LaidSuffix(s, blocks[1..], End(blocks[0]), j - 1);
      assert blocks[1..][j - 1..] == blocks[j..];
      if j > 1 {
        assert blocks[1..][j - 2] == blocks[j - 1];
      }
    }
  }

  /**
   * One step of the backward loop: splicing block `j - 1` into text whose
   * tail from the end of that block is already assembled extends the
   * assembly by one block.
   */
  lemma SpliceStep(s: string, blocks: seq<CodeBlock>, reps: seq<string>, j: nat, rep: string)
    requires 0 < j <= |blocks| && |reps| == |blocks| - j && Laid(s, blocks, 0)
    requires Laid(s, blocks[j..], Bound(blocks, j))
    requires Bound(blocks, j) <= |s|
    ensures Laid(s, blocks[j - 1..], Bound(blocks, j - 1))
    ensures var t := s[..Bound(blocks, j)] + Assemble(s, blocks[j..], reps, Bound(blocks, j));
      End(blocks[j - 1]) <= |t| &&
      Splice(t, blocks[j - 1], rep)
      == s[..Bound(blocks, j - 1)] + Assemble(s, blocks[j - 1..], [rep] + reps, Bound(blocks, j - 1))
  {
    var b := blocks[j - 1];
    LaidSuffix(s, blocks, 0, j - 1);
    var p0 := Bound(blocks, j - 1);
    var pj := Bound(blocks, j);
    assert pj == End(b);
    var tail := Assemble(s, blocks[j..], reps, pj);
    AssembleCons(s, blocks[j - 1..], [rep] + reps, p0);
    assert blocks[j - 1..][1..] == blocks[j..];
    assert ([rep] + reps)[1..] == reps;
    SpliceFront(s, p0, b, tail, rep);
  }

  /** Assembling from the first block on: the text up to it, its replacement, the rest. */
  lemma AssembleCons(s: string, blocks: seq<CodeBlock>, reps: seq<string>, pos: nat)
    requires pos <= |s| && |reps| == |blocks| && blocks != [] && Laid(s, blocks, pos)
    ensures Assemble(s, blocks, reps, pos)
         == s[pos..blocks[0].startIndex] + reps[0] + Assemble(s, blocks[1..], reps[1..], End(blocks[0]))
  {
  }

  /** Splicing the last unprocessed block into the text whose tail after it is already assembled. */
  lemma SpliceFront(s: string, p0: nat, b: CodeBlock, tail: string, rep: string)
    requires p0 <= b.startIndex && End(b) <= |s|
    ensures End(b) <= |s[..End(b)] + tail|
    ensures Splice(s[..End(b)] + tail, b, rep) == s[..p0] + (s[p0..b.startIndex] + rep + tail)
  {
    var t := s[..End(b)] + tail;
    assert t[..b.startIndex] == s[..b.startIndex];
    assert t[End(b)..] == tail;
    assert s[..b.startIndex] == s[..p0] + s[p0..b.startIndex];
  }

  /** Replacing a block by its own text changes nothing. */
  lemma SpliceVerbatim(s: string, t: string, b: CodeBlock, p: nat)
    requires InPlace(s, b) && End(b) == p && p <= |s| && |s[..p]| <= |t| && t[..p] == s[..p]
    ensures Splice(t, b, b.fullMatch) == t
  {
    assert t[b.startIndex..End(b)] == s[b.startIndex..End(b)];
    assert t == t[..b.startIndex] + t[b.startIndex..End(b)] + t[End(b)..];
  }

  /** When every replacement is the block itself, the assembly is the text. */
  lemma {:induction false} AssembleVerbatim(s: string, blocks: seq<CodeBlock>, reps: seq<string>, pos: nat)
    requires pos <= |s| && |reps| == |blocks| && Laid(s, blocks, pos)
    requires forall i :: 0 <= i < |blocks| ==> reps[i] == blocks[i].fullMatch
    ensures Assemble(s, blocks, reps, pos) == s[pos..]
    decreases |blocks|
  {
    if blocks != [] {
      var b := blocks[0];
      AssembleVerbatim(s, blocks[1..], reps[1..], End(b));
      assert s[pos..] == s[pos..b.startIndex] + s[b.startIndex..End(b)] + s[End(b)..];
    }
  }

  /** The replacement of a block: its own text when plain, otherwise the placeholder. */
  function BlockReplacement(b: CodeBlock, h: Highlighted): string {
    if IsPlain(b) then b.fullMatch else Placeholder(b.language, h, Trim(b.code))
  }
}

/**
 * `getRelatedPosts(currentPost, allPosts, limit = 3)`: the other posts that
 * share a tag with the current one, each with its `score` (how many of its
 * tags the current post also has), the best scores first and, among equal
 * scores, in the order of `allPosts` (the engine's sort is stable), cut to
 * `limit` entries by `slice(0, limit)`.
 */
module BlogUtils {
  import opened BlogTypes
  import opened StableSort

  /** `{ ...post, score }`: a post with its relatedness score. */
  datatype ScoredPost = ScoredPost(post: Post, score: int)

  /** The default of the `limit` parameter. */
  const DefaultLimit: int := 3

  /** `tags.filter((tag) => other.includes(tag))`: the entries of `tags` that occur in `other`, in order. */
  function Shared(tags: seq<string>, other: seq<string>): (r: seq<string>)
    ensures |r| <= |tags|
    ensures forall t :: t in r ==> t in tags && t in other
  {
    if tags == [] then []
    else (if tags[0] in other then [tags[0]] else []) + Shared(tags[1..], other)
  }

  /** The score of `post` against the current post: the length of the shared-tag list. */
  function Score(post: Post, current: Post): (n: nat)
    ensures n <= |post.tags|
  {
    |Shared(post.tags, current.tags)|
  }

  /** `.score`, the key the comparator `(a, b) => b.score - a.score` sorts by. */
  function ScoreOf(p: ScoredPost): int { p.score }

  /**
   * `allPosts.filter(slug differs).map(add score).filter(score > 0)`: the
   * three stages fused into one pass, which keeps the order of `allPosts`.
   */
  function Candidates(current: Post, all: seq<Post>): (r: seq<ScoredPost>)
    ensures |r| <= |all|
  {
    if all == [] then []
    else
      var p := all[0];
      var keep := if p.slug != current.slug && Score(p, current) > 0
        then [ScoredPost(p, Score(p, current))] else [];
      keep + Candidates(current, all[1..])
  }

  /**
   * `s.slice(0, end)`: a negative end counts from the back (and stops at the
   * front), an end past the length stops at the length.
   */
  function SliceTo<T>(s: seq<T>, end: int): (r: seq<T>)
    ensures end >= 0 ==> |r| == if end < |s| then end else |s|
    ensures end < 0 ==> |r| == if |s| + end > 0 then |s| + end else 0
    ensures r == s[..|r|]
  {
    var e := if end < 0 then (if |s| + end > 0 then |s| + end else 0)
             else if end < |s| then end else |s|;
    s[..e]
  }

  /** `getRelatedPosts(currentPost, allPosts, limit)`. */
  function GetRelatedPosts(current: Post, all: seq<Post>, limit: int): seq<ScoredPost> {
    SliceTo(SortDesc(Candidates(current, all), ScoreOf), limit)
  }

  /** A post sharing some tag has a positive score, and only such a post does. */
  lemma {:induction false} SharedNonEmpty(tags: seq<string>, other: seq<string>)
    ensures Shared(tags, other) != [] <==> exists i :: 0 <= i < |tags| && tags[i] in other
  {
    if tags != [] {
      SharedNonEmpty(tags[1..], other);
      if tags[0] !in other {
        if i :| 0 <= i < |tags| && tags[i] in other {
          assert tags[1..][i - 1] == tags[i];
        }
      }
    }
  }

  /**
   * A scored post is a candidate exactly when its post is one of `all`, has
   * another slug than the current post, and its score is its positive shared-tag count.
   */
  lemma {:induction false} CandidatesMembers(current: Post, all: seq<Post>, x: ScoredPost)
    ensures x in Candidates(current, all) <==>
      x.post in all && x.post.slug != current.slug && x.score == Score(x.post, current) && x.score > 0
  {
    if all != [] {
      CandidatesMembers(current, all[1..], x);
      assert all == [all[0]] + all[1..];
    }
  }

  /** Every entry of the result is a candidate: another input post, with its true, positive score. */
  lemma RelatedAreCandidates(current: Post, all: seq<Post>, limit: int, x: ScoredPost)
    requires x in GetRelatedPosts(current, all, limit)
    ensures x.post in all
    ensures x.post.slug != current.slug
    ensures x.score == Score(x.post, current) && x.score >= 1
  {
    var sorted := SortDesc(Candidates(current, all), ScoreOf);
    assert x in sorted;
    assert x in multiset(sorted);
    CandidatesMembers(current, all, x);
  }

  /** At most `limit` results; exactly `limit` when there are that many candidates. */
  lemma RelatedLength(current: Post, all: seq<Post>, limit: int)
    requires limit >= 0
    ensures |GetRelatedPosts(current, all, limit)| <= limit
    ensures |Candidates(current, all)| >= limit ==> |GetRelatedPosts(current, all, limit)| == limit
    ensures |Candidates(current, all)| <= limit ==>
      multiset(GetRelatedPosts(current, all, limit)) == multiset(Candidates(current, all))
  {
    var sorted := SortDesc(Candidates(current, all), ScoreOf);
    if |sorted| <= limit {
      assert sorted[..|sorted|] == sorted;
    }
  }

  /** Scores never increase along the result. */
  lemma RelatedNonIncreasing(current: Post, all: seq<Post>, limit: int)
    ensures NonIncreasing(GetRelatedPosts(current, all, limit), ScoreOf)
  {
    var sorted := SortDesc(Candidates(current, all), ScoreOf);
    SortDescNonIncreasing(Candidates(current, all), ScoreOf);
    var r := GetRelatedPosts(current, all, limit);
    assert forall i :: 0 <= i < |r| ==> r[i] == sorted[i];
  }

  /**
   * The result is the start of the stable sort of the candidates: the posts
   * with any one score appear there in the order they have in `allPosts`.
   */
  lemma RelatedIsSortedPrefix(current: Post, all: seq<Post>, limit: int, v: int)
    ensures GetRelatedPosts(current, all, limit) <= SortDesc(Candidates(current, all), ScoreOf)
    ensures WithKey(SortDesc(Candidates(current, all), ScoreOf), ScoreOf, v)
         == WithKey(Candidates(current, all), ScoreOf, v)
  {
    SortDescStable(Candidates(current, all), ScoreOf, v);
  }

  /** Keeping the entries of one key commutes with taking a prefix. */
  lemma {:induction false} WithKeyOfPrefix<T>(p: seq<T>, s: seq<T>, key: T -> int, v: int)
    requires p <= s
    ensures WithKey(p, key, v) <= WithKey(s, key, v)
  {
    if p != [] {
      WithKeyOfPrefix(p[1..], s[1..], key, v);
    }
  }

  /**
   * Stability as the result shows it: the returned posts with any one score
   * are the first posts with that score among the candidates, in the order
   * of `allPosts`.
   */
  lemma RelatedStable(current: Post, all: seq<Post>, limit: int, v: int)
    ensures WithKey(GetRelatedPosts(current, all, limit), ScoreOf, v) <= WithKey(Candidates(current, all), ScoreOf, v)
  {
    var sorted := SortDesc(Candidates(current, all), ScoreOf);
    RelatedIsSortedPrefix(current, all, limit, v);
    WithKeyOfPrefix(GetRelatedPosts(current, all, limit), sorted, ScoreOf, v);
  }
}

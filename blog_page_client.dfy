/**
 * The `filteredPosts` computation of the blog listing page: the posts whose
 * title, description or some tag contains the search term (case-insensitive),
 * then those carrying every selected tag, sorted by date, newest or oldest
 * first. `filtered` starts as the `initialPosts` array itself; each filter
 * that runs replaces it with a new array, and the sort reorders whichever
 * array it ends up being, in place.
 */
module BlogPageClient {
  import opened Text
  import opened BlogTypes
  import opened StableSort
  import opened BlogFilters

  datatype SortOrder = Newest | Oldest

  /** `post.title.toLowerCase().includes(search) || ... || post.tags.some(...)`. */
  predicate MatchesSearch(post: Post, search: string) {
    || Contains(Lower(post.title), search)
    || Contains(Lower(post.description), search)
    || exists i :: 0 <= i < |post.tags| && Contains(Lower(post.tags[i]), search)
  }

  /** `selectedTags.every((tag) => post.tags.includes(tag))`. */
  predicate HasEveryTag(post: Post, selected: seq<string>) {
    forall i :: 0 <= i < |selected| ==> selected[i] in post.tags
  }

  function FilterSearch(posts: seq<Post>, search: string): (r: seq<Post>)
    ensures |r| <= |posts|
  {
    if posts == [] then []
    else (if MatchesSearch(posts[0], search) then [posts[0]] else []) + FilterSearch(posts[1..], search)
  }

  function FilterTags(posts: seq<Post>, selected: seq<string>): (r: seq<Post>)
    ensures |r| <= |posts|
  {
    if posts == [] then []
    else (if HasEveryTag(posts[0], selected) then [posts[0]] else []) + FilterTags(posts[1..], selected)
  }

  /** The two filters, each applied only when set, as the `useMemo` body applies them. */
  function Filtered(posts: seq<Post>, searchTerm: string, selected: seq<string>): seq<Post> {
    var afterSearch := if searchTerm != "" then FilterSearch(posts, Lower(searchTerm)) else posts;
    if |selected| > 0 then FilterTags(afterSearch, selected) else afterSearch
  }

  /** The negated date: sorting by it, largest first, puts the oldest post first. */
  function NegDate(p: Post): int { -p.date }

  /**
   * The comparator `dateB - dateA` (newest) or `dateA - dateB` (oldest):
   * the stable sort by date, or by the negated date, largest first.
   */
  function SortKey(order: SortOrder): Post -> int {
    match order
    case Newest => Date
    case Oldest => NegDate
  }

  /** The contents of the array `filteredPosts` returns. */
  function FilteredPosts(posts: seq<Post>, searchTerm: string, selected: seq<string>, order: SortOrder): seq<Post> {
    SortDesc(Filtered(posts, searchTerm, selected), SortKey(order))
  }

  /**
   * The `useMemo` body. When neither filter runs the array returned is
   * `initialPosts`, sorted in place; otherwise it is a new array and
   * `initialPosts` is left as it was.
   */
  method FilterAndSort(initialPosts: array<Post>, searchTerm: string, selectedTags: seq<string>, sortBy: SortOrder)
    returns (filtered: array<Post>)
    modifies initialPosts
    ensures filtered[..] == FilteredPosts(old(initialPosts[..]), searchTerm, selectedTags, sortBy)
    ensures searchTerm == "" && selectedTags == [] ==> filtered == initialPosts
    ensures searchTerm != "" || selectedTags != [] ==> fresh(filtered) && initialPosts[..] == old(initialPosts[..])
  {
    filtered := initialPosts;
    if searchTerm != "" {
      var search := Lower(searchTerm);
      var kept := FilterSearch(filtered[..], search);
      filtered := new Post[|kept|](i requires 0 <= i < |kept| => kept[i]);
      assert filtered[..] == kept;
    }
    if |selectedTags| > 0 {
      var kept := FilterTags(filtered[..], selectedTags);
      filtered := new Post[|kept|](i requires 0 <= i < |kept| => kept[i]);
      assert filtered[..] == kept;
    }
    assert filtered[..] == Filtered(old(initialPosts[..]), searchTerm, selectedTags);
    var sorted := SortDesc(filtered[..], SortKey(sortBy));
    forall i | 0 <= i < filtered.Length {
      filtered[i] := sorted[i];
    }
    assert filtered[..] == sorted;
  }

  lemma {:induction false} FilterSearchMembers(posts: seq<Post>, search: string, p: Post)
    ensures p in FilterSearch(posts, search) <==> p in posts && MatchesSearch(p, search)
  {
    if posts != [] {
      FilterSearchMembers(posts[1..], search, p);
      assert posts == [posts[0]] + posts[1..];
    }
  }

  lemma {:induction false} FilterTagsMembers(posts: seq<Post>, selected: seq<string>, p: Post)
    ensures p in FilterTags(posts, selected) <==> p in posts && HasEveryTag(p, selected)
  {
    if posts != [] {
      FilterTagsMembers(posts[1..], selected, p);
      assert posts == [posts[0]] + posts[1..];
    }
  }

  /**
   * A post is listed exactly when it is one of the initial posts, matches
   * the lower-cased search term (when there is one) and carries every selected tag.
   */
  lemma ListedIff(posts: seq<Post>, searchTerm: string, selected: seq<string>, order: SortOrder, p: Post)
    ensures p in FilteredPosts(posts, searchTerm, selected, order) <==>
      && p in posts
      && (searchTerm != "" ==> MatchesSearch(p, Lower(searchTerm)))
      && HasEveryTag(p, selected)
  {
    var f := Filtered(posts, searchTerm, selected);
    assert p in FilteredPosts(posts, searchTerm, selected, order) <==> p in multiset(f);
    var afterSearch := if searchTerm != "" then FilterSearch(posts, Lower(searchTerm)) else posts;
    FilterSearchMembers(posts, Lower(searchTerm), p);
    FilterTagsMembers(afterSearch, selected, p);
  }

  /** With no search term and no selected tag every initial post is listed, each as often as it occurs. */
  lemma NoFilterKeepsAll(posts: seq<Post>, order: SortOrder)
    ensures multiset(FilteredPosts(posts, "", [], order)) == multiset(posts)
  {
  }

  /** `hasFilters` false means the listing has every initial post. */
  lemma NoFiltersListsAll(f: Filters, posts: seq<Post>, order: SortOrder)
    requires !HasFilters(f)
    ensures multiset(FilteredPosts(posts, f.searchTerm, f.selectedTags, order)) == multiset(posts)
  {
    assert f.searchTerm == "" && f.selectedTags == [];
  }

  /** `"newest"` lists dates that never increase, `"oldest"` dates that never decrease. */
  lemma ListedOrder(posts: seq<Post>, searchTerm: string, selected: seq<string>, order: SortOrder)
    ensures var r := FilteredPosts(posts, searchTerm, selected, order);
      (order == Newest ==> forall i, j :: 0 <= i < j < |r| ==> r[i].date >= r[j].date) &&
      (order == Oldest ==> forall i, j :: 0 <= i < j < |r| ==> r[i].date <= r[j].date)
  {
    var r := FilteredPosts(posts, searchTerm, selected, order);
    SortDescNonIncreasing(Filtered(posts, searchTerm, selected), SortKey(order));
    if order == Oldest {
      forall i, j | 0 <= i < j < |r| ensures r[i].date <= r[j].date {
        assert NegDate(r[i]) >= NegDate(r[j]);
      }
    } else {
      forall i, j | 0 <= i < j < |r| ensures r[i].date >= r[j].date {
        assert Date(r[i]) >= Date(r[j]);
      }
    }
  }

  /** Posts with the same date keep their order from `initialPosts` (the sort is stable). */
  lemma ListedStable(posts: seq<Post>, searchTerm: string, selected: seq<string>, order: SortOrder, v: int)
    ensures WithKey(FilteredPosts(posts, searchTerm, selected, order), SortKey(order), v)
         == WithKey(Filtered(posts, searchTerm, selected), SortKey(order), v)
  {
    SortDescStable(Filtered(posts, searchTerm, selected), SortKey(order), v);
  }
}

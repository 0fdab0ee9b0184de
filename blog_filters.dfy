/**
 * The list updates of the blog filter bar: `toggleTag` hands the parent a
 * new tag selection, `clearFilters` resets the selection and the search
 * term, and `hasFilters` says whether either is set. The parent's callbacks
 * receive the values these functions return.
 */
module BlogFilters {

  /** `selectedTags.filter((t) => t !== tag)`. */
  function Remove(selected: seq<string>, tag: string): (r: seq<string>)
    ensures |r| <= |selected|
  {
    if selected == [] then []
    else (if selected[0] != tag then [selected[0]] else []) + Remove(selected[1..], tag)
  }

  /** `toggleTag(tag)`: the selection passed to `onTagsChange`. */
  function ToggleTag(selected: seq<string>, tag: string): seq<string> {
    if tag in selected then Remove(selected, tag) else selected + [tag]
  }

  /** The filter state the component reads: the selected tags and the search term. */
  datatype Filters = Filters(selectedTags: seq<string>, searchTerm: string)

  /** `clearFilters()`: `onTagsChange([])` and `onSearchChange("")`. */
  function ClearFilters(): Filters {
    Filters([], "")
  }

  /** `hasFilters`. */
  predicate HasFilters(f: Filters) {
    |f.selectedTags| > 0 || |f.searchTerm| > 0
  }

  /** Removing a tag removes every occurrence of it and keeps every other tag. */
  lemma {:induction false} RemoveMembers(selected: seq<string>, tag: string, t: string)
    ensures t in Remove(selected, tag) <==> t in selected && t != tag
  {
    if selected != [] {
      RemoveMembers(selected[1..], tag, t);
      assert selected == [selected[0]] + selected[1..];
    }
  }

  /** Removal distributes over concatenation, so the remaining tags keep their order. */
  lemma {:induction false} RemoveConcat(a: seq<string>, b: seq<string>, tag: string)
    ensures Remove(a + b, tag) == Remove(a, tag) + Remove(b, tag)
  {
    if a == [] {
      assert a + b == b;
    } else {
      assert (a + b)[0] == a[0] && (a + b)[1..] == a[1..] + b;
      RemoveConcat(a[1..], b, tag);
    }
  }

  /** Removing an absent tag changes nothing. */
  lemma {:induction false} RemoveAbsent(selected: seq<string>, tag: string)
    requires tag !in selected
    ensures Remove(selected, tag) == selected
  {
    if selected != [] {
      assert selected == [selected[0]] + selected[1..];
      RemoveAbsent(selected[1..], tag);
    }
  }

  /**
   * Toggling a selected tag drops all its occurrences, the others in their
   * order; toggling an unselected tag appends it at the end.
   */
  lemma ToggleSpec(selected: seq<string>, tag: string)
    ensures tag in selected ==> tag !in ToggleTag(selected, tag)
    ensures tag in selected ==> forall t :: t != tag ==> (t in ToggleTag(selected, tag) <==> t in selected)
    ensures tag !in selected ==> ToggleTag(selected, tag) == selected + [tag]
  {
    forall t ensures t in Remove(selected, tag) <==> t in selected && t != tag {
      RemoveMembers(selected, tag, t);
    }
  }

  /** Toggling an unselected tag twice restores the selection. */
  lemma ToggleTwice(selected: seq<string>, tag: string)
    requires tag !in selected
    ensures ToggleTag(ToggleTag(selected, tag), tag) == selected
  {
    var added := selected + [tag];
    assert tag in added;
    RemoveConcat(selected, [tag], tag);
    RemoveAbsent(selected, tag);
    assert Remove([tag], tag) == [];
  }

  /** A selected tag toggled twice moves to the end, once. */
  lemma ToggleSelectedTwice(selected: seq<string>, tag: string)
    requires tag in selected
    ensures ToggleTag(ToggleTag(selected, tag), tag) == Remove(selected, tag) + [tag]
  {
    RemoveMembers(selected, tag, tag);
  }

  /** After `clearFilters` there is no filter, and `hasFilters` holds exactly when a tag or a search is set. */
  lemma ClearFiltersSpec(f: Filters)
    ensures !HasFilters(ClearFilters())
    ensures ClearFilters().selectedTags == [] && ClearFilters().searchTerm == ""
    ensures HasFilters(f) <==> f.selectedTags != [] || f.searchTerm != ""
  {
  }
}

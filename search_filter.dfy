/**
  The search bar component: the text box, the known tags, the selected tags,
  whether the tag list is shown, the match-all switch, and whether a search is
  active; changed by its buttons and handlers.
*/
module SearchFilterComponent {
  import opened Text
  import opened Lists
  import opened Store

  function IsNot(tag: string): string -> bool {
    (t: string) => t != tag
  }

  /** `prev.includes(tag) ? prev.filter((t) => t !== tag) : [...prev, tag]`. */
  function Toggled(selected: seq<string>, tag: string): (r: seq<string>)
    ensures tag in r <==> tag !in selected
    ensures forall t :: t != tag ==> (t in r <==> t in selected)
    ensures tag !in selected ==> r == selected + [tag]
  {
    if tag in selected then Filter(selected, IsNot(tag)) else selected + [tag]
  }

  /** Removing a tag keeps every other tag as often as it was selected. */
  lemma ToggledCount(selected: seq<string>, tag: string, t: string)
    requires tag in selected && t != tag
    ensures multiset(Toggled(selected, tag))[t] == multiset(selected)[t]
  {
    FilterCount(selected, IsNot(tag), t);
  }

  /** In a duplicate-free selection, removing a tag cuts out exactly its one position. */
  lemma ToggledRemovesOne(selected: seq<string>, tag: string)
    requires NoDup(selected) && tag in selected
    ensures exists i :: 0 <= i < |selected| && Toggled(selected, tag) == selected[..i] + selected[i + 1..]
  {
    var i :| 0 <= i < |selected| && selected[i] == tag;
    var before, after := selected[..i], selected[i + 1..];
    OthersAround(selected, i);
    calc {
      Toggled(selected, tag);
      Filter(selected, IsNot(tag));
      { assert selected == before + ([tag] + after); }
      Filter(before + ([tag] + after), IsNot(tag));
      { FilterAppend(before, [tag] + after, IsNot(tag)); FilterAppend([tag], after, IsNot(tag)); }
      Filter(before, IsNot(tag)) + (Filter([tag], IsNot(tag)) + Filter(after, IsNot(tag)));
      { FilterAll(before, IsNot(tag)); FilterAll(after, IsNot(tag)); assert Filter([tag], IsNot(tag)) == []; }
      before + ([] + after);
      { assert [] + after == after; }
      selected[..i] + selected[i + 1..];
    }
  }

  /** In a duplicate-free list, the element at `i` occurs neither before nor after `i`. */
  lemma OthersAround(xs: seq<string>, i: int)
    requires NoDup(xs) && 0 <= i < |xs|
    ensures forall x :: x in xs[..i] ==> IsNot(xs[i])(x)
    ensures forall x :: x in xs[i + 1..] ==> IsNot(xs[i])(x)
  {
    var before, after := xs[..i], xs[i + 1..];
    forall x | x in before ensures x != xs[i] {
      var m :| 0 <= m < |before| && before[m] == x;
    }
    forall x | x in after ensures x != xs[i] {
      var m :| 0 <= m < |after| && after[m] == x;
      assert xs[i + 1 + m] == x;
    }
  }

  /** Toggling keeps the selection free of duplicates. */
  lemma ToggledNoDup(selected: seq<string>, tag: string)
    requires NoDup(selected)
    ensures NoDup(Toggled(selected, tag))
  {
    if tag in selected {
      FilterNoDup(selected, IsNot(tag));
    }
  }

  /** Toggling an unselected tag twice gives back exactly the previous selection. */
  lemma ToggledTwice(selected: seq<string>, tag: string)
    requires tag !in selected
    ensures Toggled(Toggled(selected, tag), tag) == selected
  {
    FilterAppend(selected, [tag], IsNot(tag));
    FilterAll(selected, IsNot(tag));
    assert Filter([tag], IsNot(tag)) == [];
    assert selected + [] == selected;
  }

  /** What `handleSearch` and `handleCancel` hand to the parent's `onSearch`. */
  datatype SearchRequest = SearchRequest(text: string, tags: seq<string>, matchAll: bool)

  /** How loading the known tags ended. */
  datatype TagsResponse =
    | TagsThrew                           // the fetch or the JSON parse threw
    | TagsBody(tags: Option<seq<string>>) // the `tags` field, absent or null as `None`

  class SearchFilter {
    var search: string
    var tags: seq<string>
    var selectedTags: seq<string>
    var showTags: bool
    var matchAll: bool
    var hasActiveSearch: bool

    constructor()
      ensures search == "" && tags == [] && selectedTags == []
      ensures !showTags && !matchAll && !hasActiveSearch
    {
      search := "";
      tags := [];
      selectedTags := [];
      showTags := false;
      matchAll := false;
      hasActiveSearch := false;
    }

    /** `setTags(data.tags || [])`; a throw leaves the tags alone. */
    method LoadTags(response: TagsResponse)
      modifies this
      ensures response.TagsBody? ==> tags == (if response.tags.Some? then response.tags.value else [])
      ensures response.TagsThrew? ==> tags == old(tags)
      ensures search == old(search) && selectedTags == old(selectedTags) && showTags == old(showTags)
      ensures matchAll == old(matchAll) && hasActiveSearch == old(hasActiveSearch)
    {
      if response.TagsBody? {
        tags := if response.tags.Some? then response.tags.value else [];
      }
    }

    /** Typing in the text box. */
    method SetSearch(value: string)
      modifies this
      ensures search == value
      ensures tags == old(tags) && selectedTags == old(selectedTags) && showTags == old(showTags)
      ensures matchAll == old(matchAll) && hasActiveSearch == old(hasActiveSearch)
    {
      search := value;
    }

    /** `toggleTag(tag)`. */
    method ToggleTag(tag: string)
      modifies this
      ensures selectedTags == Toggled(old(selectedTags), tag)
      ensures search == old(search) && tags == old(tags) && showTags == old(showTags)
      ensures matchAll == old(matchAll) && hasActiveSearch == old(hasActiveSearch)
    {
      selectedTags := Toggled(selectedTags, tag);
    }

    /** The match-all switch. */
    method SetMatchAll(value: bool)
      modifies this
      ensures matchAll == value
      ensures search == old(search) && tags == old(tags) && selectedTags == old(selectedTags)
      ensures showTags == old(showTags) && hasActiveSearch == old(hasActiveSearch)
    {
      matchAll := value;
    }

    /** The show-tags button: flips `showTags` and nothing else. */
    method ToggleShowTags()
      modifies this
      ensures showTags == !old(showTags)
      ensures search == old(search) && tags == old(tags) && selectedTags == old(selectedTags)
      ensures matchAll == old(matchAll) && hasActiveSearch == old(hasActiveSearch)
    {
      showTags := !showTags;
    }

    /**
      `handleSearch()`: a search is active when the trimmed text is not empty or
      a tag is selected; the parent gets the trimmed text and the current choices.
    */
    method HandleSearch() returns (request: SearchRequest)
      modifies this
      ensures hasActiveSearch <==> !AllWhitespace(search) || selectedTags != []
      ensures request == SearchRequest(Trim(search), selectedTags, matchAll)
      ensures search == old(search) && tags == old(tags) && selectedTags == old(selectedTags)
      ensures showTags == old(showTags) && matchAll == old(matchAll)
    {
      hasActiveSearch := |Trim(search)| > 0 || |selectedTags| > 0;
      request := SearchRequest(Trim(search), selectedTags, matchAll);
    }

    /** `handleCancel()`: every field but the known tags back to its initial value. */
    method HandleCancel() returns (request: SearchRequest)
      modifies this
      ensures request == SearchRequest("", [], false)
      ensures search == "" && selectedTags == [] && !showTags && !matchAll && !hasActiveSearch
      ensures tags == old(tags)
    {
      search := "";
      selectedTags := [];
      showTags := false;
      matchAll := false;
      hasActiveSearch := false;
      request := SearchRequest("", [], false);
    }
  }
}

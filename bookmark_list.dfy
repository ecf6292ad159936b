/**
  The bookmark list component: the fetched bookmarks, a loading flag, and the
  edit dialog with its selected bookmark, changed by the initial fetch and the
  delete, edit and open-edit handlers.
*/
module BookmarkListComponent {
  import opened Lists
  import opened Store

  /** `prev.filter((b) => b.id !== id)`. */
  function WithoutId(bookmarks: seq<Bookmark>, id: string): (r: seq<Bookmark>)
    ensures forall b :: b in r <==> b in bookmarks && b.id != id
    ensures forall k :: 0 <= k < |r| ==> r[k].id != id
  {
    Filter(bookmarks, IdIsNot(id))
  }

  function IdIsNot(id: string): Bookmark -> bool {
    (b: Bookmark) => b.id != id
  }

  /** Deleting keeps every other bookmark as many times as it was there. */
  lemma WithoutIdCount(bookmarks: seq<Bookmark>, id: string, b: Bookmark)
    ensures multiset(WithoutId(bookmarks, id))[b] == if b.id == id then 0 else multiset(bookmarks)[b]
  {
    FilterCount(bookmarks, IdIsNot(id), b);
  }

  /** Deleting keeps the relative order: it works piece by piece over any split of the list. */
  lemma WithoutIdAppend(xs: seq<Bookmark>, ys: seq<Bookmark>, id: string)
    ensures WithoutId(xs + ys, id) == WithoutId(xs, id) + WithoutId(ys, id)
  {
    FilterAppend(xs, ys, IdIsNot(id));
  }

  /** Deleting an id nobody has changes nothing. */
  lemma WithoutAbsentId(bookmarks: seq<Bookmark>, id: string)
    requires forall k :: 0 <= k < |bookmarks| ==> bookmarks[k].id != id
    ensures WithoutId(bookmarks, id) == bookmarks
  {
    FilterAll(bookmarks, IdIsNot(id));
  }

  /** `prev.map((b) => (b.id === bookmark.id ? bookmark : b))`. */
  function ReplaceById(bookmarks: seq<Bookmark>, updated: Bookmark): (r: seq<Bookmark>)
    ensures |r| == |bookmarks|
    ensures forall k :: 0 <= k < |r| ==> r[k].id == bookmarks[k].id
    ensures forall k :: 0 <= k < |r| ==> r[k] == (if bookmarks[k].id == updated.id then updated else bookmarks[k])
  {
    seq(|bookmarks|, k requires 0 <= k < |bookmarks| =>
      if bookmarks[k].id == updated.id then updated else bookmarks[k])
  }

  /** Replacing twice with the same bookmark is replacing once. */
  lemma ReplaceByIdIdempotent(bookmarks: seq<Bookmark>, updated: Bookmark)
    ensures ReplaceById(ReplaceById(bookmarks, updated), updated) == ReplaceById(bookmarks, updated)
  {
  }

  /** The updated bookmark is shown exactly when some bookmark had its id. */
  lemma ReplaceByIdShows(bookmarks: seq<Bookmark>, updated: Bookmark)
    ensures (exists k :: 0 <= k < |bookmarks| && bookmarks[k].id == updated.id) ==> updated in ReplaceById(bookmarks, updated)
    ensures (forall k :: 0 <= k < |bookmarks| ==> bookmarks[k].id != updated.id) ==> ReplaceById(bookmarks, updated) == bookmarks
  {
    var r := ReplaceById(bookmarks, updated);
    if exists k :: 0 <= k < |bookmarks| && bookmarks[k].id == updated.id {
      var k :| 0 <= k < |bookmarks| && bookmarks[k].id == updated.id;
      assert r[k] == updated;
    }
  }

  /** Position `k` holds the first bookmark with that id. */
  predicate FirstWithId(bookmarks: seq<Bookmark>, id: string, k: int) {
    0 <= k < |bookmarks| && bookmarks[k].id == id && forall j :: 0 <= j < k ==> bookmarks[j].id != id
  }

  /** `bookmarks.find((b) => b.id === id)`: the first bookmark with that id. */
  function FindById(bookmarks: seq<Bookmark>, id: string): (r: Option<Bookmark>)
    ensures r.None? <==> forall k :: 0 <= k < |bookmarks| ==> bookmarks[k].id != id
    ensures r.Some? ==> exists k :: FirstWithId(bookmarks, id, k) && bookmarks[k] == r.value
  {
    if bookmarks == [] then None
    else if bookmarks[0].id == id then
      assert FirstWithId(bookmarks, id, 0);
      Some(bookmarks[0])
    else
      var r := FindById(bookmarks[1..], id);
      if r.Some? then
        var k :| FirstWithId(bookmarks[1..], id, k) && bookmarks[1..][k] == r.value;
        assert FirstWithId(bookmarks, id, k + 1);
        r
      else r
  }

  /** How the initial `GET /api/bookmarks` ended. */
  datatype ListResponse =
    | FetchFailed                                 // a non-ok status or a thrown error
    | Listed(bookmarks: Option<seq<Bookmark>>)    // the `bookmarks` field, absent or null as `None`

  /** How the `PATCH` of an edit ended. */
  datatype EditResponse = EditFailed | Edited(bookmark: Bookmark)

  class BookmarkList {
    var bookmarks: seq<Bookmark>
    var loading: bool
    var editOpen: bool
    var selectedBookmark: Option<Bookmark>

    constructor()
      ensures bookmarks == [] && loading && !editOpen && selectedBookmark.None?
    {
      bookmarks := [];
      loading := true;
      editOpen := false;
      selectedBookmark := None;
    }

    /** The end of the initial fetch: `setBookmarks(data.bookmarks || [])` on success, and `loading` off either way. */
    method FinishLoading(response: ListResponse)
      modifies this
      ensures !loading
      ensures response.Listed? && response.bookmarks.Some? ==> bookmarks == response.bookmarks.value
      ensures response.Listed? && response.bookmarks.None? ==> bookmarks == []
      ensures response.FetchFailed? ==> bookmarks == old(bookmarks)
      ensures editOpen == old(editOpen) && selectedBookmark == old(selectedBookmark)
    {
      match response {
        case Listed(listed) =>
          bookmarks := if listed.Some? then listed.value else [];
        case FetchFailed =>
      }
      loading := false;
    }

    /** `handleDelete(id)`; `deleted` says whether the `DELETE` request answered ok. */
    method HandleDelete(id: string, deleted: bool)
      modifies this
      ensures deleted ==> bookmarks == WithoutId(old(bookmarks), id)
      ensures !deleted ==> bookmarks == old(bookmarks)
      ensures loading == old(loading) && editOpen == old(editOpen) && selectedBookmark == old(selectedBookmark)
    {
      if deleted {
        bookmarks := WithoutId(bookmarks, id);
      }
    }

    /**
      `handleEditSubmit(updated)`: nothing happens without an id; after an ok
      response the returned bookmark replaces those with its id and the dialog closes.
    */
    method HandleEditSubmit(id: Option<string>, response: EditResponse)
      modifies this
      ensures (id.None? || id.value == "" || response.EditFailed?) ==>
        bookmarks == old(bookmarks) && editOpen == old(editOpen) && selectedBookmark == old(selectedBookmark)
      ensures id.Some? && id.value != "" && response.Edited? ==>
        bookmarks == ReplaceById(old(bookmarks), response.bookmark) && !editOpen && selectedBookmark.None?
      ensures loading == old(loading)
    {
      if id.None? || id.value == "" {
        return;
      }
      match response {
        case EditFailed =>
        case Edited(bookmark) =>
          bookmarks := ReplaceById(bookmarks, bookmark);
          editOpen := false;
          selectedBookmark := None;
      }
    }

    /** `handleEdit(id)`: select the first bookmark with that id and open the dialog, if there is one. */
    method HandleEdit(id: string)
      modifies this
      ensures FindById(old(bookmarks), id).Some? ==>
        selectedBookmark == FindById(old(bookmarks), id) && editOpen
      ensures FindById(old(bookmarks), id).None? ==>
        selectedBookmark == old(selectedBookmark) && editOpen == old(editOpen)
      ensures bookmarks == old(bookmarks) && loading == old(loading)
    {
      var target := FindById(bookmarks, id);
      if target.Some? {
        selectedBookmark := target;
        editOpen := true;
      }
    }
  }
}

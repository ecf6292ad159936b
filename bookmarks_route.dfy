/**
  `/api/bookmarks`: `GET` lists the caller's bookmarks newest first; `POST`
  validates the four required fields by truthiness and inserts a row owned by
  the caller.
*/
module BookmarksRoute {
  import opened Text
  import opened Store
  import opened SearchRoute

  /** `GET`: 401 without a user, 500 when the query fails, otherwise the caller's rows newest first. */
  function ListBookmarks(auth: Option<string>, rows: seq<Bookmark>, outcome: Outcome)
    : (r: Reply<Option<seq<Bookmark>>>)
    ensures auth.None? ==> r == Unauthorized()
    ensures auth.Some? && outcome.Failed? ==>
      r == Error(500, "Failed to fetch bookmarks", Some(outcome.message))
    ensures auth.Some? && outcome.AnsweredNull? ==> r == Ok(None)
    ensures auth.Some? && outcome.Answered? ==> r.Ok? && r.body.Some?
    ensures r.Ok? && r.body.Some? ==> auth.Some? && outcome.Answered? && NewestFirst(r.body.value)
    ensures r.Ok? && r.body.Some? ==> multiset(r.body.value) == multiset(OwnedBy(rows, auth.value))
  {
    if auth.None? then Unauthorized()
    else
      match outcome
      case Failed(message) => Error(500, "Failed to fetch bookmarks", Some(message))
      case AnsweredNull => Ok(None)
      case Answered => Ok(Some(ByNewest(OwnedBy(rows, auth.value))))
  }

  /** A search without parameters answers exactly what the listing answers. */
  lemma SearchWithoutParamsIsListing(user: string, rows: seq<Bookmark>, outcome: Outcome)
    ensures Search(Some(user), SearchParams(None, None, None), rows, outcome) == ListBookmarks(Some(user), rows, outcome)
  {
    ParseQueryDefaults();
    NoConditionsKeepOwned(user, false, rows);
  }

  /** The JSON body of a `POST`; each field may be absent. A `user_id` field is accepted and ignored. */
  datatype CreateBody = CreateBody(
    url: Option<string>,
    title: Option<string>,
    summary: Option<string>,
    faviconUrl: Option<string>,
    tags: Option<seq<string>>,
    userId: Option<string>)

  /** JavaScript truthiness of a string field: present and not empty. */
  predicate Truthy(v: Option<string>) {
    v.Some? && NonEmpty(v.value)
  }

  /** The negation of `!url || !title || !summary || !favicon_url`. */
  predicate HasRequiredFields(body: CreateBody)
    ensures HasRequiredFields(body) <==>
      forall f :: f in [body.url, body.title, body.summary, body.faviconUrl] ==> f.Some? && f.value != ""
  {
    Truthy(body.url) && Truthy(body.title) && Truthy(body.summary) && Truthy(body.faviconUrl)
  }

  /** The values the store fills in on insert: the row id, its position and its creation time. */
  datatype Assigned = Assigned(id: string, position: int, createdAt: int)

  /** The row `insert` writes: the body's fields, `tags` as given, and the caller as owner. */
  function NewRow(user: string, body: CreateBody, stored: Assigned): (row: Bookmark)
    requires HasRequiredFields(body)
    ensures row.userId == user
    ensures row.url == body.url.value && row.title == body.title.value
    ensures row.summary == body.summary.value && row.faviconUrl == body.faviconUrl.value
    ensures row.tags == body.tags
    ensures row.url != "" && row.title != "" && row.summary != "" && row.faviconUrl != ""
  {
    Bookmark(stored.id, user, body.url.value, body.title.value, body.summary.value,
             body.faviconUrl.value, body.tags, stored.position, stored.createdAt)
  }

  /** The owner of a new row never depends on what the body claims. */
  lemma NewRowIgnoresBodyOwner(user: string, body: CreateBody, claimed: Option<string>, stored: Assigned)
    requires HasRequiredFields(body)
    ensures NewRow(user, body.(userId := claimed), stored) == NewRow(user, body, stored)
  {
  }

  /**
    `POST` over the table. `insertError` is the message of the error the insert
    came back with, if any.
  */
  method Create(table: Table, auth: Option<string>, body: CreateBody, stored: Assigned, insertError: Option<string>)
    returns (r: Reply<Bookmark>)
    modifies table
    ensures auth.None? ==> r == Unauthorized() && table.rows == old(table.rows)
    ensures auth.Some? && !HasRequiredFields(body) ==>
      r == Error(400, "Missing required fields: url, title, summary, favicon_url", None)
      && table.rows == old(table.rows)
    ensures auth.Some? && HasRequiredFields(body) && insertError.Some? ==>
      r == Error(500, "Internal Server Error", insertError) && table.rows == old(table.rows)
    ensures auth.Some? && HasRequiredFields(body) && insertError.None? ==>
      r == Ok(NewRow(auth.value, body, stored)) && table.rows == old(table.rows) + [r.body]
  {
    if auth.None? {
      return Unauthorized();
    }
    if !HasRequiredFields(body) {
      return Error(400, "Missing required fields: url, title, summary, favicon_url", None);
    }
    if insertError.Some? {
      return Error(500, "Internal Server Error", insertError);
    }
    var row := NewRow(auth.value, body, stored);
    table.rows := table.rows + [row];
    return Ok(row);
  }

  /** A bookmark just saved shows up in its owner's listing. */
  lemma SavedRowIsListed(user: string, rows: seq<Bookmark>, body: CreateBody, stored: Assigned)
    requires HasRequiredFields(body)
    ensures var row := NewRow(user, body, stored);
      var r := ListBookmarks(Some(user), rows + [row], Answered);
      r.Ok? && r.body.Some? && row in r.body.value
  {
    var row := NewRow(user, body, stored);
    var listed := ByNewest(OwnedBy(rows + [row], user));
    assert row in OwnedBy(rows + [row], user);
    assert row in multiset(listed);
  }

  /** Saving a bookmark never changes another user's listing. */
  lemma SavedRowInvisibleToOthers(user: string, other: string, rows: seq<Bookmark>, body: CreateBody,
                                  stored: Assigned, outcome: Outcome)
    requires HasRequiredFields(body) && other != user
    ensures ListBookmarks(Some(other), rows + [NewRow(user, body, stored)], outcome)
         == ListBookmarks(Some(other), rows, outcome)
  {
    var row := NewRow(user, body, stored);
    Lists.FilterAppend(rows, [row], Owner(other));
    assert OwnedBy([row], other) == [];
    assert OwnedBy(rows, other) + [] == OwnedBy(rows, other);
  }
}

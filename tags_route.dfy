/**
  `GET /api/bookmarks/tags`: every tag of the caller's bookmarks, flattened in
  row order and kept at its first occurrence.
*/
module TagsRoute {
  import opened Lists
  import opened Store

  /** `bookmark.tags ?? []`. */
  function TagsOf(b: Bookmark): seq<string> {
    if b.tags.Some? then b.tags.value else []
  }

  /** `rows.flatMap((bookmark) => bookmark.tags ?? [])`. */
  function Flatten(rows: seq<Bookmark>): (r: seq<string>)
    ensures r == [] <==> forall b :: b in rows ==> TagsOf(b) == []
  {
    if rows == [] then [] else TagsOf(rows[0]) + Flatten(rows[1..])
  }

  /** A tag is flattened exactly when some row carries it in a non-null tag column. */
  lemma {:induction false} FlattenMembers(rows: seq<Bookmark>)
    ensures forall t :: t in Flatten(rows) <==> exists b :: b in rows && b.tags.Some? && t in b.tags.value
  {
    if rows != [] {
      FlattenMembers(rows[1..]);
      assert forall b :: b in rows <==> b == rows[0] || b in rows[1..];
    }
  }

  /** Flattening follows the rows: the tags of earlier rows come first. */
  lemma {:induction false} FlattenAppend(xs: seq<Bookmark>, ys: seq<Bookmark>)
    ensures Flatten(xs + ys) == Flatten(xs) + Flatten(ys)
  {
    if xs == [] {
      assert xs + ys == ys;
    } else {
      calc {
        Flatten(xs + ys);
        { assert (xs + ys)[0] == xs[0] && (xs + ys)[1..] == xs[1..] + ys; }
        TagsOf(xs[0]) + Flatten(xs[1..] + ys);
        { FlattenAppend(xs[1..], ys); }
        TagsOf(xs[0]) + (Flatten(xs[1..]) + Flatten(ys));
        Flatten(xs) + Flatten(ys);
      }
    }
  }

  predicate Always(t: string) {
    true
  }

  /** `.filter((tag, index, self) => self.indexOf(tag) === index)` over the flattened tags. */
  function Distinct(tags: seq<string>): (r: seq<string>)
    ensures forall t :: t in r <==> t in tags
    ensures NoDup(r)
    ensures forall i, j :: 0 <= i < j < |r| ==> IndexOf(tags, r[i]) < IndexOf(tags, r[j])
  {
    FirstOccurrences(tags, Always)
  }

  /** The handler: 401 without a user, 500 when the query fails, `[]` for null data. */
  function ListTags(auth: Option<string>, rows: seq<Bookmark>, outcome: Outcome): (r: Reply<seq<string>>)
    ensures auth.None? ==> r == Unauthorized()
    ensures auth.Some? && outcome.Failed? ==> r == Error(500, "Failed to fetch tags", Some(outcome.message))
    ensures auth.Some? && outcome.AnsweredNull? ==> r == Ok([])
    ensures auth.Some? && outcome.Answered? ==> r.Ok?
    ensures r.Ok? ==> auth.Some? && !outcome.Failed? && NoDup(r.body)
    ensures r.Ok? && outcome.Answered? ==> forall t :: t in r.body <==>
      exists b :: b in rows && b.userId == auth.value && b.tags.Some? && t in b.tags.value
    ensures r.Ok? && outcome.Answered? ==> forall i, j :: 0 <= i < j < |r.body| ==>
      IndexOf(Flatten(OwnedBy(rows, auth.value)), r.body[i]) < IndexOf(Flatten(OwnedBy(rows, auth.value)), r.body[j])
  {
    if auth.None? then Unauthorized()
    else
      match outcome
      case Failed(message) => Error(500, "Failed to fetch tags", Some(message))
      case AnsweredNull => Ok([])
      case Answered =>
        FlattenMembers(OwnedBy(rows, auth.value));
        Ok(Distinct(Flatten(OwnedBy(rows, auth.value))))
  }

  /** A bookmark with a null tag column adds no tag. */
  lemma NullTagsAddNothing(user: string, rows: seq<Bookmark>, b: Bookmark)
    requires b.tags.None?
    ensures ListTags(Some(user), rows + [b], Answered) == ListTags(Some(user), rows, Answered)
  {
    FilterAppend(rows, [b], Owner(user));
    FlattenAppend(OwnedBy(rows, user), OwnedBy([b], user));
    assert Flatten(OwnedBy([b], user)) == [];
    assert Flatten(OwnedBy(rows, user)) + [] == Flatten(OwnedBy(rows, user));
  }

  /** Another user's bookmark never shows up in, or changes, the caller's tags. */
  lemma OtherUsersIgnored(user: string, rows: seq<Bookmark>, b: Bookmark)
    requires b.userId != user
    ensures ListTags(Some(user), rows + [b], Answered) == ListTags(Some(user), rows, Answered)
  {
    FilterAppend(rows, [b], Owner(user));
    assert OwnedBy([b], user) == [];
    assert OwnedBy(rows, user) + [] == OwnedBy(rows, user);
  }

  /** A new bookmark of the caller's keeps the known tags in place and appends its unseen ones. */
  lemma NewBookmarkExtends(user: string, rows: seq<Bookmark>, b: Bookmark)
    requires b.userId == user
    ensures ListTags(Some(user), rows, Answered).body <= ListTags(Some(user), rows + [b], Answered).body
  {
    FilterAppend(rows, [b], Owner(user));
    FlattenAppend(OwnedBy(rows, user), OwnedBy([b], user));
    FirstOccurrencesPrefix(Flatten(OwnedBy(rows, user)), Flatten(OwnedBy([b], user)), Always);
  }
}

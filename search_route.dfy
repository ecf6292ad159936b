/**
  `GET /api/bookmarks/search`: read the `search`, `match` and `tags` query
  parameters, keep the caller's rows that satisfy the text condition AND the tag
  condition, and return them newest first.
*/
module SearchRoute {
  import opened Text
  import opened Lists
  import opened Store

  /** `searchParams.get(name) || fallback`: an absent or empty parameter takes the fallback. */
  function Param(p: Option<string>, fallback: string): (r: string)
    ensures p.Some? && p.value != "" ==> r == p.value
    ensures p.None? || p.value == "" ==> r == fallback
    ensures fallback != "" ==> r != ""
  {
    if p.Some? && p.value != "" then p.value else fallback
  }

  /** The raw query parameters, each absent or present. */
  datatype SearchParams = SearchParams(search: Option<string>, matchMode: Option<string>, tags: Option<string>)

  /** What the handler builds its query from. */
  datatype Query = Query(search: string, matchAll: bool, tags: seq<string>)

  /** `tagsParam.split(',').map((tag) => tag.trim()).filter(Boolean)`. */
  function RequestTags(param: string): (r: seq<string>)
    ensures forall k :: 0 <= k < |r| ==> r[k] != "" && ',' !in r[k] && NoEdgeWhitespace(r[k])
    ensures forall t :: t in r <==> t in TrimEach(SplitOn(param, ',')) && t != ""
  {
    TrimmedPieces(param);
    var r := Filter(TrimEach(SplitOn(param, ',')), NonEmpty);
    assert forall k :: 0 <= k < |r| ==> r[k] in r;
    r
  }

  /** The trimmed pieces of the parameter hold no comma and no edge whitespace. */
  lemma TrimmedPieces(param: string)
    ensures forall t :: t in TrimEach(SplitOn(param, ',')) ==> ',' !in t && NoEdgeWhitespace(t)
  {
    var pieces := SplitOn(param, ',');
    var trimmed := TrimEach(pieces);
    SplitOnPieces(param, ',');
    forall k | 0 <= k < |trimmed| ensures ',' !in trimmed[k] && NoEdgeWhitespace(trimmed[k]) {
      var a :| OccursAt(pieces[k], trimmed[k], a);
      OccursAtChars(pieces[k], trimmed[k], a);
    }
  }

  /** The handler's reading of the parameters, with their defaults. */
  function ParseQuery(params: SearchParams): (q: Query)
    ensures q.search == (if params.search.Some? then params.search.value else "")
    ensures q.matchAll <==> params.matchMode == Some("all")
    ensures q.tags == RequestTags(if params.tags.Some? then params.tags.value else "")
  {
    Query(Param(params.search, ""), Param(params.matchMode, "any") == "all", RequestTags(Param(params.tags, "")))
  }

  /** Without parameters the query has no text, "any" matching and no tags. */
  lemma ParseQueryDefaults()
    ensures ParseQuery(SearchParams(None, None, None)) == Query("", false, [])
    ensures ParseQuery(SearchParams(Some(""), Some(""), Some(""))) == Query("", false, [])
  {
    assert SplitOn("", ',') == [""];
    assert TrimEach([""]) == [""];
  }

  /** Comma-separated well-formed tags come back as they were sent, duplicates included. */
  lemma {:induction false} RequestTagsOfJoin(tags: seq<string>)
    requires forall k :: 0 <= k < |tags| ==> tags[k] != "" && ',' !in tags[k] && NoEdgeWhitespace(tags[k])
    ensures RequestTags(Join(tags, [','])) == tags
  {
    if tags == [] {
      assert SplitOn("", ',') == [""];
      assert TrimEach([""]) == [""];
    } else {
      SplitOnJoin(tags, ',');
      assert TrimEach(tags) == tags;
      FilterAll(tags, NonEmpty);
    }
  }

  /** `title.ilike.%search%,summary.ilike.%search%`, applied only when `search` is non-empty. */
  predicate TextMatches(b: Bookmark, search: string)
    ensures TextMatches(b, search) <==>
      (search == ""
       || (exists i :: OccursAt(Lower(b.title), Lower(search), i))
       || (exists i :: OccursAt(Lower(b.summary), Lower(search), i)))
  {
    ContainsIffOccurs(Lower(b.title), Lower(search));
    ContainsIffOccurs(Lower(b.summary), Lower(search));
    search == ""
    || Contains(Lower(b.title), Lower(search))
    || Contains(Lower(b.summary), Lower(search))
  }

  /** The distinct values of a tag array. */
  function Elements(xs: seq<string>): set<string> {
    set t | t in xs
  }

  /**
    `contains('tags', tags)` when `match` is "all", otherwise `overlaps('tags', tags)`,
    applied only when there are tags; a null tag column satisfies neither.
  */
  predicate TagsMatch(rowTags: Option<seq<string>>, matchAll: bool, tags: seq<string>)
    ensures matchAll ==> (TagsMatch(rowTags, matchAll, tags) <==>
      tags == [] || (rowTags.Some? && Elements(tags) <= Elements(rowTags.value)))
    ensures !matchAll ==> (TagsMatch(rowTags, matchAll, tags) <==>
      tags == [] || (rowTags.Some? && Elements(tags) * Elements(rowTags.value) != {}))
  {
    var column := if rowTags.Some? then rowTags.value else [];
    OverlapIff(tags, column);
    SubsetIff(tags, column);
    tags == []
    || (rowTags.Some? &&
        if matchAll then forall t :: t in tags ==> t in rowTags.value
        else exists t :: t in tags && t in rowTags.value)
  }

  /** One array contains another exactly when its set of values includes the other's. */
  lemma SubsetIff(xs: seq<string>, ys: seq<string>)
    ensures (forall t :: t in xs ==> t in ys) <==> Elements(xs) <= Elements(ys)
  {
    if Elements(xs) <= Elements(ys) {
      forall t | t in xs ensures t in ys {
        assert t in Elements(xs);
      }
    }
  }

  /** Two arrays overlap exactly when their sets of values intersect. */
  lemma OverlapIff(xs: seq<string>, ys: seq<string>)
    ensures (exists t :: t in xs && t in ys) <==> Elements(xs) * Elements(ys) != {}
  {
    if exists t :: t in xs && t in ys {
      var t :| t in xs && t in ys;
      assert t in Elements(xs) * Elements(ys);
    }
  }

  /** The whole row condition: the caller's row, and the text condition, and the tag condition. */
  predicate Matches(b: Bookmark, user: string, q: Query)
    ensures Matches(b, user, q) ==> b.userId == user
    ensures q.search == "" && q.tags == [] ==> (Matches(b, user, q) <==> b.userId == user)
  {
    b.userId == user && TextMatches(b, q.search) && TagsMatch(b.tags, q.matchAll, q.tags)
  }

  function Matcher(user: string, q: Query): Bookmark -> bool {
    (b: Bookmark) => Matches(b, user, q)
  }

  /** The handler: 401 without a user, 500 when the query fails, otherwise the matching rows newest first. */
  function Search(auth: Option<string>, params: SearchParams, rows: seq<Bookmark>, outcome: Outcome)
    : (r: Reply<Option<seq<Bookmark>>>)
    ensures auth.None? ==> r == Unauthorized()
    ensures auth.Some? && outcome.Failed? ==>
      r == Error(500, "Failed to fetch bookmarks", Some(outcome.message))
    ensures auth.Some? && outcome.AnsweredNull? ==> r == Ok(None)
    ensures auth.Some? && outcome.Answered? ==> r.Ok? && r.body.Some?
    ensures r.Ok? && r.body.Some? ==> auth.Some? && outcome.Answered? && NewestFirst(r.body.value)
    ensures r.Ok? && r.body.Some? ==>
      forall b :: b in r.body.value <==> b in rows && Matches(b, auth.value, ParseQuery(params))
  {
    if auth.None? then Unauthorized()
    else
      match outcome
      case Failed(message) => Error(500, "Failed to fetch bookmarks", Some(message))
      case AnsweredNull => Ok(None)
      case Answered =>
        var found := Filter(rows, Matcher(auth.value, ParseQuery(params)));
        var sorted := ByNewest(found);
        assert forall b :: b in sorted <==> b in found by {
          forall b ensures b in sorted <==> b in found {
            assert b in sorted <==> b in multiset(sorted);
          }
        }
        Ok(Some(sorted))
  }

  /** A matching row is returned as many times as it is stored; no other row is returned. */
  lemma SearchCount(user: string, params: SearchParams, rows: seq<Bookmark>, b: Bookmark)
    ensures var r := Search(Some(user), params, rows, Answered);
      r.Ok? && r.body.Some? &&
      multiset(r.body.value)[b] == if Matches(b, user, ParseQuery(params)) then multiset(rows)[b] else 0
  {
    FilterCount(rows, Matcher(user, ParseQuery(params)), b);
  }

  /** Lower-casing the search text first changes nothing: the text condition ignores ASCII case. */
  lemma TextMatchesIgnoresCase(b: Bookmark, search: string)
    ensures TextMatches(b, Lower(search)) <==> TextMatches(b, search)
  {
    assert Lower(Lower(search)) == Lower(search);
    assert Lower(search) == "" <==> search == "";
  }

  /** With tags requested, every row matched in "all" mode is matched in "any" mode. */
  lemma AllNarrowsAny(rowTags: Option<seq<string>>, tags: seq<string>)
    requires tags != []
    ensures TagsMatch(rowTags, true, tags) ==> TagsMatch(rowTags, false, tags)
  {
    if TagsMatch(rowTags, true, tags) {
      assert tags[0] in tags;
    }
  }

  /** With a single requested tag the two modes agree. */
  lemma ModesAgreeOnOneTag(rowTags: Option<seq<string>>, t: string)
    ensures TagsMatch(rowTags, true, [t]) <==> TagsMatch(rowTags, false, [t])
  {
    if rowTags.Some? {
      assert (forall u :: u in [t] ==> u in rowTags.value) <==> t in rowTags.value;
      assert (exists u :: u in [t] && u in rowTags.value) <==> t in rowTags.value by {
        if t in rowTags.value {
          assert t in [t];
        }
      }
    }
  }

  /** A search without text and tags keeps exactly the caller's rows. */
  lemma NoConditionsKeepOwned(user: string, matchAll: bool, rows: seq<Bookmark>)
    ensures Filter(rows, Matcher(user, Query("", matchAll, []))) == OwnedBy(rows, user)
  {
    FilterSame(rows, Matcher(user, Query("", matchAll, [])), Owner(user));
  }
}

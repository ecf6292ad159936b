/**
  What a bookmark card shows of its summary and its tags: a summary longer than
  200 characters is cut to 200 and followed by "...", and each tag becomes a
  "#tag" badge, in list order.
*/
module BookmarkCard {
  import opened Store
  import BookmarksRoute

  const SummaryLimit: nat := 200
  const Ellipsis: string := "..."

  /** `summary.length > 200 ? summary.slice(0, 200) + "..." : summary`. */
  function DisplaySummary(summary: string): (d: string)
    ensures |summary| <= SummaryLimit ==> d == summary
    ensures |summary| > SummaryLimit ==> d == summary[..SummaryLimit] + Ellipsis
    ensures |d| <= SummaryLimit + |Ellipsis|
    ensures var n := if |summary| < SummaryLimit then |summary| else SummaryLimit;
      n <= |d| && d[..n] == summary[..n]
  {
    if |summary| > SummaryLimit then summary[..SummaryLimit] + Ellipsis else summary
  }

  /**
    The card shows the summary as it is exactly when it fits, or when it is 203
    characters long and already ends in "..." at the cut.
  */
  lemma DisplaySummaryUnchangedIff(summary: string)
    ensures DisplaySummary(summary) == summary <==>
      |summary| <= SummaryLimit || (|summary| == SummaryLimit + |Ellipsis| && summary[SummaryLimit..] == Ellipsis)
  {
    if |summary| > SummaryLimit {
      assert summary == summary[..SummaryLimit] + summary[SummaryLimit..];
      var d := DisplaySummary(summary);
      assert d[SummaryLimit..] == Ellipsis;
    }
  }

  /** `tags.map((tag) => "#" + tag)` on a tag list. */
  function Badges(tags: seq<string>): (badges: seq<string>)
    ensures |badges| == |tags|
    ensures forall i :: 0 <= i < |badges| ==> badges[i] == "#" + tags[i]
  {
    seq(|tags|, i requires 0 <= i < |tags| => "#" + tags[i])
  }

  /** Dropping each badge's "#" gives the tags back, duplicates and order included. */
  lemma BadgesInverse(tags: seq<string>)
    ensures var b := Badges(tags);
      |b| == |tags| && forall i :: 0 <= i < |b| ==> |b[i]| >= 1 && b[i][0] == '#' && b[i][1..] == tags[i]
  {
    var b := Badges(tags);
    forall i | 0 <= i < |b| ensures b[i][1..] == tags[i] {
      assert b[i] == "#" + tags[i];
    }
  }

  /** Different tag lists render different badges. */
  lemma BadgesInjective(a: seq<string>, b: seq<string>)
    requires Badges(a) == Badges(b)
    ensures a == b
  {
    BadgesInverse(a);
    BadgesInverse(b);
  }

  /**
    The badge row as the card computes it: `tags.map(...)` on the row's tag
    column. A null column makes the call throw, shown here as `None`.
  */
  function RenderBadgesAsWritten(tags: Option<seq<string>>): (r: Option<seq<string>>)
    ensures r.None? <==> tags.None?
    ensures r.Some? ==> r.value == Badges(tags.value)
  {
    if tags.None? then None else Some(Badges(tags.value))
  }

  /**
    A bookmark saved without a `tags` field has a null tag column, and its card
    cannot render its badges.
  */
  lemma SavedWithoutTagsBreaksCard(user: string, url: string, title: string, summary: string, favicon: string,
                                   stored: BookmarksRoute.Assigned)
    requires url != "" && title != "" && summary != "" && favicon != ""
    ensures var body := BookmarksRoute.CreateBody(Some(url), Some(title), Some(summary), Some(favicon), None, None);
      BookmarksRoute.HasRequiredFields(body)
      && RenderBadgesAsWritten(BookmarksRoute.NewRow(user, body, stored).tags).None?
  {
  }

  /** The badge row rendering a null column as no tags, the way the tag handler and form read it. */
  function RenderBadges(tags: Option<seq<string>>): (r: seq<string>)
    ensures tags.None? ==> r == []
    ensures tags.Some? ==> r == Badges(tags.value)
  {
    Badges(if tags.Some? then tags.value else [])
  }

  /** Every row renders, and where the card already rendered the result is the same. */
  lemma RenderBadgesTotal(tags: Option<seq<string>>)
    ensures RenderBadgesAsWritten(tags).Some? ==> RenderBadgesAsWritten(tags).value == RenderBadges(tags)
    ensures |RenderBadges(tags)| == if tags.Some? then |tags.value| else 0
  {
  }
}

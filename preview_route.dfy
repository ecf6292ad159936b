/**
  `POST /api/preview`: with a `url`, fetch a summary and the page, take the page
  title from the first match of `/<title>(.*?)<\/title>/i` (the url itself when
  there is none) and point the favicon at the url's origin.
*/
module PreviewRoute {
  import opened Text
  import opened Store

  const Open: string := "<title>"
  const Close: string := "</title>"

  /**
    `tag` (written in lower case) occurs at `i`, ignoring ASCII case. Under the
    `i` flag without `u` a non-ASCII character never matches an ASCII one, so
    for these two tags ASCII folding is the whole of the case rule.
  */
  predicate TagAt(html: string, i: int, tag: string) {
    0 <= i && i + |tag| <= |html| && Lower(html[i..i + |tag|]) == tag
  }

  /** No character of `html[a..b]` ends a line: `.` matches every one of them. */
  predicate NoTerminator(html: string, a: int, b: int) {
    0 <= a <= b <= |html| && forall m :: a <= m < b ==> !IsLineTerminator(html[m])
  }

  /** The pattern matches with `<title>` at `i` and `</title>` at `k`. */
  predicate MatchesAt(html: string, i: int, k: int) {
    TagAt(html, i, Open) && TagAt(html, k, Close) && NoTerminator(html, i + |Open|, k)
  }

  /** The lazy `(.*?)<\/title>` from `k`: the first `</title>` before any line terminator. */
  function CloseFrom(html: string, k: nat): (r: Option<nat>)
    requires k <= |html|
    ensures r.Some? ==> TagAt(html, r.value, Close) && NoTerminator(html, k, r.value)
    ensures r.Some? ==> forall m :: k <= m < r.value ==> !TagAt(html, m, Close)
    ensures r.None? ==> forall m :: NoTerminator(html, k, m) ==> !TagAt(html, m, Close)
    decreases |html| - k
  {
    if TagAt(html, k, Close) then Some(k)
    else if k == |html| || IsLineTerminator(html[k]) then None
    else CloseFrom(html, k + 1)
  }

  /** Where the match starts and where its `</title>` starts. */
  datatype Span = Span(open: nat, close: nat)

  /** The regex search from `i` on: the leftmost start with a match, and its shortest match. */
  function FindTitle(html: string, i: nat): (r: Option<Span>)
    requires i <= |html|
    ensures r.Some? ==> i <= r.value.open && MatchesAt(html, r.value.open, r.value.close)
    ensures r.Some? ==> forall k :: k < r.value.close ==> !MatchesAt(html, r.value.open, k)
    ensures r.Some? ==> forall j, k :: i <= j < r.value.open ==> !MatchesAt(html, j, k)
    ensures r.None? ==> forall j, k :: i <= j ==> !MatchesAt(html, j, k)
    decreases |html| - i
  {
    if i + |Open| > |html| then None
    else if TagAt(html, i, Open) then
      match CloseFrom(html, i + |Open|)
      case Some(k) => Some(Span(i, k))
      case None => FindTitle(html, i + 1)
    else FindTitle(html, i + 1)
  }

  /** The captured text holds no `</title>` in any case. */
  predicate NoCloseTag(t: string) {
    forall m :: 0 <= m <= |t| ==> !TagAt(t, m, Close)
  }

  /** `titleMatch ? titleMatch[1] : url`. */
  function Title(html: string, url: string): (t: string)
    ensures (forall i, k :: !MatchesAt(html, i, k)) ==> t == url
    ensures (exists i, k :: MatchesAt(html, i, k)) ==>
      (exists i, k :: MatchesAt(html, i, k) && t == html[i + |Open|..k]
        && (forall j, k' :: j < i ==> !MatchesAt(html, j, k'))
        && (forall k' :: k' < k ==> !MatchesAt(html, i, k')))
      && (forall c :: c in t ==> !IsLineTerminator(c))
      && NoCloseTag(t)
  {
    match FindTitle(html, 0)
    case None => url
    case Some(s) =>
      CaptureFree(html, s.open, s.close);
      html[s.open + |Open|..s.close]
  }

  /** The text captured by the shortest match holds no line terminator and no `</title>`. */
  lemma CaptureFree(html: string, open: nat, close: nat)
    requires MatchesAt(html, open, close)
    requires forall k :: k < close ==> !MatchesAt(html, open, k)
    ensures var t := html[open + |Open|..close];
      (forall c :: c in t ==> !IsLineTerminator(c)) && NoCloseTag(t)
  {
    var a := open + |Open|;
    var t := html[a..close];
    forall c | c in t ensures !IsLineTerminator(c) {
      var m :| 0 <= m < |t| && t[m] == c;
      assert t[m] == html[a + m];
    }
    forall m | 0 <= m <= |t| ensures !TagAt(t, m, Close) {
      if m + |Close| <= |t| {
        assert NoTerminator(html, a, a + m);
        assert !MatchesAt(html, open, a + m);
        TagAtInside(html, a, close, m);
      }
    }
  }

  /** A tag inside `html[a..b]` is a tag of `html`, shifted by `a`. */
  lemma TagAtInside(html: string, a: nat, b: nat, m: nat)
    requires a <= b <= |html| && m + |Close| <= b - a
    ensures TagAt(html[a..b], m, Close) <==> TagAt(html, a + m, Close)
  {
    var x := html[a..b][m..m + |Close|];
    var y := html[a + m..a + m + |Close|];
    forall i | 0 <= i < |x| ensures x[i] == y[i] {
      assert x[i] == html[a + m + i];
    }
    assert x == y;
  }

  /** `${origin}/favicon.ico`. */
  function FaviconUrl(origin: string): (f: string)
    ensures |f| == |origin| + 12
    ensures f[..|origin|] == origin && f[|origin|..] == "/favicon.ico"
  {
    origin + "/favicon.ico"
  }

  /** A step that may throw: a fetch, reading a body, or `new URL(url)`. */
  datatype Step<T> = Done(value: T) | Threw(message: string)

  datatype Preview = Preview(title: string, summary: string, faviconUrl: string)

  /**
    The handler. `request` is the parsed body's `url` field (or the error that
    parsing threw); `summary` and `page` are the two fetched texts, and `origin`
    is the url's origin.
  */
  function PreviewOf(request: Step<Option<string>>, summary: Step<string>, page: Step<string>, origin: Step<string>)
    : (r: Reply<Preview>)
    ensures request.Done? && (request.value.None? || request.value.value == "") ==>
      r == Error(400, "Missing URL", None)
    ensures r.Error? && r.status != 400 ==> r.status == 500 && r.message == "Failed to fetch preview"
    ensures r.Error? && r.status == 400 ==> request.Done? && (request.value.None? || request.value.value == "")
    ensures request.Threw? ==> r == Error(500, "Failed to fetch preview", Some(request.message))
    ensures request.Done? && request.value.Some? && request.value.value != "" ==>
      (summary.Threw? ==> r == Error(500, "Failed to fetch preview", Some(summary.message)))
      && (summary.Done? && page.Threw? ==> r == Error(500, "Failed to fetch preview", Some(page.message)))
      && (summary.Done? && page.Done? && origin.Threw? ==>
            r == Error(500, "Failed to fetch preview", Some(origin.message)))
    ensures r.Ok? <==> request.Done? && request.value.Some? && request.value.value != ""
                       && summary.Done? && page.Done? && origin.Done?
    ensures r.Ok? ==>
      r.body.title == Title(page.value, request.value.value)
      && r.body.summary == summary.value
      && r.body.faviconUrl == FaviconUrl(origin.value)
  {
    if request.Threw? then Error(500, "Failed to fetch preview", Some(request.message))
    else if request.value.None? || request.value.value == "" then Error(400, "Missing URL", None)
    else if summary.Threw? then Error(500, "Failed to fetch preview", Some(summary.message))
    else if page.Threw? then Error(500, "Failed to fetch preview", Some(page.message))
    else if origin.Threw? then Error(500, "Failed to fetch preview", Some(origin.message))
    else
      var url := request.value.value;
      Ok(Preview(Title(page.value, url), summary.value, FaviconUrl(origin.value)))
  }
}

# LinkLore bookmark logic in Dafny

LinkLore is a bookmark manager. Its route handlers read and write a hosted
`bookmarks` table scoped to the signed-in user, and its client components keep
small pieces of view state. This project models the deterministic logic of
those handlers and components and proves what they promise:

- the tag-string parser of the bookmark form, and the `", "` join that seeds it;
- the search handler: parameter defaults, the tag-parameter split, and the row
  predicate (case-insensitive text on title or summary, "all"/"any" tag
  matching, owner scoping, newest-first order);
- the tags handler: flatten every owned row's tags and keep first occurrences;
- the reorder handler: a method over the table applying owner-scoped position
  updates, with its 401/400/500 outcomes and no rollback;
- the list and create handlers of `/api/bookmarks` (create is a method that
  appends the inserted row to the table);
- the preview handler: the 400 for a missing url, the
  `/<title>(.*?)<\/title>/i` extraction with its url fallback, and the favicon
  address;
- the password rules of the auth form;
- the bookmark card's summary cut and tag badges;
- the `BookmarkList` and `SearchFilter` components, as classes whose methods
  update their state fields.

The store is a sequence of rows in scan order (`Store.Table` holds it for the
writing handlers). The signed-in user is an input (`Option<string>`). How each
query or fetch ended is also an input: rows, null data, or an error message.

Files, each one module:

- `text.dfy`: the JavaScript string operations used (`trim`, `split`, `join`,
  ASCII lower-casing, substring search).
- `lists.dfy`: the `filter` operation and the first-occurrence filter
  `xs.filter((x, i, self) => self.indexOf(x) === i)`.
- `store.dfy`: rows, replies, owner scoping and the `created_at` order.
- One file per core source file for everything else.

## Model

| member | source | states |
|---|---|---|
| Text.Trim | src/components/BookmarkForm.tsx:64 | the result has no leading or trailing whitespace and is a contiguous piece of the input with only whitespace before and after it, so inner whitespace stays; a trimmed string is unchanged; the result is empty exactly when the input is all whitespace |
| Text.TrimEach | src/app/api/bookmarks/search/route.ts:26 | `map(tag => tag.trim())`: one result per piece, each the trim of the piece at the same position |
| Text.ContainsIffOccurs | src/app/api/bookmarks/search/route.ts:35 | the substring test holds exactly when the needle occurs at some offset |
| Text.SplitOn | src/app/api/bookmarks/search/route.ts:25 | `split(',')` gives at least one piece, even for the empty input; its pieces and the join back are stated by the three lemmas below |
| Text.SplitOnPieces | src/app/api/bookmarks/search/route.ts:25 | no piece of `split(',')` contains a comma |
| Text.Join | src/components/BookmarkForm.tsx:46 | `join(sep)`: the first part begins the result; `JoinSplitOn` and `SplitOnJoin` relate it to the split |
| Text.JoinSplitOn | src/app/api/bookmarks/search/route.ts:25 | joining the pieces of a split with the separator restores the input |
| Text.SplitOnJoin | src/app/api/bookmarks/search/route.ts:25 | splitting a join of separator-free parts returns the parts |
| Lists.IndexOf | src/app/api/bookmarks/tags/route.ts:30 | `indexOf`: -1 exactly when absent; otherwise a position holding the element with no earlier one |
| Lists.FirstIndexIff | src/app/api/bookmarks/tags/route.ts:30 | `self.indexOf(x) === i` holds exactly when x does not occur before i |
| Lists.FirstOccurrencesUpToMembers | src/components/BookmarkForm.tsx:65 | the filter over a prefix keeps exactly the kept elements of that prefix |
| Lists.FirstOccurrences | src/components/BookmarkForm.tsx:65 | the first-occurrence filter keeps exactly the kept elements, without duplicates, ordered by first index, and nothing when no element is kept |
| Lists.FirstOccurrencesUpToNoDup | src/app/api/bookmarks/tags/route.ts:30 | no element is taken twice |
| Lists.FirstOccurrencesUpToOrdered | src/app/api/bookmarks/tags/route.ts:30 | elements are taken in increasing order of first index |
| Lists.FirstOccurrencesOfDistinct | src/components/BookmarkForm.tsx:65 | on a duplicate-free list whose elements are all kept, the filter is the identity |
| Lists.FirstOccurrencesIdempotent | src/components/BookmarkForm.tsx:65 | filtering twice equals filtering once |
| Lists.FirstOccurrencesPrefix | src/app/api/bookmarks/tags/route.ts:29-30 | appending elements keeps the earlier result as a prefix |
| Lists.Filter | src/app/api/bookmarks/search/route.ts:27 | `filter(p)`: an element is in the result exactly when it is in the input and satisfies p; no longer than the input |
| Lists.FilterCount | src/components/bookmark-list.tsx:58 | each element keeps its multiplicity when it passes, and has none otherwise |
| Lists.FilterAppend | src/components/bookmark-list.tsx:58 | filtering distributes over concatenation, so the relative order is kept |
| Lists.FilterAll | src/app/api/bookmarks/search/route.ts:27 | when every element passes, the filter is the identity |
| Lists.FilterNoDup | src/components/SearchFilter.tsx:39 | filtering keeps a list duplicate-free |
| Store.OwnedBy | src/app/api/bookmarks/route.ts:21 | `.eq('user_id', user)` keeps exactly the caller's rows |
| Store.OwnedByCount | src/app/api/bookmarks/route.ts:18-21 | each owned row keeps its multiplicity; other rows have none |
| Store.ByNewest | src/app/api/bookmarks/route.ts:22 | the result is ordered by `created_at` descending and is a permutation of the input |
| Store.InsertByNewest | src/app/api/bookmarks/route.ts:22 | inserting into an ordered list keeps it ordered and adds exactly that row |
| BookmarkForm.ParseTags | src/components/BookmarkForm.tsx:61-66 | every tag is non-empty and has no comma, no space and no edge whitespace; no duplicates; a tag is returned exactly when it is a non-empty trimmed piece; order of first occurrence |
| BookmarkForm.ParseTagsOfSeparators | src/components/BookmarkForm.tsx:63-65 | an input of only commas and spaces, or an empty one, gives no tags |
| BookmarkForm.SplitOnSeparatorRuns | src/components/BookmarkForm.tsx:63 | `split(/[, ]+/)` gives at least one piece; `SplitPiecesFree` and `SplitRebuilds` give what the pieces are |
| BookmarkForm.SplitPiecesFree | src/components/BookmarkForm.tsx:63 | no piece of `split(/[, ]+/)` holds a comma or a space |
| BookmarkForm.SplitRebuilds | src/components/BookmarkForm.tsx:63 | the pieces, with a non-empty run of commas and spaces put back between each two of them, give back the input, in order; with the three lemmas below, which make each run a maximal one, this fixes the pieces as those of `split(/[, ]+/)` |
| BookmarkForm.SplitFirstPiece | src/components/BookmarkForm.tsx:63 | the first piece is empty exactly when the input is empty or starts with a comma or space |
| BookmarkForm.SplitInteriorNonEmpty | src/components/BookmarkForm.tsx:63 | every piece other than the first and the last is non-empty, so two runs of separators never meet |
| BookmarkForm.SplitLastPiece | src/components/BookmarkForm.tsx:63 | the last piece is empty exactly when the input is empty or ends with a comma or space |
| BookmarkForm.TagInputSeed | src/components/BookmarkForm.tsx:46 | a missing or empty tag list seeds an empty box; one tag seeds exactly that tag; the first tag begins the box |
| BookmarkForm.SplitJoinedTags | src/components/BookmarkForm.tsx:63 | `split(/[, ]+/)` of non-empty separator-free tags joined by `", "` (the seed of line 46) gives the tags |
| BookmarkForm.ParseTagsOfSeed | src/components/BookmarkForm.tsx:61-66 | for distinct well-formed tags, parsing the box seeded at line 46 returns the tags in order |
| BookmarkForm.ParseTagsIdempotent | src/components/BookmarkForm.tsx:61-66 | parsing the `", "` join (line 51) of a parse changes nothing |
| BookmarkForm.ParseTagsOfNoTags | src/components/BookmarkForm.tsx:46 | a bookmark without tags seeds an empty box that parses to no tags |
| SearchRoute.Param | src/app/api/bookmarks/search/route.ts:20-22 | an absent or empty parameter takes the fallback; otherwise its value |
| SearchRoute.ParseQuery | src/app/api/bookmarks/search/route.ts:20-27 | stated on the raw parameters: the text is the `search` value or `""` when absent (an empty value and the default coincide); the mode is "all" exactly when `match` is present and equal to `"all"`; the tags are the request tags of the `tags` value, or of `""` when absent |
| SearchRoute.ParseQueryDefaults | src/app/api/bookmarks/search/route.ts:20-27 | absent or empty parameters give no text, "any" mode and no tags |
| SearchRoute.RequestTags | src/app/api/bookmarks/search/route.ts:24-27 | every request tag is non-empty, comma-free and trimmed; a value is a tag exactly when it is a non-empty trimmed piece |
| SearchRoute.RequestTagsOfJoin | src/app/api/bookmarks/search/route.ts:24-27 | comma-joined well-formed tags are parsed back unchanged, duplicates included |
| SearchRoute.TextMatches | src/app/api/bookmarks/search/route.ts:34-36 | the text condition holds exactly when the search text is empty or its lower-cased form occurs at some offset of the lower-cased title or summary |
| SearchRoute.TagsMatch | src/app/api/bookmarks/search/route.ts:38-42 | with no requested tags it holds; otherwise a null column fails, "all" is the array containment `@>` (every requested value is in the column) and "any" is the array overlap `&&` (the value sets intersect) |
| SearchRoute.Matches | src/app/api/bookmarks/search/route.ts:29-42 | a matching row is the caller's; with no text and no tags a row matches exactly when it is the caller's |
| SearchRoute.Search | src/app/api/bookmarks/search/route.ts:15-50 | 401 without a user; 500 "Failed to fetch bookmarks" with the error message; null data passed through; a signed-in caller whose query answered gets rows; those are newest first, and a row is returned exactly when it is stored, owned, and meets the text and tag conditions |
| SearchRoute.SearchCount | src/app/api/bookmarks/search/route.ts:29-44 | a matching row is returned as many times as it is stored; any other row is not returned |
| SearchRoute.TextMatchesIgnoresCase | src/app/api/bookmarks/search/route.ts:35 | the text condition gives the same answer for the search text and its lower-cased form |
| SearchRoute.AllNarrowsAny | src/app/api/bookmarks/search/route.ts:39-41 | with tags requested, a row matched in "all" mode is matched in "any" mode |
| SearchRoute.ModesAgreeOnOneTag | src/app/api/bookmarks/search/route.ts:39-41 | with one requested tag, the two modes agree |
| SearchRoute.NoConditionsKeepOwned | src/app/api/bookmarks/search/route.ts:29-42 | without text and tags, the search keeps exactly the caller's rows |
| TagsRoute.FlattenMembers | src/app/api/bookmarks/tags/route.ts:29 | a tag is flattened exactly when some row carries it in a non-null column |
| TagsRoute.FlattenAppend | src/app/api/bookmarks/tags/route.ts:29 | flattening follows row order |
| TagsRoute.Flatten | src/app/api/bookmarks/tags/route.ts:29 | `flatMap(bookmark => bookmark.tags ?? [])` is empty exactly when every row's tag column is null or empty; `FlattenMembers` and `FlattenAppend` give its members and order |
| TagsRoute.Distinct | src/app/api/bookmarks/tags/route.ts:30 | same tags, no duplicates, in first-occurrence order |
| TagsRoute.ListTags | src/app/api/bookmarks/tags/route.ts:14-32 | 401 without a user; 500 "Failed to fetch tags"; `[]` for null data; a signed-in caller whose query answered gets `Ok`, with no duplicates, a tag listed exactly when an owned row carries it, in first-occurrence order over the owned rows |
| TagsRoute.NullTagsAddNothing | src/app/api/bookmarks/tags/route.ts:29 | a row with a null tag column changes nothing |
| TagsRoute.OtherUsersIgnored | src/app/api/bookmarks/tags/route.ts:18-21 | another user's row changes nothing |
| TagsRoute.NewBookmarkExtends | src/app/api/bookmarks/tags/route.ts:29-30 | a new owned row keeps the earlier tag list as a prefix |
| ReorderRoute.SetPosition | src/app/api/bookmarks/reorder/route.ts:28-32 | one update writes only `position`, and only on the caller's rows with that id |
| ReorderRoute.Reorder | src/app/api/bookmarks/reorder/route.ts:14-47 | 401, 400 "Invalid payload" and 500 "Server error" leave the table unchanged; otherwise every update is applied in turn, skipping those that errored; 500 "Failed to update positions" if any errored, else the success message |
| ReorderRoute.ApplyUpdates | src/app/api/bookmarks/reorder/route.ts:26-35 | applying the updates keeps the number of rows; `ApplyUpdatesRow` states each row against the per-row reference |
| ReorderRoute.ApplyUpdatesRow | src/app/api/bookmarks/reorder/route.ts:26-35 | another user's row is untouched; an owned row keeps every field but `position`, which its last successful update decides |
| ReorderRoute.OtherUsersUntouched | src/app/api/bookmarks/reorder/route.ts:32 | rows of other users never change |
| ReorderRoute.UnnamedRowUnchanged | src/app/api/bookmarks/reorder/route.ts:31 | a row no update names is unchanged; naming a missing id is a silent no-op |
| ReorderRoute.SucceededUpdateApplied | src/app/api/bookmarks/reorder/route.ts:35-41 | with distinct ids, an update that succeeded stays applied whatever else failed (no rollback) |
| ReorderRoute.FailedUpdateSkipped | src/app/api/bookmarks/reorder/route.ts:35-37 | with distinct ids, an update that errored leaves its row as it was |
| BookmarksRoute.ListBookmarks | src/app/api/bookmarks/route.ts:6-32 | 401 without a user; 500 "Failed to fetch bookmarks"; null data passed through; a signed-in caller whose query answered gets rows, exactly the caller's rows, newest first |
| BookmarksRoute.SearchWithoutParamsIsListing | src/app/api/bookmarks/route.ts:18-22 | a search without parameters answers exactly what the listing answers |
| BookmarksRoute.HasRequiredFields | src/app/api/bookmarks/route.ts:51 | the body passes the check exactly when each of `url`, `title`, `summary` and `favicon_url` is present and not the empty string |
| BookmarksRoute.NewRow | src/app/api/bookmarks/route.ts:59-66 | the inserted row carries the body's four fields and `tags` as given, and the caller as owner |
| BookmarksRoute.NewRowIgnoresBodyOwner | src/app/api/bookmarks/route.ts:59-60 | the owner of the inserted row is the caller whatever `user_id` the body carries |
| BookmarksRoute.Create | src/app/api/bookmarks/route.ts:35-80 | 401, then 400 when a required field is missing or empty, then 500 "Internal Server Error" with the insert's message, each leaving the table unchanged; otherwise the row is appended and returned |
| BookmarksRoute.SavedRowIsListed | src/app/api/bookmarks/route.ts:59-66 | a saved bookmark shows up in its owner's `GET` listing |
| BookmarksRoute.SavedRowInvisibleToOthers | src/app/api/bookmarks/route.ts:18-22 | saving a bookmark never changes another user's listing |
| PreviewRoute.CloseFrom | src/app/api/preview/route.ts:21 | the lazy `(.*?)<\/title>` stops at the first closing tag and never crosses a line terminator |
| PreviewRoute.FindTitle | src/app/api/preview/route.ts:21 | the match found has the leftmost possible start and the shortest capture; none is found only when the pattern matches nowhere |
| PreviewRoute.Title | src/app/api/preview/route.ts:21-22 | with no match the title is the url; otherwise it is the capture of the match the regex finds (the leftmost start, then the nearest `</title>`) and holds no line terminator and no `</title>` |
| PreviewRoute.FaviconUrl | src/app/api/preview/route.ts:25-26 | the origin followed by `/favicon.ico` |
| PreviewRoute.PreviewOf | src/app/api/preview/route.ts:3-36 | 400 "Missing URL" exactly for an absent or empty url; a throw in parsing the body, then in the summary fetch, the page fetch or `new URL` gives 500 "Failed to fetch preview" with that step's message, in that order; success exactly when nothing threw, with the title, summary and favicon |
| AuthSchema.PasswordIssues | src/models/auth-schema.ts:5-10 | each rule's message is reported exactly when that rule fails, no other message appears, and the messages come in the schema's rule order (length, uppercase, digit, special); no message exactly when all four hold |
| AuthSchema.ReportsOfRules | src/models/auth-schema.ts:5-10 | for rules with distinct messages, a message is present exactly when its rule failed, nothing else is present, and no messages means no rule failed |
| AuthSchema.ReportsRanked | src/models/auth-schema.ts:5-10 | the failed rules' messages keep the order in which the rules are chained |
| AuthSchema.AcceptedExtends | src/models/auth-schema.ts:7-10 | appending characters to an accepted password keeps it accepted |
| AuthSchema.AlnumRejected | src/models/auth-schema.ts:10 | a password of only ASCII letters and digits is rejected for lack of a special character |
| BookmarkCard.DisplaySummary | src/components/BookmarkCard.tsx:88 | up to 200 characters are shown unchanged; longer summaries are cut to 200 and followed by "..."; never over 203 characters; always starts with the summary's first min(200, length) characters |
| BookmarkCard.DisplaySummaryUnchangedIff | src/components/BookmarkCard.tsx:88 | the summary is shown unchanged exactly when it fits, or is 203 characters ending in "..." at the cut |
| BookmarkCard.Badges | src/components/BookmarkCard.tsx:93-97 | one badge per tag, in order, each the tag prefixed with `#` |
| BookmarkCard.BadgesInverse | src/components/BookmarkCard.tsx:93-97 | stripping the `#` from each badge gives back the tags, duplicates included |
| BookmarkCard.BadgesInjective | src/components/BookmarkCard.tsx:93-97 | different tag lists render different badge rows |
| BookmarkCard.RenderBadgesAsWritten | src/components/BookmarkCard.tsx:93 | the badge row as written fails exactly when the tag column is null |
| BookmarkCard.SavedWithoutTagsBreaksCard | src/app/api/bookmarks/route.ts:59-66 | a valid `POST` body without `tags` stores a row whose card cannot render its badges |
| BookmarkCard.RenderBadges | src/components/BookmarkCard.tsx:93-97 | a null column renders no badges; otherwise one badge per tag |
| BookmarkCard.RenderBadgesTotal | src/components/BookmarkCard.tsx:93-97 | the corrected row agrees with the written one wherever that one renders, and has one badge per stored tag |
| BookmarkListComponent.WithoutId | src/components/bookmark-list.tsx:58 | no element with the deleted id remains, and every other element stays |
| BookmarkListComponent.WithoutIdCount | src/components/bookmark-list.tsx:58 | every other bookmark keeps its multiplicity |
| BookmarkListComponent.WithoutIdAppend | src/components/bookmark-list.tsx:58 | deleting works piece by piece, so relative order is kept |
| BookmarkListComponent.WithoutAbsentId | src/components/bookmark-list.tsx:58 | deleting an id that is not present changes nothing |
| BookmarkListComponent.ReplaceById | src/components/bookmark-list.tsx:122-124 | same length and ids; elements with the returned id are replaced and the others are unchanged |
| BookmarkListComponent.ReplaceByIdIdempotent | src/components/bookmark-list.tsx:122-124 | replacing twice with the same bookmark is replacing once |
| BookmarkListComponent.ReplaceByIdShows | src/components/bookmark-list.tsx:122-124 | the edited bookmark is shown exactly when its id was present; otherwise the list is unchanged |
| BookmarkListComponent.FindById | src/components/bookmark-list.tsx:138 | `find` returns the first bookmark with the id, and nothing exactly when none has it |
| BookmarkListComponent.BookmarkList.constructor | src/components/bookmark-list.tsx:18-22 | no bookmarks, loading, dialog closed, nothing selected |
| BookmarkListComponent.BookmarkList.FinishLoading | src/components/bookmark-list.tsx:24-50 | loading ends either way; the list becomes the fetched bookmarks, or `[]` when the field is missing; a failed fetch keeps the list |
| BookmarkListComponent.BookmarkList.HandleDelete | src/components/bookmark-list.tsx:52-64 | an ok delete removes the id; a failed one changes nothing; other fields are unchanged |
| BookmarkListComponent.BookmarkList.HandleEditSubmit | src/components/bookmark-list.tsx:99-133 | no id or a failed response changes nothing; an ok response replaces by id, closes the dialog and clears the selection |
| BookmarkListComponent.BookmarkList.HandleEdit | src/components/bookmark-list.tsx:137-143 | selects the first bookmark with the id and opens the dialog; with none, nothing changes |
| SearchFilterComponent.Toggled | src/components/SearchFilter.tsx:37-41 | the tag's membership flips and every other tag's stays; an unselected tag is appended at the end |
| SearchFilterComponent.ToggledCount | src/components/SearchFilter.tsx:39 | removing a tag keeps every other tag as many times as it was selected |
| SearchFilterComponent.ToggledRemovesOne | src/components/SearchFilter.tsx:39 | in a duplicate-free selection, removing a tag cuts out exactly its position and keeps the others in order |
| SearchFilterComponent.ToggledNoDup | src/components/SearchFilter.tsx:39 | toggling keeps the selection duplicate-free |
| SearchFilterComponent.ToggledTwice | src/components/SearchFilter.tsx:39 | toggling an unselected tag twice restores the exact selection |
| SearchFilterComponent.SearchFilter.constructor | src/components/SearchFilter.tsx:15-20 | every field at its initial value |
| SearchFilterComponent.SearchFilter.LoadTags | src/components/SearchFilter.tsx:22-35 | the known tags become the response's tags, or `[]` when missing; a throw keeps them; nothing else changes |
| SearchFilterComponent.SearchFilter.SetSearch | src/components/SearchFilter.tsx:67 | only the text changes |
| SearchFilterComponent.SearchFilter.ToggleTag | src/components/SearchFilter.tsx:37-41 | the selection becomes its toggle; nothing else changes |
| SearchFilterComponent.SearchFilter.SetMatchAll | src/components/SearchFilter.tsx:99 | only the match-all switch changes |
| SearchFilterComponent.SearchFilter.ToggleShowTags | src/components/SearchFilter.tsx:71 | `showTags` flips and nothing else changes |
| SearchFilterComponent.SearchFilter.HandleSearch | src/components/SearchFilter.tsx:43-50 | a search is active exactly when the trimmed text is non-empty or a tag is selected; the parent gets the trimmed text, the selection and the mode; the inputs are unchanged |
| SearchFilterComponent.SearchFilter.HandleCancel | src/components/SearchFilter.tsx:52-59 | every field but the known tags returns to its initial value, and the parent gets `("", [], false)` |

## Left out

- I/O is not modelled: the database client, cookies, `fetch`, `req.json()`
  and toasts. Authentication is an input (`Option<string>`). How each query,
  update or fetch ended is also an input.
- The auth routes (login, signup, logout, me), the `[id]` route, pages,
  presentational components, JSX rendering and form plumbing are not modelled.
  The commented-out earlier versions in the core files are not modelled either.
- SearchRoute.TagsMatch: `contains` and `overlaps` are modelled as plain
  string equality of tags. The client library sends the requested tags as an
  unquoted array literal, so a requested tag spelt `null` in any case becomes
  an SQL NULL element (no row matches it in "all" mode, and "any" mode ignores
  it), and a tag holding `"`, `\`, `{` or `}` makes the literal malformed and
  the query fail. Neither is modelled.
- SearchRoute.TextMatches: Postgres `ilike` is modelled as a plain
  case-insensitive substring test. It does not model `%` and `_` inside the
  search text acting as wildcards, nor `*`, which the `.ilike.` filter syntax
  accepts as an alias of `%`, nor the backslash, LIKE's default escape
  character. It also does not model a comma or
  parenthesis in the search text breaking the `or(...)` filter string.
- Text.Lower: only ASCII letters are folded. The database's and the regex
  engine's case folding of other letters is not modelled.
- Strings are sequences of characters. Lengths in `summary.length` and the
  password minimum count characters, not UTF-16 code units.
- ReorderRoute.Reorder: the updates run concurrently under `Promise.all`. The
  model applies them in payload order. With duplicate ids the later update
  wins; the real outcome for duplicate ids is left open, so the per-update
  lemmas assume distinct ids.
- ReorderRoute.Reorder: an element of `updates` that is not an object with a
  string `id` and a number `position` is not modelled.
- Store.ByNewest: rows with equal `created_at` keep their scan order here. The
  database leaves their order open.
- BookmarksRoute.Create: a `req.json()` that throws is outside the handler's
  `try` and escapes it; this is not modelled. A JSON value that is not a string
  in a required field is not modelled either. The database assigns the id,
  `position` and `created_at` values; they are an input (`Assigned`). An
  omitted `tags` field is assumed to be stored as a null column, that is, the
  column is assumed to have no default; no schema is part of this model.
- PreviewRoute.PreviewOf: the url's origin (`new URL(url).origin`) and the two
  fetched texts are inputs; each may have thrown. `encodeURIComponent` and the
  summariser address are not modelled.
- The zod email and url validators are not modelled; neither is
  `formatDistanceToNow`.
- The client-side drag-and-drop reorder computation is not part of this model.

## Findings

| source | as written | input that shows it | evidently intended | confidence | as-written member | corrected member |
|---|---|---|---|---|---|---|
| src/components/BookmarkCard.tsx:93 | `tags.map(...)` on the row's tag column, which is null for a row stored without tags if the column has no default (no schema is part of this model) | a `POST /api/bookmarks` body with url, title, summary and favicon_url but no `tags` stores a row whose tag column is then null; its card then calls `map` on null | a missing tag list renders no badges, as the tags handler (`bookmark.tags ?? []`) and the form (`tags ?? []`) already treat it | low, not executed | BookmarkCard.RenderBadgesAsWritten, BookmarkCard.SavedWithoutTagsBreaksCard | BookmarkCard.RenderBadges, BookmarkCard.RenderBadgesTotal |

/**
  The hosted `bookmarks` table as the handlers see it: a sequence of rows in the
  order the store scans them, the owner filter every query applies
  (`.eq('user_id', user.id)`), the `order('created_at', { ascending: false })`
  sort, and the shape of the handlers' JSON responses.
*/
module Store {
  import opened Lists

  datatype Option<T> = None | Some(value: T)

  /** One row of the `bookmarks` table; `tags` is a nullable text array. */
  datatype Bookmark = Bookmark(
    id: string,
    userId: string,
    url: string,
    title: string,
    summary: string,
    faviconUrl: string,
    tags: Option<seq<string>>,
    position: int,
    createdAt: int)

  /** How a query came back: with rows, with a null `data`, or with an error and its message. */
  datatype Outcome = Answered | AnsweredNull | Failed(message: string)

  /** A handler's response: status 200 with a body, or an error status with a message and detail. */
  datatype Reply<T> = Ok(body: T) | Error(status: int, message: string, detail: Option<string>)
  {
    function Status(): int {
      if Ok? then 200 else status
    }
  }

  /** The 401 every handler returns when `auth.getUser()` yields an error or no user. */
  function Unauthorized<T>(): (r: Reply<T>)
    ensures r.Status() == 401
  {
    Error(401, "Unauthorized", None)
  }

  /** `.eq('user_id', user)`: the caller's rows, in scan order. */
  function OwnedBy(rows: seq<Bookmark>, user: string): (r: seq<Bookmark>)
    ensures forall b :: b in r <==> b in rows && b.userId == user
  {
    Filter(rows, Owner(user))
  }

  function Owner(user: string): Bookmark -> bool {
    (row: Bookmark) => row.userId == user
  }

  /** Every owned row is returned as many times as it is stored, and no other row. */
  lemma OwnedByCount(rows: seq<Bookmark>, user: string, b: Bookmark)
    ensures multiset(OwnedBy(rows, user))[b] == if b.userId == user then multiset(rows)[b] else 0
  {
    FilterCount(rows, Owner(user), b);
  }

  /** Ordered by `created_at`, newest first. */
  predicate NewestFirst(rows: seq<Bookmark>) {
    forall i, j :: 0 <= i < j < |rows| ==> rows[i].createdAt >= rows[j].createdAt
  }

  function InsertByNewest(b: Bookmark, rows: seq<Bookmark>): (r: seq<Bookmark>)
    requires NewestFirst(rows)
    ensures NewestFirst(r)
    ensures multiset(r) == multiset(rows) + multiset{b}
    ensures r[0] == b || (rows != [] && r[0] == rows[0])
  {
    if rows == [] || b.createdAt >= rows[0].createdAt then
      PrependNewest(b, rows);
      [b] + rows
    else
      assert rows == [rows[0]] + rows[1..];
      var rest := InsertByNewest(b, rows[1..]);
      PrependNewest(rows[0], rest);
      [rows[0]] + rest
  }

  /** A row no older than the head of an ordered list may go in front of it. */
  lemma PrependNewest(x: Bookmark, rest: seq<Bookmark>)
    requires NewestFirst(rest)
    requires rest == [] || x.createdAt >= rest[0].createdAt
    ensures NewestFirst([x] + rest)
  {
    var r := [x] + rest;
    forall i, j | 0 <= i < j < |r| ensures r[i].createdAt >= r[j].createdAt {
      assert r[j] == rest[j - 1];
      if i > 0 {
        assert r[i] == rest[i - 1];
      }
    }
  }

  /**
    `.order('created_at', { ascending: false })`: the same rows, newest first. Rows
    with equal timestamps keep their scan order here; the store leaves that open.
  */
  function ByNewest(rows: seq<Bookmark>): (r: seq<Bookmark>)
    ensures NewestFirst(r)
    ensures multiset(r) == multiset(rows)
  {
    if rows == [] then []
    else
      assert rows == [rows[0]] + rows[1..];
      InsertByNewest(rows[0], ByNewest(rows[1..]))
  }

  /** The `bookmarks` table, which the writing handlers update in place. */
  class Table {
    var rows: seq<Bookmark>

    constructor(initial: seq<Bookmark>)
      ensures rows == initial
    {
      rows := initial;
    }
  }
}

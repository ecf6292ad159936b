/**
  `PATCH /api/bookmarks/reorder`: for each `{ id, position }` of the payload, one
  `update({ position }).eq('id', id).eq('user_id', user)` on the table. Every
  update is issued; an update that errors changes nothing, the others stay
  applied, and any error makes the whole request answer 500.
*/
module ReorderRoute {
  import opened Store

  datatype PositionUpdate = PositionUpdate(id: string, position: int)

  /** What `await req.json()` yields for the `updates` field. */
  datatype ReorderBody =
    | Updates(updates: seq<PositionUpdate>)
    | NotAnArray
    | Unparseable(message: string)

  /** The row is the caller's and carries the update's id. */
  predicate Targets(row: Bookmark, user: string, id: string) {
    row.id == id && row.userId == user
  }

  /** One update statement: every owned row with the id gets the new position. */
  function SetPosition(rows: seq<Bookmark>, user: string, u: PositionUpdate): (r: seq<Bookmark>)
    ensures |r| == |rows|
    ensures forall k :: 0 <= k < |r| ==> r[k] == rows[k].(position := r[k].position)
    ensures forall k :: 0 <= k < |r| && Targets(rows[k], user, u.id) ==> r[k].position == u.position
    ensures forall k :: 0 <= k < |r| && !Targets(rows[k], user, u.id) ==> r[k] == rows[k]
  {
    seq(|rows|, k requires 0 <= k < |rows| =>
      if Targets(rows[k], user, u.id) then rows[k].(position := u.position) else rows[k])
  }

  /** The table after the first `n` updates, those whose index is in `failed` having no effect. */
  function ApplyUpdates(rows: seq<Bookmark>, user: string, updates: seq<PositionUpdate>, failed: set<int>, n: nat)
    : (r: seq<Bookmark>)
    requires n <= |updates|
    ensures |r| == |rows|
  {
    if n == 0 then rows
    else
      var before := ApplyUpdates(rows, user, updates, failed, n - 1);
      if n - 1 in failed then before else SetPosition(before, user, updates[n - 1])
  }

  /**
    Reference definition, one row at a time: the position of the last successful
    update among the first `n` that names `id`, or `current` when there is none.
  */
  function LastPosition(updates: seq<PositionUpdate>, failed: set<int>, id: string, n: nat, current: int): int
    requires n <= |updates|
  {
    if n == 0 then current
    else if n - 1 !in failed && updates[n - 1].id == id then updates[n - 1].position
    else LastPosition(updates, failed, id, n - 1, current)
  }

  /** Some update among all of them errored: `results.some((res) => res.error)`. */
  predicate AnyFailed(updates: seq<PositionUpdate>, failed: set<int>) {
    exists i :: 0 <= i < |updates| && i in failed
  }

  /**
    The handler over the table. `failed` holds the indices of the updates whose
    statement came back with an error.
  */
  method Reorder(table: Table, auth: Option<string>, body: ReorderBody, failed: set<int>)
    returns (r: Reply<string>)
    modifies table
    ensures auth.None? ==> r == Unauthorized() && table.rows == old(table.rows)
    ensures auth.Some? && body.NotAnArray? ==>
      r == Error(400, "Invalid payload", None) && table.rows == old(table.rows)
    ensures auth.Some? && body.Unparseable? ==>
      r == Error(500, "Server error", Some(body.message)) && table.rows == old(table.rows)
    ensures auth.Some? && body.Updates? ==>
      table.rows == ApplyUpdates(old(table.rows), auth.value, body.updates, failed, |body.updates|)
    ensures auth.Some? && body.Updates? && AnyFailed(body.updates, failed) ==>
      r == Error(500, "Failed to update positions", None)
    ensures auth.Some? && body.Updates? && !AnyFailed(body.updates, failed) ==>
      r == Ok("Order updated successfully")
  {
    if auth.None? {
      return Unauthorized();
    }
    var user := auth.value;
    match body {
      case Unparseable(message) =>
        return Error(500, "Server error", Some(message));
      case NotAnArray =>
        return Error(400, "Invalid payload", None);
      case Updates(updates) =>
        var hasError := false;
        var i := 0;
        while i < |updates|
          invariant 0 <= i <= |updates|
          invariant table.rows == ApplyUpdates(old(table.rows), user, updates, failed, i)
          invariant hasError <==> exists j :: 0 <= j < i && j in failed
        {
          if i in failed {
            hasError := true;
          } else {
            table.rows := SetPosition(table.rows, user, updates[i]);
          }
          i := i + 1;
        }
        if hasError {
          return Error(500, "Failed to update positions", None);
        }
        return Ok("Order updated successfully");
    }
  }

  /**
    What the updates do to each row: a row of another user is untouched, and a
    row of the caller's keeps every field but `position`, which is its last
    successful update's.
  */
  lemma {:induction false} ApplyUpdatesRow(rows: seq<Bookmark>, user: string, updates: seq<PositionUpdate>,
                                          failed: set<int>, n: nat, k: nat)
    requires n <= |updates| && k < |rows|
    ensures var after := ApplyUpdates(rows, user, updates, failed, n)[k];
      if rows[k].userId == user
      then after == rows[k].(position := LastPosition(updates, failed, rows[k].id, n, rows[k].position))
      else after == rows[k]
  {
    if n > 0 {
      ApplyUpdatesRow(rows, user, updates, failed, n - 1, k);
    }
  }

  /** Rows of other users never change. */
  lemma OtherUsersUntouched(rows: seq<Bookmark>, user: string, updates: seq<PositionUpdate>, failed: set<int>, k: nat)
    requires k < |rows| && rows[k].userId != user
    ensures ApplyUpdates(rows, user, updates, failed, |updates|)[k] == rows[k]
  {
    ApplyUpdatesRow(rows, user, updates, failed, |updates|, k);
  }

  /** A position the updates never name stays where it was. */
  lemma {:induction false} LastPositionUnnamed(updates: seq<PositionUpdate>, failed: set<int>, id: string, n: nat, current: int)
    requires n <= |updates|
    requires forall i :: 0 <= i < n ==> updates[i].id != id
    ensures LastPosition(updates, failed, id, n, current) == current
  {
    if n > 0 {
      LastPositionUnnamed(updates, failed, id, n - 1, current);
    }
  }

  /** A row whose id no update names is unchanged, whatever its owner. */
  lemma UnnamedRowUnchanged(rows: seq<Bookmark>, user: string, updates: seq<PositionUpdate>, failed: set<int>, k: nat)
    requires k < |rows|
    requires forall i :: 0 <= i < |updates| ==> updates[i].id != rows[k].id
    ensures ApplyUpdates(rows, user, updates, failed, |updates|)[k] == rows[k]
  {
    ApplyUpdatesRow(rows, user, updates, failed, |updates|, k);
    LastPositionUnnamed(updates, failed, rows[k].id, |updates|, rows[k].position);
  }

  /** The last successful update naming an id decides that id's position. */
  lemma {:induction false} LastPositionOfLast(updates: seq<PositionUpdate>, failed: set<int>, i: nat, n: nat, current: int)
    requires i < n <= |updates| && i !in failed
    requires forall j :: i < j < n && j !in failed ==> updates[j].id != updates[i].id
    ensures LastPosition(updates, failed, updates[i].id, n, current) == updates[i].position
  {
    if n - 1 != i {
      LastPositionOfLast(updates, failed, i, n - 1, current);
    }
  }

  /**
    No rollback: with distinct ids, every update that did not error is applied to
    the caller's row with that id, whichever other updates failed.
  */
  lemma SucceededUpdateApplied(rows: seq<Bookmark>, user: string, updates: seq<PositionUpdate>, failed: set<int>,
                               i: nat, k: nat)
    requires i < |updates| && i !in failed && k < |rows|
    requires forall a, b :: 0 <= a < b < |updates| ==> updates[a].id != updates[b].id
    requires Targets(rows[k], user, updates[i].id)
    ensures ApplyUpdates(rows, user, updates, failed, |updates|)[k] == rows[k].(position := updates[i].position)
  {
    ApplyUpdatesRow(rows, user, updates, failed, |updates|, k);
    LastPositionOfLast(updates, failed, i, |updates|, rows[k].position);
  }

  /** An update that errored leaves the position it named alone, with distinct ids. */
  lemma FailedUpdateSkipped(rows: seq<Bookmark>, user: string, updates: seq<PositionUpdate>, failed: set<int>,
                            i: nat, k: nat)
    requires i < |updates| && i in failed && k < |rows|
    requires forall a, b :: 0 <= a < b < |updates| ==> updates[a].id != updates[b].id
    requires rows[k].id == updates[i].id
    ensures ApplyUpdates(rows, user, updates, failed, |updates|)[k] == rows[k]
  {
    ApplyUpdatesRow(rows, user, updates, failed, |updates|, k);
    FailedOnlyNamer(updates, failed, i, |updates|, rows[k].position);
  }

  lemma {:induction false} FailedOnlyNamer(updates: seq<PositionUpdate>, failed: set<int>, i: nat, n: nat, current: int)
    requires i < |updates| && i in failed && n <= |updates|
    requires forall a, b :: 0 <= a < b < |updates| ==> updates[a].id != updates[b].id
    ensures LastPosition(updates, failed, updates[i].id, n, current) == current
  {
    if n > 0 {
      FailedOnlyNamer(updates, failed, i, n - 1, current);
      assert n - 1 != i ==> updates[n - 1].id != updates[i].id;
    }
  }
}

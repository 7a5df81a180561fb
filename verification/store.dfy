/**
 * The `sessions` table as state, and the operations of both front ends that
 * read or change it.  `rows` holds the table in storage order; each SQL
 * statement is one atomic step.  Timestamps and the working directory are
 * passed in by the caller (the clock and the process are outside the model).
 */
module Store {
  import opened Wrappers
  import opened Ordering
  import opened SqlLike
  import opened Sessions
  import opened Table
  import opened Identifier
  import opened Resolver

  /** What `delete_session` reports to the user. */
  datatype DeleteReport =
    | RemovedRow(session: Session)   // positional delete: "Deleted: <title> (<id prefix>...)"
    | RemovedCount(count: nat)       // "Deleted <count> session(s)."
    | IndexOutOfRange                // "Index <n> out of range."
    | NoSessionFound                 // "No session found for '<identifier>'."

  /**
   * The effect of deleting by `identifier` on the table `before`: a position
   * removes exactly the row shown there, by its id; otherwise an exact-id
   * delete, and only when it removed nothing, the `%identifier%` delete.
   */
  ghost predicate DeleteEffect(d: Dialect, identifier: string, before: seq<Session>,
                               after: seq<Session>, report: DeleteReport)
  {
    match Position(d, identifier)
    case Some(n) => PositionalDeleteEffect(n, before, after, report)
    case None => IdDeleteEffect(identifier, before, after, report)
  }

  /** Deleting the row shown at 1-based position `n`. */
  ghost predicate PositionalDeleteEffect(n: nat, before: seq<Session>, after: seq<Session>, report: DeleteReport)
  {
    if 1 <= n <= |before| then
      report.RemovedRow? && AtPosition(before, n, report.session)
      && after == RemoveId(before, report.session.id)
    else
      report == IndexOutOfRange && after == before
  }

  /** Deleting by exact id, falling back to `%identifier%` when nothing was removed. */
  ghost predicate IdDeleteEffect(identifier: string, before: seq<Session>, after: seq<Session>, report: DeleteReport)
  {
    if HasId(before, identifier) then
      report == RemovedCount(1) && after == RemoveId(before, identifier)
    else
      after == RemoveIdLike(before, Pattern(identifier))
      && report == (if |after| < |before| then RemovedCount(|before| - |after|) else NoSessionFound)
  }

  class SessionStore {
    /** The table, in storage order. */
    var rows: seq<Session>

    /** The primary key holds. */
    ghost predicate Valid()
      reads this
    {
      DistinctIds(rows)
    }

    /** A freshly created database: `CREATE TABLE IF NOT EXISTS` on an empty file. */
    constructor ()
      ensures Valid() && rows == []
    {
      rows := [];
    }

    /** `save_session`: `INSERT OR REPLACE` of the row (id, title, pwd, now). */
    method Save(id: string, title: string, pwd: string, now: string)
      requires Valid()
      modifies this
      ensures Valid()
      ensures rows == Upsert(old(rows), Session(id, title, pwd, now))
    {
      UpsertReplaces(rows, Session(id, title, pwd, now));
      rows := Upsert(rows, Session(id, title, pwd, now));
    }

    /** `get_all_sessions`: every row, newest first. */
    method SelectAll() returns (view: seq<Session>)
      ensures IsDescendingView(view, rows)
    {
      view := SortDesc(rows);
    }

    /**
     * `list_sessions`: the `limit` newest rows, newest first.  A negative
     * limit (possible from the Python command line) means no limit in SQLite.
     */
    method List(limit: int) returns (page: seq<Session>)
      ensures SortedDesc(page) && multiset(page) <= multiset(rows)
      ensures |page| == if 0 <= limit < |rows| then limit else |rows|
      ensures forall x, y :: x in rows && x !in page && y in page ==> LexLe(x.createdAt, y.createdAt)
    {
      var view := SelectAll();
      var k := if 0 <= limit < |view| then limit else |view|;
      PrefixIsNewest(view, rows, k);
      assert view == view[..k] + view[k..];
      assert multiset(view) == multiset(view[..k]) + multiset(view[k..]);
      page := view[..k];
    }

    /** `search_sessions`: every row whose title or id matches `%query%`, newest first. */
    method Search(query: string) returns (found: seq<Session>)
      ensures SortedDesc(found)
      ensures forall x :: x in found <==> x in rows && MatchesQuery(x, query)
      ensures multiset(found) == multiset(SelectMatching(rows, query))
    {
      found := SortDesc(SelectMatching(rows, query));
      assert forall x :: x in found <==> x in multiset(SelectMatching(rows, query));
    }

    /** `DELETE FROM sessions WHERE id = ?1`, returning the affected-row count. */
    method DeleteById(id: string) returns (count: nat)
      requires Valid()
      modifies this
      ensures Valid()
      ensures rows == RemoveId(old(rows), id)
      ensures count == |old(rows)| - |rows| == (if HasId(old(rows), id) then 1 else 0)
    {
      RemoveIdCount(rows, id);
      var before := |rows|;
      rows := RemoveId(rows, id);
      count := before - |rows|;
    }

    /** `DELETE FROM sessions WHERE id LIKE ?1`, returning the affected-row count. */
    method DeleteIdLike(pattern: string) returns (count: nat)
      requires Valid()
      modifies this
      ensures Valid()
      ensures rows == RemoveIdLike(old(rows), pattern)
      ensures count == |old(rows)| - |rows|
    {
      RemoveIdLikeKeepsKeys(rows, pattern);
      var before := |rows|;
      rows := RemoveIdLike(rows, pattern);
      count := before - |rows|;
    }

    /** The resolution step of `resume_session`. */
    method Resolve(d: Dialect, identifier: string) returns (o: Outcome)
      ensures ResolvesTo(d, identifier, rows, o)
    {
      var view: seq<Session> := [];
      if Position(d, identifier).Some? {
        view := SelectAll();
      }
      o := Resolver.Resolve(d, identifier, view, rows);
    }

    /** `delete_session`. */
    method Delete(d: Dialect, identifier: string) returns (report: DeleteReport)
      requires Valid()
      modifies this
      ensures Valid()
      ensures DeleteEffect(d, identifier, old(rows), rows, report)
    {
      var position := Position(d, identifier);
      if position.Some? {
        report := DeleteAt(position.value);
      } else {
        report := DeleteMatching(identifier);
      }
    }

    /** The positional branch of `delete_session`: remove the row listed at `n`, by its id. */
    method DeleteAt(n: nat) returns (report: DeleteReport)
      requires Valid()
      modifies this
      ensures Valid()
      ensures PositionalDeleteEffect(n, old(rows), rows, report)
    {
      ghost var before := rows;
      var view := SelectAll();
      ViewLength(view, before, n);
      if 1 <= n <= |view| {
        var s := view[n - 1];
        var _ := DeleteById(s.id);
        report := RemovedRow(s);
      } else {
        report := IndexOutOfRange;
      }
    }

    /** The id branch of `delete_session`: exact id first, the pattern only if that removed nothing. */
    method DeleteMatching(identifier: string) returns (report: DeleteReport)
      requires Valid()
      modifies this
      ensures Valid()
      ensures IdDeleteEffect(identifier, old(rows), rows, report)
    {
      var deleted := DeleteById(identifier);
      if deleted > 0 {
        report := RemovedCount(deleted);
        return;
      }
      RemoveAbsentId(old(rows), identifier);
      deleted := DeleteIdLike(Pattern(identifier));
      report := if deleted > 0 then RemovedCount(deleted) else NoSessionFound;
    }
  }

  /** A newest-first read has one entry per row, and its entry n - 1 stands at position n. */
  lemma ViewLength(view: seq<Session>, rows: seq<Session>, n: nat)
    requires IsDescendingView(view, rows)
    ensures |view| == |rows|
    ensures 1 <= n <= |view| ==> AtPosition(rows, n, view[n - 1])
  {
    assert |view| == |multiset(rows)| == |rows|;
    if 1 <= n <= |view| {
      ViewPosition(view, rows, n - 1);
    }
  }

  lemma {:induction false} RemoveIdLikeKeepsKeys(rows: seq<Session>, pattern: string)
    requires DistinctIds(rows)
    ensures DistinctIds(RemoveIdLike(rows, pattern))
    decreases |rows|
  {
    if rows != [] {
      DistinctIdsTail(rows);
      RemoveIdLikeKeepsKeys(rows[1..], pattern);
      var tail := RemoveIdLike(rows[1..], pattern);
      forall j | 0 <= j < |tail| ensures tail[j].id != rows[0].id {
        assert tail[j] in rows[1..];
      }
    }
  }

  /**
   * What a delete reports matches what it did: a positional delete removes
   * exactly the reported row and nothing else; a count is the number of rows
   * removed and is positive; "out of range" and "not found" leave the table
   * as it was.
   */
  lemma DeleteReportsTruthfully(d: Dialect, identifier: string, before: seq<Session>,
                                after: seq<Session>, report: DeleteReport)
    requires DistinctIds(before) && DeleteEffect(d, identifier, before, after, report)
    ensures report.RemovedRow? ==>
      report.session in before && |after| == |before| - 1
      && forall x :: x in after <==> x in before && x != report.session
    ensures report.RemovedCount? ==> 0 < report.count == |before| - |after|
    ensures report == IndexOutOfRange || report == NoSessionFound ==> after == before
  {
    match Position(d, identifier)
    case Some(n) =>
      if report.RemovedRow? {
        var s := report.session;
        RemoveIdCount(before, s.id);
        forall x | x in before && x.id == s.id ensures x == s {
          var i :| 0 <= i < |before| && before[i] == x;
          var j :| 0 <= j < |before| && before[j] == s;
          assert i == j;
        }
      }
    case None =>
      if HasId(before, identifier) {
        RemoveIdCount(before, identifier);
      } else {
        RemoveIdLikeNothing(before, Pattern(identifier));
      }
  }

  /**
   * Deleting an id that exists removes that row only: rows whose ids contain
   * it, or are contained in it, stay, and the pattern delete does not run.
   */
  lemma ExactDeleteSparesOthers(d: Dialect, identifier: string, before: seq<Session>,
                                after: seq<Session>, report: DeleteReport)
    requires DistinctIds(before) && DeleteEffect(d, identifier, before, after, report)
    requires Position(d, identifier).None? && HasId(before, identifier)
    ensures report == RemovedCount(1) && !HasId(after, identifier)
    ensures forall x :: x in before && x.id != identifier ==> x in after
    ensures |after| == |before| - 1
  {
    RemoveIdCount(before, identifier);
  }

  /**
   * A non-numeric identifier that no id contains (up to ASCII case) deletes
   * nothing and is reported as not found.
   */
  lemma UnmatchedDeleteIsNoOp(d: Dialect, identifier: string, before: seq<Session>,
                              after: seq<Session>, report: DeleteReport)
    requires DeleteEffect(d, identifier, before, after, report)
    requires Position(d, identifier).None?
    requires forall x :: x in before ==> !Like(Pattern(identifier), x.id)
    ensures report == NoSessionFound && after == before
  {
    if HasId(before, identifier) {
      ExactIsLike(before, identifier);
    }
    RemoveIdLikeNothing(before, Pattern(identifier));
  }
}

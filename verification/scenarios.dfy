/**
 * End-to-end runs of the command-line operations on a fresh database,
 * stated as what the user sees.
 */
module Scenarios {
  import opened Ordering
  import opened Sessions
  import opened Table
  import opened Identifier
  import opened Resolver
  import opened Store

  /** save abc123 "Fix bug"; ls -n 5; rm abc123; ls -n 5. */
  method SaveListDelete(d: Dialect, pwd: string, now: string)
    returns (before: seq<Session>, report: DeleteReport, after: seq<Session>)
    ensures before == [Session("abc123", "Fix bug", pwd, now)]
    ensures report == RemovedCount(1)
    ensures after == []
  {
    var store := new SessionStore();
    store.Save("abc123", "Fix bug", pwd, now);
    var s := Session("abc123", "Fix bug", pwd, now);
    assert store.rows == [s];
    before := store.List(5);
    assert |before| == 1 && before[0] in multiset([s]);
    assert before == [before[0]];
    assert "abc123"[0] == 'a' && !AllDigits("abc123");
    assert Position(d, "abc123").None?;
    assert HasId([s], "abc123");
    report := store.Delete(d, "abc123");
    assert RemoveId([s], "abc123") == [];
    after := store.List(5);
  }

  /**
   * save id1 A at `t1`; save id2 B at a later `t2`; then "1" resumes B, the
   * most recent, and "id1" resumes A by exact id: it is no numeral in
   * either front end.
   */
  method ResolveAfterTwoSaves(d: Dialect, pwd: string, t1: string, t2: string)
    returns (first: Outcome, byId: Outcome)
    requires !LexLe(t2, t1)
    ensures first == Found(Session("id2", "B", pwd, t2))
    ensures byId == Found(Session("id1", "A", pwd, t1))
  {
    var store := new SessionStore();
    var a := Session("id1", "A", pwd, t1);
    var b := Session("id2", "B", pwd, t2);
    store.Save("id1", "A", pwd, t1);
    store.Save("id2", "B", pwd, t2);
    assert store.rows == [a, b];
    assert AllDigits("1") && DigitsValue("1") == 1;
    first := store.Resolve(d, "1");
    LexLeRefl(t1);
    assert CountAhead([a, b], t1, true) == 1;
    assert first.session == b;
    byId := store.Resolve(d, "id1");
    assert HasId([a, b], "id1");
  }
}

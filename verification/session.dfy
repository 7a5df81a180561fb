/**
 * The one entity of the system, a saved session, and the facts about
 * `ORDER BY created_at DESC` that every read of the table relies on.
 *
 * SQLite does not define the order of rows whose `created_at` values are
 * equal, so a descending read is specified only as "sorted and a
 * permutation of the table" (IsDescendingView), and the row shown at a
 * 1-based position n is characterised by counting, which does not depend on
 * how ties were broken (AtPosition).
 */
module Sessions {
  import opened Ordering

  /** One row of the `sessions` table; `id` is the primary key. */
  datatype Session = Session(id: string, title: string, pwd: string, createdAt: string)

  /** The primary-key constraint: no two rows share an id. */
  predicate DistinctIds(rows: seq<Session>)
  {
    forall i, j :: 0 <= i < j < |rows| ==> rows[i].id != rows[j].id
  }

  /** Most recent first: no row is newer than a row before it. */
  predicate SortedDesc(v: seq<Session>)
  {
    forall i, j :: 0 <= i < j < |v| ==> LexLe(v[j].createdAt, v[i].createdAt)
  }

  /** `v` is a result `SELECT ... ORDER BY created_at DESC` may give for the table `rows`. */
  predicate IsDescendingView(v: seq<Session>, rows: seq<Session>)
  {
    SortedDesc(v) && multiset(v) == multiset(rows)
  }

  /**
   * Row `x` is ahead of timestamp `t` in a descending listing: strictly newer
   * (`strict`) or not older (`!strict`).
   */
  predicate Ahead(x: Session, t: string, strict: bool)
  {
    if strict then !LexLe(x.createdAt, t) else LexLe(t, x.createdAt)
  }

  /** How many rows are ahead of timestamp `t`. */
  function CountAhead(rows: seq<Session>, t: string, strict: bool): (n: nat)
    ensures n <= |rows|
  {
    if rows == [] then 0
    else (if Ahead(rows[0], t, strict) then 1 else 0) + CountAhead(rows[1..], t, strict)
  }

  /**
   * `s` is a row that a descending listing of `rows` can show at 1-based
   * position `n`: fewer than `n` rows are strictly newer than `s`, and at
   * least `n` rows are not older than it.
   */
  ghost predicate AtPosition(rows: seq<Session>, n: nat, s: Session)
  {
    s in rows && CountAhead(rows, s.createdAt, true) < n <= CountAhead(rows, s.createdAt, false)
  }

  lemma {:induction false} CountAheadAppend(a: seq<Session>, b: seq<Session>, t: string, strict: bool)
    ensures CountAhead(a + b, t, strict) == CountAhead(a, t, strict) + CountAhead(b, t, strict)
    decreases |a|
  {
    if a != [] {
      CountAheadAppend(a[1..], b, t, strict);
      assert (a + b)[1..] == a[1..] + b;
    } else {
      assert a + b == b;
    }
  }

  /** Counting does not depend on the order of the rows. */
  lemma {:induction false} CountAheadPermutation(a: seq<Session>, b: seq<Session>, t: string, strict: bool)
    requires multiset(a) == multiset(b)
    ensures CountAhead(a, t, strict) == CountAhead(b, t, strict)
    decreases |a|
  {
    if a == [] {
      assert |multiset(b)| == 0;
    } else {
      var x := a[0];
      assert x in multiset(b);
      var i :| 0 <= i < |b| && b[i] == x;
      var rest := b[..i] + b[i + 1..];
      MultisetWithout(b, i);
      assert a == [x] + a[1..];
      assert multiset(a[1..]) == multiset(a) - multiset{x};
      CountAheadPermutation(a[1..], rest, t, strict);
      CountAheadWithout(b, i, t, strict);
    }
  }

  lemma MultisetWithout(b: seq<Session>, i: nat)
    requires i < |b|
    ensures multiset(b[..i] + b[i + 1..]) == multiset(b) - multiset{b[i]}
  {
    assert b == b[..i] + [b[i]] + b[i + 1..];
  }

  lemma CountAheadWithout(b: seq<Session>, i: nat, t: string, strict: bool)
    requires i < |b|
    ensures CountAhead(b, t, strict)
         == (if Ahead(b[i], t, strict) then 1 else 0) + CountAhead(b[..i] + b[i + 1..], t, strict)
  {
    assert b == b[..i] + ([b[i]] + b[i + 1..]);
    CountAheadAppend(b[..i], [b[i]] + b[i + 1..], t, strict);
    assert ([b[i]] + b[i + 1..])[1..] == b[i + 1..];
    CountAheadAppend(b[..i], b[i + 1..], t, strict);
  }

  /** If every row ahead of `t2` is also ahead of `t1`, fewer rows are ahead of `t2`. */
  lemma {:induction false} CountAheadMonotone(rows: seq<Session>, t1: string, s1: bool, t2: string, s2: bool)
    requires forall x :: x in rows && Ahead(x, t2, s2) ==> Ahead(x, t1, s1)
    ensures CountAhead(rows, t2, s2) <= CountAhead(rows, t1, s1)
    decreases |rows|
  {
    if rows != [] {
      CountAheadMonotone(rows[1..], t1, s1, t2, s2);
    }
  }

  lemma {:induction false} CountAheadNone(rows: seq<Session>, t: string, strict: bool)
    requires forall x :: x in rows ==> !Ahead(x, t, strict)
    ensures CountAhead(rows, t, strict) == 0
    decreases |rows|
  {
    if rows != [] {
      CountAheadNone(rows[1..], t, strict);
    }
  }

  lemma {:induction false} CountAheadAll(rows: seq<Session>, t: string, strict: bool)
    requires forall x :: x in rows ==> Ahead(x, t, strict)
    ensures CountAhead(rows, t, strict) == |rows|
    decreases |rows|
  {
    if rows != [] {
      CountAheadAll(rows[1..], t, strict);
    }
  }

  /** The row at index `k` of any descending read is at 1-based position `k + 1`. */
  lemma ViewPosition(v: seq<Session>, rows: seq<Session>, k: nat)
    requires IsDescendingView(v, rows) && k < |v|
    ensures AtPosition(rows, k + 1, v[k])
  {
    var t := v[k].createdAt;
    LexLeRefl(t);
    CountAheadPermutation(v, rows, t, true);
    CountAheadPermutation(v, rows, t, false);
    assert v == v[..k] + v[k..];
    CountAheadAppend(v[..k], v[k..], t, true);
    CountAheadNone(v[k..], t, true);
    assert v == v[..k + 1] + v[k + 1..];
    CountAheadAppend(v[..k + 1], v[k + 1..], t, false);
    CountAheadAll(v[..k + 1], t, false);
    assert v[k] in multiset(rows);
  }

  /** Two rows that can both be shown at position `n` carry the same timestamp. */
  lemma PositionFixesTimestamp(rows: seq<Session>, n: nat, s1: Session, s2: Session)
    requires AtPosition(rows, n, s1) && AtPosition(rows, n, s2)
    ensures s1.createdAt == s2.createdAt
  {
    var t1, t2 := s1.createdAt, s2.createdAt;
    if !LexLe(t2, t1) {
      StrictlyNewerDominates(rows, t1, t2);
    } else if !LexLe(t1, t2) {
      StrictlyNewerDominates(rows, t2, t1);
    } else {
      LexLeAntisym(t1, t2);
    }
  }

  /** When `t2` is strictly after `t1`, no position can hold both a `t1` row and a `t2` row. */
  lemma StrictlyNewerDominates(rows: seq<Session>, t1: string, t2: string)
    requires !LexLe(t2, t1)
    ensures CountAhead(rows, t2, false) <= CountAhead(rows, t1, true)
  {
    forall x | x in rows && Ahead(x, t2, false) ensures Ahead(x, t1, true) {
      if LexLe(x.createdAt, t1) {
        LexLeTrans(t2, x.createdAt, t1);
      }
    }
    CountAheadMonotone(rows, t1, true, t2, false);
  }

  /** A limited descending read holds the newest rows: nothing left out is newer than anything kept. */
  lemma PrefixIsNewest(v: seq<Session>, rows: seq<Session>, k: nat)
    requires IsDescendingView(v, rows) && k <= |v|
    ensures forall x, y :: x in rows && x !in v[..k] && y in v[..k] ==> LexLe(x.createdAt, y.createdAt)
  {
    assert v == v[..k] + v[k..];
    assert multiset(v) == multiset(v[..k]) + multiset(v[k..]);
    forall x, y | x in rows && x !in v[..k] && y in v[..k]
      ensures LexLe(x.createdAt, y.createdAt)
    {
      assert x in multiset(v);
      assert x in multiset(v[k..]);
      var j :| 0 <= j < |v[k..]| && v[k..][j] == x;
      var i :| 0 <= i < k && v[..k][i] == y;
      assert v[k + j] == x && v[i] == y;
    }
  }

  /** A newest-first sequence with `x` inserted before the first row not newer than it. */
  function InsertDesc(v: seq<Session>, x: Session): (r: seq<Session>)
    requires SortedDesc(v)
    ensures SortedDesc(r) && multiset(r) == multiset(v) + multiset{x}
    decreases |v|
  {
    if v == [] then [x]
    else if LexLe(v[0].createdAt, x.createdAt) then
      InsertFirstSorted(v, x);
      [x] + v
    else
      var rest := InsertDesc(v[1..], x);
      InsertBehindSorted(v, x, rest);
      assert v == [v[0]] + v[1..];
      [v[0]] + rest
  }

  lemma InsertFirstSorted(v: seq<Session>, x: Session)
    requires SortedDesc(v) && v != [] && LexLe(v[0].createdAt, x.createdAt)
    ensures SortedDesc([x] + v)
  {
    var r := [x] + v;
    forall i, j | 0 <= i < j < |r| ensures LexLe(r[j].createdAt, r[i].createdAt) {
      if i == 0 && j > 1 {
        LexLeTrans(v[j - 1].createdAt, v[0].createdAt, x.createdAt);
      }
    }
  }

  lemma InsertBehindSorted(v: seq<Session>, x: Session, rest: seq<Session>)
    requires SortedDesc(v) && v != [] && !LexLe(v[0].createdAt, x.createdAt)
    requires SortedDesc(rest) && multiset(rest) == multiset(v[1..]) + multiset{x}
    ensures SortedDesc([v[0]] + rest)
  {
    var r := [v[0]] + rest;
    forall i, j | 0 <= i < j < |r| ensures LexLe(r[j].createdAt, r[i].createdAt) {
      if i == 0 {
        var y := rest[j - 1];
        assert y in multiset(rest);
        if y == x {
          LexLeTotal(v[0].createdAt, x.createdAt);
        } else {
          assert y in multiset(v[1..]);
          var k :| 0 <= k < |v[1..]| && v[1..][k] == y;
          assert v[k + 1] == y;
        }
      }
    }
  }

  /** The `ORDER BY created_at DESC` step of a query: some newest-first arrangement of `rows`. */
  method SortDesc(rows: seq<Session>) returns (v: seq<Session>)
    ensures IsDescendingView(v, rows)
  {
    v := [];
    for i := 0 to |rows|
      invariant SortedDesc(v) && multiset(v) == multiset(rows[..i])
    {
      v := InsertDesc(v, rows[i]);
      assert rows[..i + 1] == rows[..i] + [rows[i]];
    }
    assert rows[..|rows|] == rows;
  }
}

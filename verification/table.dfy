/**
 * The SQL statements the two front ends run against the `sessions` table,
 * each as a function from the table (its rows in storage order) to the
 * result of the statement.
 */
module Table {
  import opened Wrappers
  import opened SqlLike
  import opened Sessions

  /** Some row has exactly this id. */
  predicate HasId(rows: seq<Session>, id: string)
  {
    exists r :: r in rows && r.id == id
  }

  /** `DELETE FROM sessions WHERE id = ?1`: the table without the row keyed `id`. */
  function RemoveId(rows: seq<Session>, id: string): (r: seq<Session>)
    ensures forall x :: x in r <==> x in rows && x.id != id
    ensures |r| <= |rows|
  {
    if rows == [] then []
    else if rows[0].id == id then RemoveId(rows[1..], id)
    else [rows[0]] + RemoveId(rows[1..], id)
  }

  /** `DELETE FROM sessions WHERE id LIKE ?1`: the table without every row whose id matches. */
  function RemoveIdLike(rows: seq<Session>, pattern: string): (r: seq<Session>)
    ensures forall x :: x in r <==> x in rows && !Like(pattern, x.id)
    ensures |r| <= |rows|
  {
    if rows == [] then []
    else if Like(pattern, rows[0].id) then RemoveIdLike(rows[1..], pattern)
    else [rows[0]] + RemoveIdLike(rows[1..], pattern)
  }

  /**
   * `INSERT OR REPLACE`: a row whose primary key collides is deleted first,
   * and the new row is stored last.
   */
  function Upsert(rows: seq<Session>, s: Session): seq<Session>
  {
    RemoveId(rows, s.id) + [s]
  }

  /** `SELECT ... WHERE id = ?1`, first row or none. */
  function FindById(rows: seq<Session>, id: string): (o: Option<Session>)
    ensures o.Some? <==> HasId(rows, id)
    ensures o.Some? ==> o.value in rows && o.value.id == id
  {
    if rows == [] then None
    else if rows[0].id == id then Some(rows[0])
    else FindById(rows[1..], id)
  }

  /**
   * `SELECT ... WHERE id LIKE ?1`, first row of the scan or none.  There is
   * no ORDER BY, so callers may rely only on "some matching row".
   */
  function FindIdLike(rows: seq<Session>, pattern: string): (o: Option<Session>)
    ensures o.Some? <==> exists x :: x in rows && Like(pattern, x.id)
    ensures o.Some? ==> o.value in rows && Like(pattern, o.value.id)
  {
    if rows == [] then None
    else if Like(pattern, rows[0].id) then Some(rows[0])
    else FindIdLike(rows[1..], pattern)
  }

  /** `title LIKE %q% OR id LIKE %q%`, the filter of the search command. */
  predicate MatchesQuery(s: Session, q: string)
  {
    Like(Pattern(q), s.title) || Like(Pattern(q), s.id)
  }

  /** The rows the search query selects, before ordering. */
  function SelectMatching(rows: seq<Session>, q: string): (r: seq<Session>)
    ensures forall x :: x in r <==> x in rows && MatchesQuery(x, q)
  {
    if rows == [] then []
    else if MatchesQuery(rows[0], q) then [rows[0]] + SelectMatching(rows[1..], q)
    else SelectMatching(rows[1..], q)
  }

  lemma DistinctIdsTail(rows: seq<Session>)
    requires DistinctIds(rows) && rows != []
    ensures DistinctIds(rows[1..]) && !HasId(rows[1..], rows[0].id)
  {
    forall r | r in rows[1..] ensures r.id != rows[0].id {
      var k :| 0 <= k < |rows[1..]| && rows[1..][k] == r;
      assert rows[k + 1] == r;
    }
  }

  /** Deleting an id that is not present changes nothing. */
  lemma {:induction false} RemoveAbsentId(rows: seq<Session>, id: string)
    requires !HasId(rows, id)
    ensures RemoveId(rows, id) == rows
    decreases |rows|
  {
    if rows != [] {
      assert rows[0] in rows;
      assert !HasId(rows[1..], id) by {
        forall r | r in rows[1..] ensures r.id != id {
          assert r in rows;
        }
      }
      RemoveAbsentId(rows[1..], id);
      assert rows == [rows[0]] + rows[1..];
    }
  }

  /**
   * Deleting by exact id under the primary-key constraint removes one row
   * when the id is present and none otherwise; the keys stay distinct.
   */
  lemma {:induction false} RemoveIdCount(rows: seq<Session>, id: string)
    requires DistinctIds(rows)
    ensures |RemoveId(rows, id)| == |rows| - (if HasId(rows, id) then 1 else 0)
    ensures DistinctIds(RemoveId(rows, id))
    decreases |rows|
  {
    if rows != [] {
      DistinctIdsTail(rows);
      RemoveIdCount(rows[1..], id);
      var tail := RemoveId(rows[1..], id);
      if rows[0].id == id {
        RemoveAbsentId(rows[1..], id);
      } else {
        assert HasId(rows, id) <==> HasId(rows[1..], id) by {
          if HasId(rows, id) {
            var r :| r in rows && r.id == id;
            assert r in rows[1..] by { assert rows == [rows[0]] + rows[1..]; }
          }
        }
        assert DistinctIds([rows[0]] + tail) by {
          forall j | 0 < j < |[rows[0]] + tail| ensures ([rows[0]] + tail)[j].id != rows[0].id {
            assert tail[j - 1] in rows[1..];
          }
        }
      }
    }
  }

  /**
   * Saving: exactly one row carries the saved id, and it is the new row;
   * every row with another id is kept and nothing else appears; keys stay
   * distinct; the table grows by one row only when the id is new.
   */
  lemma UpsertReplaces(rows: seq<Session>, s: Session)
    requires DistinctIds(rows)
    ensures DistinctIds(Upsert(rows, s))
    ensures s in Upsert(rows, s)
    ensures forall x :: x in Upsert(rows, s) && x.id == s.id ==> x == s
    ensures forall x: Session :: x.id != s.id ==> (x in Upsert(rows, s) <==> x in rows)
    ensures |Upsert(rows, s)| == |rows| + (if HasId(rows, s.id) then 0 else 1)
  {
    RemoveIdCount(rows, s.id);
    var kept := RemoveId(rows, s.id);
    var r := Upsert(rows, s);
    forall i, j | 0 <= i < j < |r| ensures r[i].id != r[j].id {
      if j == |r| - 1 {
        assert r[i] in kept;
      }
    }
  }

  lemma {:induction false} RemoveIdAppend(a: seq<Session>, b: seq<Session>, id: string)
    ensures RemoveId(a + b, id) == RemoveId(a, id) + RemoveId(b, id)
    decreases |a|
  {
    if a == [] {
      assert a + b == b;
    } else {
      var ab := a + b;
      assert ab[0] == a[0] && ab[1..] == a[1..] + b;
      RemoveIdAppend(a[1..], b, id);
      if a[0].id != id {
        calc {
          RemoveId(ab, id);
          [a[0]] + RemoveId(a[1..] + b, id);
          [a[0]] + (RemoveId(a[1..], id) + RemoveId(b, id));
          ([a[0]] + RemoveId(a[1..], id)) + RemoveId(b, id);
        }
      }
    }
  }

  lemma {:induction false} RemoveIdTwice(rows: seq<Session>, id: string)
    ensures RemoveId(RemoveId(rows, id), id) == RemoveId(rows, id)
  {
    RemoveAbsentId(RemoveId(rows, id), id);
  }

  /**
   * Saving the same id twice leaves the table exactly as if only the second
   * save had happened: one row for the id, with the second write's title,
   * directory and timestamp.
   */
  lemma SaveTwice(rows: seq<Session>, s1: Session, s2: Session)
    requires s1.id == s2.id
    ensures Upsert(Upsert(rows, s1), s2) == Upsert(rows, s2)
  {
    var id := s1.id;
    RemoveIdAppend(RemoveId(rows, id), [s1], id);
    RemoveIdTwice(rows, id);
    assert RemoveId([s1], id) == [];
  }

  /** An exact-id match is also a `%id%` match, so the fallback never misses an exact hit. */
  lemma ExactIsLike(rows: seq<Session>, id: string)
    requires HasId(rows, id)
    ensures exists x :: x in rows && Like(Pattern(id), x.id)
  {
    var r :| r in rows && r.id == id;
    assert SubstringAt(id, r.id, 0);
    SubstringMatches(id, r.id);
  }

  /** The search finds every row whose title or id contains the query as a plain substring. */
  lemma SearchFindsSubstrings(rows: seq<Session>, q: string, x: Session)
    requires x in rows && (IsSubstring(q, x.title) || IsSubstring(q, x.id))
    ensures x in SelectMatching(rows, q)
  {
    if IsSubstring(q, x.title) {
      SubstringMatches(q, x.title);
    } else {
      SubstringMatches(q, x.id);
    }
  }

  /** A pattern delete removes nothing exactly when no id matches it. */
  lemma {:induction false} RemoveIdLikeNothing(rows: seq<Session>, pattern: string)
    ensures |RemoveIdLike(rows, pattern)| == |rows| <==> forall x :: x in rows ==> !Like(pattern, x.id)
    ensures |RemoveIdLike(rows, pattern)| == |rows| ==> RemoveIdLike(rows, pattern) == rows
    decreases |rows|
  {
    if rows != [] {
      RemoveIdLikeNothing(rows[1..], pattern);
      assert rows == [rows[0]] + rows[1..];
      assert forall x :: x in rows <==> x == rows[0] || x in rows[1..];
    }
  }

  /**
   * The wildcard fallback is not a substring search: the identifiers "" and
   * "%" remove every row, and "_" every row with a non-empty id.
   */
  lemma WildcardDeletes(rows: seq<Session>)
    ensures RemoveIdLike(rows, Pattern("")) == [] && RemoveIdLike(rows, Pattern("%")) == []
    ensures forall x :: x in RemoveIdLike(rows, Pattern("_")) ==> x.id == []
  {
    forall x | x in rows
      ensures Like(Pattern(""), x.id) && Like(Pattern("%"), x.id)
      ensures x.id != [] ==> Like(Pattern("_"), x.id)
    {
      WildcardPatternsMatchAll(x.id);
    }
    EmptyWhenAllMatch(rows, Pattern(""));
    EmptyWhenAllMatch(rows, Pattern("%"));
  }

  lemma {:induction false} EmptyWhenAllMatch(rows: seq<Session>, pattern: string)
    requires forall x :: x in rows ==> Like(pattern, x.id)
    ensures RemoveIdLike(rows, pattern) == []
    decreases |rows|
  {
    if rows != [] {
      assert rows[0] in rows;
      EmptyWhenAllMatch(rows[1..], pattern);
    }
  }
}

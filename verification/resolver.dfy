/**
 * Identifier resolution, shared by resume and delete: a numeric identifier
 * is a 1-based position in the newest-first listing (and nothing else);
 * otherwise an exact id match wins; otherwise some row whose id matches
 * `%identifier%`; otherwise nothing.
 */
module Resolver {
  import opened Wrappers
  import opened SqlLike
  import opened Sessions
  import opened Table
  import opened Identifier

  datatype Outcome = Found(session: Session) | OutOfRange | NotFound

  /**
   * What resolving `identifier` against the table `rows` may yield.  The
   * positional case allows any row that a newest-first listing can show at
   * that position (rows with equal timestamps come in no fixed order), and
   * the last case any row whose id matches.
   */
  ghost predicate ResolvesTo(d: Dialect, identifier: string, rows: seq<Session>, o: Outcome)
  {
    match Position(d, identifier)
    case Some(n) =>
      if 1 <= n <= |rows| then o.Found? && AtPosition(rows, n, o.session)
      else o == OutOfRange
    case None =>
      if HasId(rows, identifier) then
        o.Found? && o.session in rows && o.session.id == identifier
      else if exists x :: x in rows && Like(Pattern(identifier), x.id) then
        o.Found? && o.session in rows && Like(Pattern(identifier), o.session.id)
      else
        o == NotFound
  }

  /**
   * The resolution chain over `view`, the newest-first read of the table
   * (needed, and fetched, only for a numeric identifier), and `rows`, the
   * table the two id queries scan.
   */
  function Resolve(d: Dialect, identifier: string, view: seq<Session>, rows: seq<Session>): (o: Outcome)
    requires Position(d, identifier).Some? ==> IsDescendingView(view, rows)
    ensures ResolvesTo(d, identifier, rows, o)
  {
    match Position(d, identifier)
    case Some(n) =>
      if 1 <= n <= |view| then
        ViewPosition(view, rows, n - 1);
        Found(view[n - 1])
      else
        assert |view| == |multiset(rows)| == |rows|;
        OutOfRange
    case None =>
      match FindById(rows, identifier)
      case Some(s) => Found(s)
      case None =>
        match FindIdLike(rows, Pattern(identifier))
        case Some(s) => Found(s)
        case None => NotFound
  }

  /**
   * Resolution is determined up to ties: two admissible outcomes are of the
   * same kind, an exact match under the primary key is one row, and two
   * rows at the same position share their timestamp.
   */
  lemma ResolutionDetermined(d: Dialect, identifier: string, rows: seq<Session>, o1: Outcome, o2: Outcome)
    requires DistinctIds(rows)
    requires ResolvesTo(d, identifier, rows, o1) && ResolvesTo(d, identifier, rows, o2)
    ensures o1.Found? == o2.Found? && (o1 == OutOfRange <==> o2 == OutOfRange)
    ensures o1.Found? && Position(d, identifier).Some? ==> o1.session.createdAt == o2.session.createdAt
    ensures o1.Found? && Position(d, identifier).None? && HasId(rows, identifier) ==> o1 == o2
  {
    match Position(d, identifier)
    case Some(n) =>
      if 1 <= n <= |rows| {
        PositionFixesTimestamp(rows, n, o1.session, o2.session);
      }
    case None =>
      if HasId(rows, identifier) {
        var i :| 0 <= i < |rows| && rows[i] == o1.session;
        var j :| 0 <= j < |rows| && rows[j] == o2.session;
        assert i == j;
      }
  }

  /**
   * A numeric identifier is only ever a position: with at least two rows,
   * "2" names the second-newest row even when some row's id is literally "2".
   */
  lemma PositionWinsOverId(d: Dialect, rows: seq<Session>, o: Outcome)
    requires |rows| >= 2 && ResolvesTo(d, "2", rows, o)
    ensures o.Found? && AtPosition(rows, 2, o.session)
  {
    assert AllDigits("2") && DigitsValue("2") == 2;
  }

  /** A position beyond the table is "out of range", never "not found" and never an id lookup. */
  lemma PositionBeyondTable(d: Dialect, identifier: string, rows: seq<Session>, o: Outcome)
    requires Position(d, identifier).Some? && Position(d, identifier).value > |rows|
    requires ResolvesTo(d, identifier, rows, o)
    ensures o == OutOfRange
  {
  }

  /** "0" is out of range in both front ends, whatever the table holds. */
  lemma ZeroIsOutOfRange(d: Dialect, rows: seq<Session>, o: Outcome)
    requires ResolvesTo(d, "0", rows, o)
    ensures o == OutOfRange
  {
    assert AllDigits("0") && DigitsValue("0") == 0;
  }

  /** "Not found" means that no id contains the identifier, not even up to ASCII case. */
  lemma NotFoundMeansNoMatch(d: Dialect, identifier: string, rows: seq<Session>)
    requires ResolvesTo(d, identifier, rows, NotFound)
    ensures Position(d, identifier).None?
    ensures forall x :: x in rows ==> !ContainsFolded(x.id, identifier)
  {
    forall x | x in rows ensures !ContainsFolded(x.id, identifier) {
      if ContainsFolded(x.id, identifier) {
        ContainsFoldedMatches(identifier, x.id);
      }
    }
  }

  /**
   * The index the list command prints in front of a row, typed back in,
   * resolves to that row or to a row with the same timestamp; to that very
   * row when no other row shares its timestamp.  (A table that the Rust
   * binary can read into a `Vec` has at most `usize::MAX` rows.)
   */
  lemma ListedIndexResolves(d: Dialect, v: seq<Session>, rows: seq<Session>, k: nat, o: Outcome)
    requires IsDescendingView(v, rows) && k < |v| && |rows| <= UsizeMax
    requires ResolvesTo(d, Numeral(k + 1), rows, o)
    ensures o.Found? && o.session.createdAt == v[k].createdAt
    ensures (forall x :: x in rows && x.createdAt == v[k].createdAt ==> x == v[k]) ==> o.session == v[k]
  {
    assert |v| == |multiset(rows)| == |rows|;
    NumeralRoundTrip(d, k + 1);
    ViewPosition(v, rows, k);
    PositionFixesTimestamp(rows, k + 1, o.session, v[k]);
  }
}

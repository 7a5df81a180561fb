/**
 * The dashboard's request handling: a pure routing decision on the request
 * method and the request path (query string included, nothing
 * percent-decoded), and the handler that carries it out on the table.
 *
 * The Rust server routes the raw request target and answers 404 to every
 * request it has no route for.  The Python server dispatches on the method
 * name to `do_GET` / `do_DELETE`; for any other method `http.server` itself
 * answers 501.  Before dispatching, `http.server` also reduces a target that
 * starts with `//` to a single leading `/`.
 */
module Dashboard {
  import opened Sessions
  import opened Table
  import opened Identifier
  import opened Store

  /** The request method; `Other` stands for every method except GET and DELETE. */
  datatype HttpMethod = Get | Delete | Other

  const SessionsPath: string := "/api/sessions"
  const SessionPrefix: string := "/api/sessions/"

  datatype Route =
    | ServePage               // GET /
    | ListSessions            // GET /api/sessions
    | DeleteSession(id: string) // DELETE /api/sessions/<id>
    | Reject(status: nat)     // no route

  /** `path.lstrip('/')`: the path without its leading slashes. */
  function StripSlashes(path: string): (r: string)
    ensures r == [] || r[0] != '/'
  {
    if path != [] && path[0] == '/' then StripSlashes(path[1..]) else path
  }

  /** A run of `n` slashes. */
  function Slashes(n: nat): (r: string)
    ensures |r| == n && forall i :: 0 <= i < n ==> r[i] == '/'
  {
    if n == 0 then [] else ['/'] + Slashes(n - 1)
  }

  /**
   * The path the handlers see.  Rust matches the raw target; Python's
   * `http.server` turns a leading `//…` into a single `/`.
   */
  function HandlerPath(d: Dialect, path: string): (r: string)
    ensures d == Rust || !("//" <= path) ==> r == path
    ensures d == Python && "//" <= path ==> r == ['/'] + StripSlashes(path) && !("//" <= r)
  {
    if d == Python && "//" <= path then ['/'] + StripSlashes(path) else path
  }

  function RouteFor(d: Dialect, m: HttpMethod, path: string): (r: Route)
    ensures r == ServePage <==> m == Get && HandlerPath(d, path) == "/"
    ensures r == ListSessions <==> m == Get && HandlerPath(d, path) == SessionsPath
    ensures r.DeleteSession? <==> m == Delete && SessionPrefix <= HandlerPath(d, path)
    ensures r.DeleteSession? ==> HandlerPath(d, path) == SessionPrefix + r.id
    ensures r.Reject? ==> r.status == if d == Python && m == Other then 501 else 404
  {
    var p := HandlerPath(d, path);
    match m
    case Get =>
      if p == "/" then ServePage
      else if p == SessionsPath then ListSessions
      else Reject(404)
    case Delete =>
      if SessionPrefix <= p then
        assert p == SessionPrefix + p[|SessionPrefix|..];
        DeleteSession(p[|SessionPrefix|..])
      else Reject(404)
    case Other =>
      if d == Python then Reject(501) else Reject(404)
  }

  /** The delete route round-trips: the id put after the prefix is the id deleted. */
  lemma DeletePathRoundTrip(d: Dialect, id: string)
    ensures RouteFor(d, Delete, SessionPrefix + id) == DeleteSession(id)
  {
    assert SessionPrefix <= SessionPrefix + id;
    assert (SessionPrefix + id)[1] == 'a';
    assert HandlerPath(d, SessionPrefix + id) == SessionPrefix + id;
    assert (SessionPrefix + id)[|SessionPrefix|..] == id;
  }

  /**
   * On a target that does not start with `//`, the two servers route GET and
   * DELETE alike; for other methods they differ only in the status.
   */
  lemma ServersAgree(m: HttpMethod, path: string)
    ensures m != Other && !("//" <= path) ==> RouteFor(Rust, m, path) == RouteFor(Python, m, path)
    ensures m == Other ==> RouteFor(Rust, m, path) == Reject(404) && RouteFor(Python, m, path) == Reject(501)
  {
  }

  /**
   * On a target with extra leading slashes the servers part ways: Python
   * serves the page and deletes the id, Rust answers 404 to both.
   */
  lemma ExtraSlashesDiffer(k: nat, id: string)
    requires k >= 2
    ensures RouteFor(Python, Get, Slashes(k)) == ServePage
    ensures RouteFor(Rust, Get, Slashes(k)) == Reject(404)
    ensures RouteFor(Python, Delete, Slashes(k) + SessionPrefix[1..] + id) == DeleteSession(id)
    ensures RouteFor(Rust, Delete, Slashes(k) + SessionPrefix[1..] + id) == Reject(404)
  {
    StripLeadingSlashes(k, []);
    assert Slashes(k) + [] == Slashes(k);
    assert "//" <= Slashes(k);
    assert Slashes(k) != "/" && Slashes(k) != SessionsPath;
    ExtraSlashesDelete(k, id);
  }

  lemma ExtraSlashesDelete(k: nat, id: string)
    requires k >= 2
    ensures RouteFor(Python, Delete, Slashes(k) + SessionPrefix[1..] + id) == DeleteSession(id)
    ensures RouteFor(Rust, Delete, Slashes(k) + SessionPrefix[1..] + id) == Reject(404)
  {
    var tail := SessionPrefix[1..] + id;
    var path := Slashes(k) + tail;
    assert Slashes(k) + SessionPrefix[1..] + id == path;
    assert tail[0] == 'a';
    StripLeadingSlashes(k, tail);
    assert ['/'] + tail == SessionPrefix + id;
    PythonRoutesStripped(path, SessionPrefix + id);
    SameHandlerPathSameRoute(Python, Delete, path, Rust, SessionPrefix + id);
    DeletePathRoundTrip(Rust, id);
    assert path[1] == '/' != SessionPrefix[1];
  }

  /** The route depends on the method and the path the handlers see, and on the server only for other methods. */
  lemma SameHandlerPathSameRoute(d: Dialect, m: HttpMethod, path: string, d': Dialect, path': string)
    requires m != Other && HandlerPath(d, path) == HandlerPath(d', path')
    ensures RouteFor(d, m, path) == RouteFor(d', m, path')
  {
  }

  /** Python routes a `//…` target as it routes the reduced target. */
  lemma PythonRoutesStripped(path: string, reduced: string)
    requires |path| >= 2 && path[0] == '/' && path[1] == '/'
    requires reduced == ['/'] + StripSlashes(path)
    ensures HandlerPath(Python, path) == reduced == HandlerPath(Python, reduced)
  {
    assert "//" <= path;
  }

  /** Stripping `k` slashes in front of a path that does not start with one gives the path. */
  lemma {:induction false} StripLeadingSlashes(k: nat, rest: string)
    requires rest == [] || rest[0] != '/'
    ensures StripSlashes(Slashes(k) + rest) == rest
    decreases k
  {
    if k > 0 {
      assert (Slashes(k) + rest)[1..] == Slashes(k - 1) + rest;
      StripLeadingSlashes(k - 1, rest);
    }
  }

  datatype Response =
    | Html                             // the dashboard page, text/html
    | Json(sessions: seq<Session>)     // application/json array of rows
    | OkTrue                           // application/json {"ok":true}
    | Error(status: nat)

  /**
   * One request, as the server loop handles it.  The delete route removes
   * at most the row whose id equals the path suffix, and always answers
   * `{"ok":true}`; no other route changes the table.
   */
  method Serve(store: SessionStore, d: Dialect, m: HttpMethod, path: string) returns (resp: Response)
    requires store.Valid()
    modifies store
    ensures store.Valid()
    ensures match RouteFor(d, m, path)
      case ServePage => resp == Html && store.rows == old(store.rows)
      case ListSessions =>
        resp.Json? && IsDescendingView(resp.sessions, store.rows) && store.rows == old(store.rows)
      case DeleteSession(id) => resp == OkTrue && store.rows == RemoveId(old(store.rows), id)
      case Reject(status) => resp == Error(status) && store.rows == old(store.rows)
  {
    match RouteFor(d, m, path)
    case ServePage =>
      resp := Html;
    case ListSessions =>
      var rows := store.SelectAll();
      resp := Json(rows);
    case DeleteSession(id) =>
      var _ := store.DeleteById(id);
      resp := OkTrue;
    case Reject(status) =>
      resp := Error(status);
  }

  /**
   * A dashboard delete is idempotent and exact: it answers `{"ok":true}`
   * whether or not the row existed, removes at most one row, and keeps every
   * row with another id.
   */
  lemma DashboardDeleteExact(rows: seq<Session>, id: string)
    requires DistinctIds(rows)
    ensures !HasId(rows, id) ==> RemoveId(rows, id) == rows
    ensures |RemoveId(rows, id)| >= |rows| - 1
    ensures forall x :: x in rows && x.id != id ==> x in RemoveId(rows, id)
    ensures RemoveId(RemoveId(rows, id), id) == RemoveId(rows, id)
  {
    RemoveIdCount(rows, id);
    if !HasId(rows, id) {
      RemoveAbsentId(rows, id);
    }
    RemoveIdTwice(rows, id);
  }
}

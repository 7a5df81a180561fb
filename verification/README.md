# cch session store, resolver and dashboard routing, in Dafny

`cch` bookmarks interactive terminal sessions: an opaque session id, a
title, and the working directory at save time. A saved session can later be
resumed or deleted by list position, by exact id, or by a fuzzy id match. A
small local HTTP dashboard lists and deletes sessions. There are two
implementations over the same SQLite table `sessions(id PRIMARY KEY, title,
pwd, created_at)`: a Rust binary (`src/main.rs`) and a Python script
(`cch.py`).

This project models the table and every operation that reads or changes it:

- `Sessions` (`session.dfy`): the `Session` row and the primary-key
  invariant. It also defines what `ORDER BY created_at DESC` may return:
  some newest-first permutation of the table. Rows with equal timestamps
  come in no fixed order, so the row shown at a 1-based position `n` is
  characterised by counting (`AtPosition`), not by one fixed order.
- `Ordering` (`ordering.dfy`): the column is TEXT, so timestamps are
  compared as strings, character by character (SQLite's BINARY collation).
- `SqlLike` (`like.dfy`): SQLite's `LIKE` exactly as the code uses it.
  `%` and `_` are wildcards, only ASCII letters fold case, and there is no
  ESCAPE clause.
- `Table` (`table.dfy`): each SQL statement as a function of the table:
  `INSERT OR REPLACE`, `DELETE ... WHERE id = ?`,
  `DELETE ... WHERE id LIKE ?`, the two `SELECT`s used for resolution, and
  the search filter.
- `Identifier` (`identifier.dfy`): when an identifier is a list position.
  A `Dialect` parameter picks Rust's `parse::<usize>()` or Python's
  `isdigit()`.
- `Resolver` (`resolver.dfy`): the resolution chain of `resume_session`.
  The order is position, then exact id, then some `%id%` match, then
  "not found". The result is one of `Found(session)`, `OutOfRange` and
  `NotFound`.
- `Store` (`store.dfy`): class `SessionStore`, whose field `rows` holds the
  table in storage order. Its methods are save, list, search, read-all,
  the two delete statements, resolve and `delete_session`. The clock
  (`now`) and the current directory (`pwd`) are parameters.
- `Dashboard` (`dashboard.dfy`): the routing decision on (method, path),
  and the request handler that carries it out on the store.
- `Cli` (`cli.dfy`): the `cch <id> "<title>"` shorthand.
- `Scenarios` (`scenarios.dfy`): two end-to-end runs on a fresh database.

Where the written design and the code disagree, the model follows the code:

- Search, and the id fallback of resume and delete, use `LIKE '%q%'`, not
  a case-sensitive substring test. Matching ignores ASCII case, and `%` or
  `_` typed by the user are wildcards. Because of this, `rm ""`, `rm %` and
  `rm _` delete every session (the last: every session with a non-empty id)
  when no id equals the identifier exactly (`Table.WildcardDeletes`).
- A numeric identifier does not have to be positive. `0` is numeric and
  is reported out of range.
- Rust also accepts a leading `+` as a position. A numeral too large for
  a 64-bit `usize` is not a position in Rust, so it goes on to the id
  lookups. Python treats every ASCII digit string as a position, up to
  the 4300-digit limit of `int()` (see "Left out").
- On the Python dashboard, a method other than GET or DELETE has no
  `do_X` handler. `http.server` then answers 501, not 404.
- Python's `http.server` reduces a request target that starts with `//`
  to a single leading `/` before the handlers see it, so `GET //` serves
  the page and `DELETE //api/sessions/x` deletes `x`. The Rust server
  matches the raw target and answers 404 to both.
- Python's `ls -n` accepts a negative count. SQLite reads a negative
  `LIMIT` as "no limit".

## Model

| member | source | states |
|---|---|---|
| `SqlLike.SubstringMatches` | src/main.rs:189-194 | every row whose id contains the identifier as a plain substring matches the `%identifier%` pattern |
| `SqlLike.ContainsFoldedMatches` | src/main.rs:105-107 | containment up to ASCII case (user wildcards accepting anything) implies a `LIKE '%q%'` match |
| `SqlLike.CaseInsensitive` | cch.py:71-74 | "%ABC%" matches "xabcx", although "ABC" is not a substring of it |
| `SqlLike.UnderscoreIsWildcard` | cch.py:112-114 | `_` in the identifier matches any character: "%a_c%" matches "abc" |
| `SqlLike.WildcardPatternsMatchAll` | src/main.rs:248-250 | the patterns built from "", "%" match every id, and from "_" every non-empty id |
| `Sessions.SortDesc` | src/main.rs:144 | `ORDER BY created_at DESC` yields the table's rows (same multiset), newest first |
| `Sessions.InsertDesc` | src/main.rs:144 | inserting one row into a newest-first sequence keeps it newest first and adds exactly that row |
| `Sessions.ViewPosition` | src/main.rs:164-165 | the row at index k of any newest-first read is at 1-based position k+1 in the rank sense (fewer than k+1 rows strictly newer, at least k+1 not older) |
| `Sessions.PositionFixesTimestamp` | cch.py:98-103 | two rows that can stand at the same position share their timestamp; ties are the only freedom |
| `Sessions.PrefixIsNewest` | src/main.rs:68 | `LIMIT` after the ordering keeps the newest rows: no row left out is newer than a row kept |
| `Sessions.CountAheadPermutation` | src/main.rs:142-156 | the rank of a row does not depend on the storage order of the table |
| `Table.RemoveId` | src/main.rs:241-243 | delete by exact id keeps exactly the rows with another id, and never grows the table |
| `Table.RemoveIdLike` | src/main.rs:248-251 | the pattern delete keeps exactly the rows whose id does not match |
| `Table.FindById` | src/main.rs:174-187 | the exact query finds a row iff some row has that id, and the row it finds has it |
| `Table.FindIdLike` | src/main.rs:190-205 | the fallback query finds a row iff some id matches, and returns one such row |
| `Table.SelectMatching` | src/main.rs:105-107 | the search keeps exactly the rows whose title or id matches `%query%` |
| `Table.RemoveAbsentId` | src/main.rs:282-286 | deleting an id that is absent changes nothing |
| `Table.RemoveIdCount` | cch.py:150 | under the primary key, an exact-id delete removes one row if the id is present and none otherwise; keys stay distinct |
| `Table.UpsertReplaces` | src/main.rs:55-57 | after a save, exactly one row has the id and it is the new row; rows with other ids are kept; nothing else is added; size grows only for a new id |
| `Table.SaveTwice` | cch.py:37-40 | saving an id twice gives exactly the table of the second save alone (one row, second title/dir/timestamp) |
| `Table.ExactIsLike` | src/main.rs:174-205 | an exact id hit is also a `%id%` hit, so the fallback can only widen the search |
| `Table.SearchFindsSubstrings` | cch.py:69-74 | the search returns every row whose title or id contains the query as a substring |
| `Table.RemoveIdLikeNothing` | src/main.rs:249-256 | the pattern delete removes zero rows iff no id matches, and then the table is unchanged |
| `Table.WildcardDeletes` | cch.py:152-154 | the fallback delete for "" or "%" empties the table, and for "_" removes every row with a non-empty id |
| `Identifier.ParseUsize` | src/main.rs:162 | Rust's position parse succeeds only on a string ending in a digit, with a value that fits a 64-bit usize |
| `Identifier.NumeralRoundTrip` | src/main.rs:88-90 | the index `[n]` printed by the list command parses back to n in both front ends |
| `Identifier.DialectsAgree` | cch.py:96-97 | unsigned numerals that fit a usize, and non-numerals, are treated alike by both front ends |
| `Identifier.PlusSign` | src/main.rs:227 | "+n" is position n in Rust and not a position in Python |
| `Identifier.Overflow` | cch.py:134-135 | a numeral above usize::MAX is no position in Rust but a position in Python |
| `Identifier.OverflowingNumeral` | src/main.rs:162 | such a numeral exists (2^64) |
| `Resolver.Resolve` | src/main.rs:162-210 | the resolution chain meets its specification: a numeral is only a position (in range → the row at that rank, else out of range); else an exact id; else some `%id%` match; else not found |
| `Resolver.ResolutionDetermined` | src/main.rs:189-205 | any two admissible outcomes are the same kind; an exact match is one row; positional results differ at most among rows with equal timestamps |
| `Resolver.PositionWinsOverId` | src/main.rs:162-168 | with two or more rows, "2" resolves to the second-newest row even if a row has id "2" |
| `Resolver.PositionBeyondTable` | src/main.rs:169-170 | a position past the end is out of range, with no id lookup |
| `Resolver.ZeroIsOutOfRange` | cch.py:96-107 | "0" is out of range in both front ends |
| `Resolver.NotFoundMeansNoMatch` | src/main.rs:207-210 | "not found" happens only for a non-numeral that no id contains, even up to ASCII case |
| `Resolver.ListedIndexResolves` | cch.py:59-61 | the index printed by the list resolves to the listed row, or to a row with the same timestamp; to the listed row itself when its timestamp is unique |
| `Store.SessionStore.constructor` | src/main.rs:26-37 | a new database has an empty table, and the key invariant holds |
| `Store.SessionStore.Save` | src/main.rs:48-59 | the new table is the INSERT OR REPLACE of (id, title, pwd, now), and the key invariant is kept |
| `Store.SessionStore.SelectAll` | src/main.rs:142-157 | returns every row, newest first |
| `Store.SessionStore.List` | src/main.rs:65-81 | returns min(limit, size) rows (all rows for a negative limit), newest first, drawn from the table, and no row left out is newer than a row returned |
| `Store.SessionStore.Search` | src/main.rs:103-120 | returns exactly the rows whose title or id matches `%query%`, each once, newest first, with no limit |
| `Store.SessionStore.DeleteById` | cch.py:150 | the table loses the row with that id; the count is the number of rows removed, 1 or 0 |
| `Store.SessionStore.DeleteIdLike` | cch.py:152-154 | the table loses every row whose id matches; the count is the number removed |
| `Store.SessionStore.Resolve` | src/main.rs:159-211 | the outcome of resuming satisfies the resolution specification against the current table |
| `Store.SessionStore.Delete` | src/main.rs:224-257 | the table and the report change as the delete specification says: a position removes exactly that row by its id; otherwise exact id first, and the pattern delete only if that removed nothing |
| `Store.SessionStore.DeleteAt` | cch.py:134-148 | a valid position removes the row at that rank by its exact id; an invalid one leaves the table unchanged and reports out of range |
| `Store.SessionStore.DeleteMatching` | cch.py:150-157 | an existing exact id is removed alone; otherwise every `%id%` match is removed and the count (or "not found") is reported |
| `Store.DeleteReportsTruthfully` | src/main.rs:230-256 | a positional delete removes exactly the reported row; a reported count is positive and equals the rows removed; out of range and not found leave the table unchanged |
| `Store.ExactDeleteSparesOthers` | src/main.rs:241-247 | deleting an existing id removes only that row, even when other ids contain it or are contained in it |
| `Store.UnmatchedDeleteIsNoOp` | src/main.rs:252-255 | a non-numeral that matches no id deletes nothing and reports not found |
| `Dashboard.RouteFor` | src/main.rs:268-295 | on the path the handlers see (the raw target in Rust; in Python a leading `//…` reduced to `/`): GET `/` serves the page; GET `/api/sessions` lists; DELETE on a path starting `/api/sessions/` deletes the suffix id; all else is rejected (404; 501 for other methods in Python) |
| `Dashboard.DeletePathRoundTrip` | src/main.rs:282-283 | the id after the `/api/sessions/` prefix is exactly the id deleted |
| `Dashboard.ServersAgree` | cch.py:167-198 | on targets not starting with `//`, both servers route GET and DELETE identically; other methods get 404 from Rust and 501 from Python |
| `Dashboard.ExtraSlashesDiffer` | cch.py:167-187 | with two or more leading slashes, Python serves the page for `GET //…` and deletes the id for `DELETE //…api/sessions/<id>`, where Rust answers 404 |
| `Dashboard.Serve` | src/main.rs:267-296 | the page and list routes leave the table unchanged (list returns all rows, newest first); delete removes the exact-id row and always answers `{"ok":true}`; rejected requests change nothing |
| `Dashboard.DashboardDeleteExact` | cch.py:186-196 | a dashboard delete of a missing id changes nothing; it removes at most one row, keeps every other id, and repeating it has no further effect |
| `Cli.HelpDiffers` | cch.py:247-250 | `cch help x` is a help request in Rust but saves id "help" in Python |
| `Cli.ShorthandAgrees` | cch.py:247-248 | apart from "help", both front ends take the same argument lists as shorthand saves |
| `Scenarios.SaveListDelete` | src/main.rs:55-68 | save abc123 "Fix bug" then list 5 shows that one row; deleting abc123 reports one removal, and the next list is empty |
| `Scenarios.ResolveAfterTwoSaves` | cch.py:91-120 | after saving id1 then, later, id2, "1" resumes id2 (most recent) and "id1" resumes id1 by exact id |

## Left out

- Database plumbing is not modelled: locating `$HOME`, creating `~/.cch`,
  opening the file, and creating the schema. The constructor stands for a
  new, empty table. Fatal errors from `unwrap`/`expect` and from statements
  that fail are not modelled.
- Timestamp creation is not modelled: `now` is a parameter. Rust writes a
  fixed six-digit fraction, while Python's `isoformat()` leaves out the
  fraction when it is zero. The model orders whatever strings it is given,
  exactly as SQLite does.
- The working directory is a parameter. When Rust cannot read it, it
  stores an empty string; Python raises.
- The process handoff (`do_resume` / `_do_resume`: `chdir`, then `exec` of
  `claude`) is not modelled. Resume ends at the `Found(session)` outcome.
  Rust ignores a failed `chdir`; Python raises on it.
- All printed output is left out, including the list's timestamp
  shortening and the id prefix printed after a positional delete.
- HTTP server machinery is left out: the accept loops, opening the
  browser, headers, JSON serialisation (and Rust's `[]` fallback) and the
  HTML file. The response is the variant chosen. Neither server
  percent-decodes the path, and neither does the model. Of Python's
  request-line parsing only the reduction of a leading `//` is modelled.
- Concurrency between the CLI and the dashboard rests on SQLite running
  each statement atomically. Each statement is one step here, and nothing
  interleaves.
- Command-line parsing by `clap` and `argparse` is left out, apart from
  the shorthand check.
- Identifier.Position: only ASCII digits are modelled. Python's
  `isdigit()` also accepts other Unicode digits, and for some of them
  (superscripts) `int()` then raises. Python's `int()` also refuses a
  digit string of more than 4300 digits (the interpreter's default
  `sys.get_int_max_str_digits()`); `resume` and `rm` then stop with an
  uncaught `ValueError`. The model has no such limit and treats every ASCII
  digit string as a position in Python.
- Identifier.Overflow: for a numeral of more than 4300 digits, Python
  stops with `ValueError` rather than reporting the position out of range.
- Identifier.DialectsAgree: holds only up to Python's 4300-digit limit;
  a numeral with more than 4300 digits (leading zeros included) that fits a
  `usize`, such as 4300 zeros followed by `1`, is position 1 in Rust, while
  Python stops with `ValueError`.
- Store.SessionStore.List takes any integer limit. Rust cannot pass a
  negative limit. A Rust limit above 2^63-1 fails rusqlite's parameter
  conversion and the process panics; a Python limit beyond 64 bits raises
  `OverflowError`. Neither failure is modelled.
- SqlLike.Like ignores SQLite's limit on LIKE pattern length. An
  identifier longer than about 50,000 bytes makes the statement fail.
- Table.FindIdLike returns the first matching row in storage order. Its
  contract, and everything built on it, promise only "some matching row",
  because the query has no ORDER BY.

# Memory-game leaderboard: a Dafny model

The service keeps game results in one SQLite table, `scores`. It serves four
endpoints over that table:

- POST /api/scores stores a result.
- GET /api/scores lists the ten best results.
- GET /api/scores/:id reads one result.
- DELETE /api/scores/:id removes one result.

This project models the table and those four request handlers. The table is an
in-memory object: `ScoreStore.ScoreTable` holds the rows in rowid order, the
AUTOINCREMENT counter (`lastId`), and a ghost record of every id ever assigned
(`issued`). Every store call is synchronous. Whether the storage engine fails a
call is an input (`storageFails`). A failed call leaves the table as it was.

Modules, one per concern:

- `ScoreTypes` (scoretypes.dfy): request fields, rows and outcomes. A request
  field is `Undefined`, `Null` or `Value(v)`, because JavaScript tells a missing
  key apart from a `null` one and the guard only tests for the first.
- `ScoreRules` (scorerules.dfy): the submission guard, the `difficulty` default,
  the NOT NULL constraints, and lookup, counting and deletion by id.
- `Ranking` (ranking.dfy): `ORDER BY score DESC LIMIT 10`. SQL leaves the order of
  equal scores open. So `IsTop` states what any valid answer must be, and `Top`
  (an insertion sort, then a prefix) is one answer proved to satisfy it. Any two
  answers that satisfy `IsTop` have the same score at every position
  (`TopScoresDetermined`), so ties are the only freedom.
- `ScoreStore` (scoretable.dfy): the class, with its invariant `Valid()`. Ids
  ascend along the rows, every row's id was issued, and issued ids ascend up to
  the counter.
- `ScoreApi` (api.dfy): status codes and JSON bodies of each outcome.
- `Scenarios` (scenarios.dfy): request sequences proved from the contracts alone.

Two behaviours of the code are worth knowing:

- A `null` score, moves or time passes the guard, which tests `=== undefined`.
  The INSERT then violates the column's NOT NULL constraint, and the request ends
  in 500 "Failed to save score", not 400 (`Scenarios.NullScore`).
- The 201 answer echoes the raw `difficulty` from the request, not the stored
  value. A submission without a difficulty stores `'normal'` but its answer has
  no difficulty (`Scenarios.FirstSubmission`).

No stored row can lack `name`, `score`, `moves`, `time` or `difficulty`. The
fields of `ScoreTypes.Score` are not optional, and `Submit` can only build a row
through `BindRow`, which refuses nulls.

## Model

| member | source | states |
|---|---|---|
| ScoreRules.GuardCases | server.js:71 | the guard (`MissingRequiredFields`) refuses a body exactly when `name` is undefined, null or `""`, or `score`, `moves` or `time` is undefined; a non-empty name with null or zero numbers passes |
| ScoreRules.StoredDifficulty | server.js:77 | the stored difficulty is never empty; it is the supplied one when that is a non-empty string, and `'normal'` otherwise |
| ScoreRules.BindRow | server.js:30-33 | an accepted submission yields a row exactly when none of `score`, `moves`, `time` is null; the row carries the submitted values, the given id and timestamp, and the defaulted difficulty |
| ScoreRules.Find | server.js:100-111 | a lookup returns a row of the table with exactly that id, and returns nothing exactly when no row has it |
| ScoreRules.Count | server.js:125 | the DELETE's change count is zero exactly when no row has the id |
| ScoreRules.RemoveId | server.js:119-121 | the DELETE removes as many rows as carry the id; a row stays exactly when its id differs; afterwards no row has the id |
| ScoreRules.CountAtMostOne | server.js:29 | with ids unique (PRIMARY KEY), a DELETE changes at most one row, and exactly one when the id is present |
| ScoreRules.FindUnique | server.js:101 | with ids unique, a lookup by id finds the one row that carries it |
| ScoreRules.FindAfterRemove | server.js:119-121 | deleting one id leaves the lookup of every other id unchanged |
| ScoreRules.RemoveKeepsAscending | server.js:119-121 | deleting keeps the remaining rows in rowid order |
| ScoreRules.RemoveAbsent | server.js:119-126 | deleting an absent id leaves the table as it was |
| ScoreRules.FindAfterAppend | server.js:75-77 | a row inserted with an id above all present ids is found by its id, and other lookups are unchanged |
| Ranking.InsertDescending | server.js:54 | inserting a row into a score-descending sequence keeps it descending and adds exactly that row |
| Ranking.SortDescending | server.js:54 | the ordering is a permutation of the table, in non-increasing score order |
| Ranking.Top | server.js:54 | the listing meets `IsTop`: `min(10, rows)` rows drawn from the table, non-increasing by score, none left out scoring above the last |
| Ranking.TopOfSorted | server.js:54 | any prefix of a descending permutation of the table is a valid listing |
| Ranking.TopFromTable | server.js:54 | every listed row is a row of the table, and with at most 10 rows the listing holds all of them; it never holds more than the limit, and no row left out scores above any listed row |
| Ranking.TopScoresDetermined | server.js:54 | two valid listings of the same table have the same length and the same score at every position; only the order of equal scores may differ |
| ScoreStore.ScoreTable.constructor | server.js:27-39 | creating the table gives no rows, a counter at 0 and no issued ids |
| ScoreStore.ScoreTable.IdsBelowCounter | server.js:29 | every issued id and every row id lies between 1 and the AUTOINCREMENT counter |
| ScoreStore.ScoreTable.Submit | server.js:67-94 | validation error exactly when `name` is falsy or `score`/`moves`/`time` is undefined, without touching the table; created exactly when also the insert can succeed; then one row is appended under `lastId + 1`, above every id issued before (deleted ones too), and the answer echoes the raw fields; every other outcome leaves rows, counter and history unchanged |
| ScoreStore.ScoreTable.ListTop | server.js:52-64 | storage failure exactly when the engine fails; otherwise the answer meets `IsTop` for the current rows and limit 10 |
| ScoreStore.ScoreTable.GetById | server.js:97-113 | storage failure, not found and found are told apart; not found exactly when no row has the id; a found row is the only row with that id |
| ScoreStore.ScoreTable.DeleteById | server.js:116-132 | not found exactly when no row had the id; otherwise exactly that row goes; every other lookup, the counter and the issued ids are unchanged; afterwards the id is absent |
| ScoreApi.PostResponse | server.js:79-91 | 201 with id and echo, 400 "Missing required fields", 500 "Failed to save score"; the status alone tells the outcome |
| ScoreApi.ListResponse | server.js:55-62 | 200 with the rows, or 500 "Database error" |
| ScoreApi.GetResponse | server.js:103-111 | 200 with the row, 404 "Score not found", 500 "Database error"; not found and failure answer differently |
| ScoreApi.DeleteResponse | server.js:122-130 | 200 "Score deleted successfully", 404 "Score not found", 500 "Database error" |
| Scenarios.FirstSubmission | server.js:83-90 | the first complete submission is created under id 1, its answer omits the difficulty, and the stored row holds `'normal'` |
| Scenarios.MissingName | server.js:71-73 | a body without `name` answers 400 and the table stays empty |
| Scenarios.ZeroAccepted | server.js:71 | zero score, moves and time pass the guard and are stored; an empty difficulty is echoed as sent and stored as `'normal'` |
| Scenarios.NullScore | server.js:79-81 | a null score passes the guard, the insert fails, the answer is 500 and nothing is stored |
| Scenarios.HigherScoreListedFirst | server.js:54 | after scores 50 and 90 the listing is exactly the stored 90 row (id 2), then the stored 50 row (id 1) |
| Scenarios.TopOfTwo | server.js:54 | the listing of a two-row table with distinct scores puts the higher one first |
| Scenarios.DeleteNeverIssued | server.js:119-126 | deleting any id the store never issued (zero, a negative id, one above the counter) answers 404, and rows, counter and issued ids stay as they were |
| Scenarios.SubmitThenGet | server.js:75-111 | on any valid table, a created submission is returned by a lookup of its id with the submitted values and the defaulted difficulty, and every other lookup answers as before; a submission that is not created leaves the rows unchanged |
| Scenarios.DeleteIsFinal | server.js:119-131 | after a delete, reading and deleting the same id both answer 404, and the next created id is larger than the deleted one |

## Left out

- Express wiring, CORS, JSON body parsing and the `PORT` default (server.js:1-12, 146-149): framework plumbing.
- Opening the SQLite file, the log output and shutdown on SIGINT (server.js:15-23, 152-162): I/O and process lifecycle.
- Re-running `CREATE TABLE IF NOT EXISTS` on an existing table: it changes nothing, so the model has only the constructor for a fresh table.
- The callback style of the sqlite3 driver: every store call is a synchronous method.
- Real storage failures (I/O errors, a locked file): they are the input `storageFails`. The engine's failing inserts that the model does decide are the NOT NULL constraint and the exhausted counter (rowid 2^63-1, SQLITE_FULL).
- `created_at` (server.js:38): an opaque string passed to `Submit` in place of CURRENT_TIMESTAMP.
- The order of equal scores in the listing: SQL does not fix it. `IsTop` allows any, and `Top` picks one.
- The conversion of the `:id` path text to an integer, which is SQLite type affinity: ids are integers here.
- The `deviceType`, `deviceOS` and `browser` columns (server.js:35-37): nothing writes them, they are always null. Without them the listing's column list equals the whole row, so `SELECT *` and the listing return the same record type.
- JSON values of other types than the model's fields: a number as `name`, a string or fraction as `score`, booleans. The model types `name` and `difficulty` as strings and `score`, `moves`, `time` as integers.
- Number precision: `score`, `moves`, `time` and the id echoed from `this.lastID` are JavaScript doubles, exact only up to 2^53 (9007199254740993 arrives as 9007199254740992). The model's integers are always exact, so it does not capture that rounding, while it does decide the exhausted counter at 2^63-1.
- The health endpoint and the catch-all 500 handler (server.js:135-143): no logic.

/** The pure rules of the leaderboard: the submission guard, the difficulty default,
    the NOT NULL constraints of the `scores` schema, and lookup and deletion by id
    over the table's rows. */
module ScoreRules {
  import opened ScoreTypes

  /** The column default of `difficulty`, also written by the insert itself. */
  const DefaultDifficulty: string := "normal"

  /** The largest rowid SQLite can assign; an AUTOINCREMENT table whose counter has
      reached it refuses further inserts (SQLITE_FULL). */
  const MaxRowId: int := 0x7FFF_FFFF_FFFF_FFFF

  /** JavaScript truthiness of a string-valued field: `undefined`, `null` and the
      empty string are falsy, every other string is truthy. */
  predicate Truthy(f: Field<string>)
  {
    f.Value? && f.value != ""
  }

  /** The guard of POST /api/scores: `name` is tested for truthiness, while `score`,
      `moves` and `time` are only compared with `undefined`. */
  predicate MissingRequiredFields(s: Submission)
  {
    !Truthy(s.name) || s.score.Undefined? || s.moves.Undefined? || s.time.Undefined?
  }

  /** The guard refuses a body exactly when `name` is missing, null or the empty
      string, or one of `score`, `moves`, `time` is missing. A null or zero number
      passes it, and so does any non-empty name. */
  lemma GuardCases(s: Submission)
    ensures MissingRequiredFields(s) <==>
              (|| s.name == Undefined || s.name == Null || s.name == Value("")
               || s.score == Undefined || s.moves == Undefined || s.time == Undefined)
    ensures (&& s.name.Value? && |s.name.value| > 0
             && (s.score == Null || s.score == Value(0))
             && (s.moves == Null || s.moves == Value(0))
             && (s.time == Null || s.time == Value(0))) ==> !MissingRequiredFields(s)
  {
  }

  /** What the insert writes into `difficulty`: `difficulty || 'normal'`. */
  function StoredDifficulty(d: Field<string>): (r: string)
    ensures r != ""
    ensures Truthy(d) ==> r == d.value
    ensures r != DefaultDifficulty ==> d == Value(r)
  {
    if Truthy(d) then d.value else DefaultDifficulty
  }

  /** The row an INSERT of an accepted submission writes under the given id, or None
      when the NOT NULL constraint of `score`, `moves` or `time` rejects a null. */
  function BindRow(s: Submission, id: int, createdAt: string): (r: Option<Score>)
    requires !MissingRequiredFields(s)
    ensures r.None? <==> (s.score.Null? || s.moves.Null? || s.time.Null?)
    ensures r.Some? ==> r.value.id == id && r.value.createdAt == createdAt
    ensures r.Some? ==> (Value(r.value.name) == s.name && Value(r.value.score) == s.score &&
                         Value(r.value.moves) == s.moves && Value(r.value.time) == s.time)
    ensures r.Some? ==> r.value.difficulty == StoredDifficulty(s.difficulty)
  {
    if s.score.Null? || s.moves.Null? || s.time.Null? then None
    else Some(Score(id, s.name.value, s.score.value, s.moves.value, s.time.value,
                    StoredDifficulty(s.difficulty), createdAt))
  }

  /** The ids present in a table. */
  function Ids(rows: seq<Score>): set<int>
  {
    set r | r in rows :: r.id
  }

  /** Ids ascend strictly along the sequence. */
  ghost predicate Increasing(ids: seq<int>)
  {
    forall i, j :: 0 <= i < j < |ids| ==> ids[i] < ids[j]
  }

  /** The ids of the rows, in table order. */
  function IdList(rows: seq<Score>): (ids: seq<int>)
    ensures |ids| == |rows|
    ensures forall i :: 0 <= i < |rows| ==> ids[i] == rows[i].id
  {
    seq(|rows|, i requires 0 <= i < |rows| => rows[i].id)
  }

  /** Rows are kept in rowid order, so ids ascend strictly along the table; in
      particular no two rows share an id (the PRIMARY KEY). */
  ghost predicate IdsAscending(rows: seq<Score>)
  {
    Increasing(IdList(rows))
  }

  /** `SELECT * FROM scores WHERE id = ?`: the first row with that id, if any. */
  function Find(rows: seq<Score>, id: int): (r: Option<Score>)
    ensures r.Some? ==> r.value in rows && r.value.id == id
    ensures r.None? <==> id !in Ids(rows)
  {
    if rows == [] then None
    else if rows[0].id == id then Some(rows[0])
    else
      assert Ids(rows) == {rows[0].id} + Ids(rows[1..]) by { IdsCons(rows); }
      Find(rows[1..], id)
  }

  /** The number of rows with that id: what `this.changes` reports after the DELETE. */
  function Count(rows: seq<Score>, id: int): (n: nat)
    ensures n <= |rows|
    ensures n == 0 <==> id !in Ids(rows)
  {
    if rows == [] then 0
    else
      IdsCons(rows);
      (if rows[0].id == id then 1 else 0) + Count(rows[1..], id)
  }

  /** `DELETE FROM scores WHERE id = ?`: every row with that id goes, every other row
      stays, in the same order. */
  function RemoveId(rows: seq<Score>, id: int): (r: seq<Score>)
    ensures |r| == |rows| - Count(rows, id)
    ensures forall x :: x in r <==> x in rows && x.id != id
    ensures id !in Ids(r)
  {
    if rows == [] then []
    else if rows[0].id == id then RemoveId(rows[1..], id)
    else [rows[0]] + RemoveId(rows[1..], id)
  }

  lemma IdsCons(rows: seq<Score>)
    requires rows != []
    ensures Ids(rows) == {rows[0].id} + Ids(rows[1..])
  {
    assert forall r :: r in rows <==> r == rows[0] || r in rows[1..];
  }

  /** In a table whose ids ascend, an id matches at most one row, so a DELETE
      changes zero rows or one. */
  lemma {:induction false} CountAtMostOne(rows: seq<Score>, id: int)
    requires IdsAscending(rows)
    ensures Count(rows, id) <= 1
    ensures Count(rows, id) == 1 <==> id in Ids(rows)
  {
    if rows != [] {
      CountAtMostOne(rows[1..], id);
      if rows[0].id == id {
        assert id !in Ids(rows[1..]) by {
          forall r | r in rows[1..] ensures r.id != id {
            var k :| 0 <= k < |rows[1..]| && rows[1..][k] == r;
            assert rows[0].id < rows[k + 1].id;
          }
        }
      }
    }
  }

  /** In a table whose ids ascend, the row Find returns is the only row with that id. */
  lemma {:induction false} FindUnique(rows: seq<Score>, id: int, x: Score)
    requires IdsAscending(rows)
    requires x in rows && x.id == id
    ensures Find(rows, id) == Some(x)
  {
    if rows[0] != x {
      assert x in rows[1..];
      var k :| 0 <= k < |rows[1..]| && rows[1..][k] == x;
      assert rows[0].id < rows[k + 1].id;
      FindUnique(rows[1..], id, x);
    }
  }

  /** Deleting one id leaves the lookup of every other id as it was. */
  lemma {:induction false} FindAfterRemove(rows: seq<Score>, id: int, other: int)
    requires other != id
    ensures Find(RemoveId(rows, id), other) == Find(rows, other)
  {
    if rows != [] {
      FindAfterRemove(rows[1..], id, other);
    }
  }

  /** Deleting keeps the rows that stay in their order, so ids still ascend. */
  lemma {:induction false} RemoveKeepsAscending(rows: seq<Score>, id: int)
    requires IdsAscending(rows)
    ensures IdsAscending(RemoveId(rows, id))
  {
    if rows != [] {
      AscendingSplit(rows);
      RemoveKeepsAscending(rows[1..], id);
      if rows[0].id != id {
        var rest := RemoveId(rows[1..], id);
        assert ([rows[0]] + rest)[1..] == rest;
        AscendingSplit([rows[0]] + rest);
      }
    }
  }

  /** Ids ascend along a table exactly when they ascend along its tail and the first
      id is below every later one. */
  lemma AscendingSplit(rows: seq<Score>)
    requires rows != []
    ensures IdsAscending(rows) <==>
              IdsAscending(rows[1..]) && forall x :: x in rows[1..] ==> rows[0].id < x.id
  {
    var ids, tail := IdList(rows), IdList(rows[1..]);
    if IdsAscending(rows) {
      forall i, j | 0 <= i < j < |tail| ensures tail[i] < tail[j] {
        assert tail[i] == ids[i + 1] && tail[j] == ids[j + 1];
      }
      forall x | x in rows[1..] ensures rows[0].id < x.id {
        var k :| 0 <= k < |rows[1..]| && rows[1..][k] == x;
        assert ids[0] < ids[k + 1];
      }
    }
    if IdsAscending(rows[1..]) && forall x :: x in rows[1..] ==> rows[0].id < x.id {
      forall i, j | 0 <= i < j < |ids| ensures ids[i] < ids[j] {
        assert rows[j] in rows[1..];
        if i > 0 {
          assert ids[i] == tail[i - 1] && ids[j] == tail[j - 1];
        }
      }
    }
  }

  /** Deleting an id that is absent leaves the table as it was. */
  lemma {:induction false} RemoveAbsent(rows: seq<Score>, id: int)
    requires id !in Ids(rows)
    ensures RemoveId(rows, id) == rows
  {
    if rows != [] {
      IdsCons(rows);
      RemoveAbsent(rows[1..], id);
    }
  }

  /** A row appended with an id above every present id is what a later lookup of
      that id finds, and every other lookup is as before. */
  lemma {:induction false} FindAfterAppend(rows: seq<Score>, row: Score, other: int)
    requires forall x :: x in rows ==> x.id < row.id
    ensures Find(rows + [row], row.id) == Some(row)
    ensures other != row.id ==> Find(rows + [row], other) == Find(rows, other)
  {
    if rows != [] {
      assert (rows + [row])[1..] == rows[1..] + [row];
      FindAfterAppend(rows[1..], row, other);
    }
  }
}

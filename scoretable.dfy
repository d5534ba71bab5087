/** The `scores` table and the four request handlers that read and change it, over an
    in-memory table in place of SQLite. Every store call is synchronous; whether the
    storage engine fails a call (I/O error, locked file) is an input. */
module ScoreStore {
  import opened ScoreTypes
  import opened ScoreRules
  import opened Ranking

  class ScoreTable {
    /** The rows of `scores`, in rowid order. */
    var rows: seq<Score>
    /** The AUTOINCREMENT counter: the largest id ever assigned, 0 before the first insert. */
    var lastId: int
    /** Every id ever assigned, in assignment order, including those of deleted rows. */
    ghost var issued: seq<int>

    ghost predicate Valid()
      reads this
    {
      && 0 <= lastId <= MaxRowId
      && Increasing(issued)
      && (issued == [] ==> lastId == 0)
      && (issued != [] ==> issued[0] >= 1 && issued[|issued| - 1] == lastId)
      && IdsAscending(rows)
      && (forall r :: r in rows ==> r.id in issued)
    }

    /** `CREATE TABLE IF NOT EXISTS scores (...)` on a fresh database. */
    constructor ()
      ensures Valid()
      ensures rows == [] && lastId == 0 && issued == []
    {
      rows := [];
      lastId := 0;
      issued := [];
    }

    /** Every id in the table, and every id ever assigned, is at most the counter. */
    lemma IdsBelowCounter()
      requires Valid()
      ensures forall i :: i in issued ==> 1 <= i <= lastId
      ensures forall r :: r in rows ==> 1 <= r.id <= lastId
    {
      forall i | i in issued ensures 1 <= i <= lastId {
        var k :| 0 <= k < |issued| && issued[k] == i;
        assert issued[0] <= issued[k] <= issued[|issued| - 1];
      }
    }

    /** POST /api/scores. A submission that fails the guard is rejected before the
        store is touched. Otherwise the INSERT runs: it fails when the engine fails,
        when `score`, `moves` or `time` is null (NOT NULL), or when the id counter is
        exhausted; a failed INSERT changes nothing. A successful one appends one row
        under the next id and answers with that id and the submitted fields as they
        came, the raw `difficulty` included. */
    method Submit(s: Submission, createdAt: string, storageFails: bool) returns (o: SubmitOutcome)
      requires Valid()
      modifies this
      ensures Valid()
      ensures o.ValidationError? <==> MissingRequiredFields(s)
      ensures o.Created? <==> (&& !MissingRequiredFields(s) && !storageFails
                               && !s.score.Null? && !s.moves.Null? && !s.time.Null?
                               && old(lastId) < MaxRowId)
      ensures !o.Created? ==> rows == old(rows) && lastId == old(lastId) && issued == old(issued)
      ensures o.Created? ==>
        && o.id == old(lastId) + 1 == lastId
        && (forall i :: i in old(issued) ==> i < o.id)
        && issued == old(issued) + [o.id]
        && rows == old(rows) + [Score(o.id, s.name.value, s.score.value, s.moves.value,
                                      s.time.value, StoredDifficulty(s.difficulty), createdAt)]
        && o.echo == Echo(s.name.value, s.score.value, s.moves.value, s.time.value, s.difficulty)
    {
      if MissingRequiredFields(s) {
        return ValidationError;
      }
      if storageFails || lastId == MaxRowId {
        return SubmitOutcome.StorageError;
      }
      var id := lastId + 1;
      var row := BindRow(s, id, createdAt);
      if row.None? {
        return SubmitOutcome.StorageError;
      }
      IdsBelowCounter();
      rows := rows + [row.value];
      lastId := id;
      issued := issued + [id];
      o := Created(id, Echo(s.name.value, s.score.value, s.moves.value, s.time.value, s.difficulty));
    }

    /** GET /api/scores: the ten best rows by score, highest first. */
    method ListTop(storageFails: bool) returns (o: ListOutcome)
      requires Valid()
      ensures o.StorageError? <==> storageFails
      ensures o.Listed? ==> IsTop(rows, o.top, TopLimit)
    {
      if storageFails {
        return ListOutcome.StorageError;
      }
      o := Listed(Top(rows, TopLimit));
    }

    /** GET /api/scores/:id: the row with exactly that id, or not found. */
    method GetById(id: int, storageFails: bool) returns (o: GetOutcome)
      requires Valid()
      ensures o.StorageError? <==> storageFails
      ensures o.NotFound? <==> !storageFails && id !in Ids(rows)
      ensures o.Found? ==> o.row in rows && o.row.id == id
      ensures o.Found? ==> forall r :: r in rows && r.id == id ==> r == o.row
    {
      if storageFails {
        return GetOutcome.StorageError;
      }
      var row := Find(rows, id);
      if row.None? {
        return GetOutcome.NotFound;
      }
      forall r | r in rows && r.id == id ensures r == row.value {
        FindUnique(rows, id, r);
      }
      o := Found(row.value);
    }

    /** DELETE /api/scores/:id: removes the row with that id; a change count of zero
        is reported as not found. The id counter is not touched, so a deleted id is
        never handed out again. */
    method DeleteById(id: int, storageFails: bool) returns (o: DeleteOutcome)
      requires Valid()
      modifies this
      ensures Valid()
      ensures lastId == old(lastId) && issued == old(issued)
      ensures o.StorageError? <==> storageFails
      ensures o.NotFound? <==> !storageFails && id !in old(Ids(rows))
      ensures o.Deleted? ==> |rows| == |old(rows)| - 1
      ensures !storageFails ==> rows == RemoveId(old(rows), id)
      ensures o.StorageError? ==> rows == old(rows)
      ensures id !in Ids(rows) || o.StorageError?
      ensures forall x :: x != id ==> Find(rows, x) == Find(old(rows), x)
    {
      if storageFails {
        return DeleteOutcome.StorageError;
      }
      var changes := Count(rows, id);
      CountAtMostOne(rows, id);
      RemoveKeepsAscending(rows, id);
      forall x | x != id ensures Find(RemoveId(rows, id), x) == Find(rows, x) {
        FindAfterRemove(rows, id, x);
      }
      rows := RemoveId(rows, id);
      if changes == 0 {
        o := DeleteOutcome.NotFound;
      } else {
        o := Deleted;
      }
    }
  }
}

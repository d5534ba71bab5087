/** Values exchanged by the leaderboard service: request fields, table rows and the
    outcomes of the four score operations. */
module ScoreTypes {

  /** One field of a parsed JSON request body. JavaScript tells apart a key that is
      missing (`undefined`), a key whose value is `null`, and a key with a value. */
  datatype Field<T> = Undefined | Null | Value(value: T)

  datatype Option<T> = None | Some(value: T)

  /** The body of POST /api/scores: `{ name, score, moves, time, difficulty }`. */
  datatype Submission = Submission(
    name: Field<string>,
    score: Field<int>,
    moves: Field<int>,
    time: Field<int>,
    difficulty: Field<string>)

  /** One row of the `scores` table. The schema declares `name`, `score`, `moves` and
      `time` NOT NULL, and the only insert always writes a difficulty, so none of these
      columns can hold a null. `createdAt` is the store's CURRENT_TIMESTAMP, kept opaque. */
  datatype Score = Score(
    id: int,
    name: string,
    score: int,
    moves: int,
    time: int,
    difficulty: string,
    createdAt: string)

  /** The fields the 201 response repeats back. `difficulty` is the raw request field,
      so an absent or null difficulty is echoed as absent or null. */
  datatype Echo = Echo(name: string, score: int, moves: int, time: int, difficulty: Field<string>)

  datatype SubmitOutcome = Created(id: int, echo: Echo) | ValidationError | StorageError

  datatype ListOutcome = Listed(top: seq<Score>) | StorageError

  datatype GetOutcome = Found(row: Score) | NotFound | StorageError

  datatype DeleteOutcome = Deleted | NotFound | StorageError
}

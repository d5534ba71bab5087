/** Request sequences against the leaderboard, proved from the contracts of
    ScoreTable and ScoreApi alone. */
module Scenarios {
  import opened ScoreTypes
  import opened ScoreRules
  import opened Ranking
  import opened ScoreStore
  import opened ScoreApi

  /** A complete submission from a fresh store is created under id 1. The answer
      leaves `difficulty` out, as the request did, while the stored row holds the
      default. */
  method FirstSubmission() returns (post: Response, get: Response)
    ensures post == Response(201, CreatedBody(1, Echo("Ann", 100, 20, 45, Undefined)))
    ensures get == Response(200, RowBody(Score(1, "Ann", 100, 20, 45, "normal", "t0")))
  {
    var t := new ScoreTable();
    var o := t.Submit(Submission(Value("Ann"), Value(100), Value(20), Value(45), Undefined), "t0", false);
    post := PostResponse(o);
    var g := t.GetById(1, false);
    get := GetResponse(g);
  }

  /** A body without `name` is refused with 400 and nothing is stored. */
  method MissingName() returns (post: Response, list: Response)
    ensures post == Response(400, ErrorBody("Missing required fields"))
    ensures list == Response(200, RowsBody([]))
  {
    var t := new ScoreTable();
    var o := t.Submit(Submission(Undefined, Value(100), Value(20), Value(45), Undefined), "t0", false);
    post := PostResponse(o);
    var l := t.ListTop(false);
    list := ListResponse(l);
  }

  /** Zeros pass the guard, which only compares with `undefined`; an empty
      difficulty is echoed as sent and stored as the default. */
  method ZeroAccepted() returns (post: Response, get: Response)
    ensures post == Response(201, CreatedBody(1, Echo("Bo", 0, 0, 0, Value(""))))
    ensures get == Response(200, RowBody(Score(1, "Bo", 0, 0, 0, "normal", "t0")))
  {
    var t := new ScoreTable();
    var o := t.Submit(Submission(Value("Bo"), Value(0), Value(0), Value(0), Value("")), "t0", false);
    post := PostResponse(o);
    var g := t.GetById(1, false);
    get := GetResponse(g);
  }

  /** A null score also passes the guard; the NOT NULL column then fails the insert,
      so the answer is 500, not 400, and nothing is stored. */
  method NullScore() returns (post: Response, get: Response)
    ensures post == Response(500, ErrorBody("Failed to save score"))
    ensures get == Response(404, ErrorBody("Score not found"))
  {
    var t := new ScoreTable();
    var o := t.Submit(Submission(Value("Cy"), Null, Value(20), Value(45), Undefined), "t0", false);
    post := PostResponse(o);
    var g := t.GetById(1, false);
    get := GetResponse(g);
  }

  /** After scores 50 and 90 the listing holds both rows, the 90 first. */
  method HigherScoreListedFirst() returns (top: seq<Score>)
    ensures top == [Score(2, "Ed", 90, 9, 9, "normal", "t1"), Score(1, "Di", 50, 9, 9, "normal", "t0")]
  {
    var t := new ScoreTable();
    var a := t.Submit(Submission(Value("Di"), Value(50), Value(9), Value(9), Undefined), "t0", false);
    var b := t.Submit(Submission(Value("Ed"), Value(90), Value(9), Value(9), Undefined), "t1", false);
    var l := t.ListTop(false);
    top := l.top;
    var r50 := Score(1, "Di", 50, 9, 9, "normal", "t0");
    var r90 := Score(2, "Ed", 90, 9, 9, "normal", "t1");
    assert t.rows == [r50, r90];
    TopOfTwo(r50, r90, top);
  }

  /** The listing of a two-row table puts the higher score first. */
  lemma TopOfTwo(lo: Score, hi: Score, top: seq<Score>)
    requires lo.score < hi.score
    requires IsTop([lo, hi], top, TopLimit)
    ensures top == [hi, lo]
  {
    TopFromTable([lo, hi], top, TopLimit);
    assert multiset(top) == multiset{lo, hi};
    assert top[0] in multiset(top) && top[1] in multiset(top);
    assert top == [top[0], top[1]];
    assert top[0].score >= top[1].score;
  }

  /** Deleting an id the store never issued answers 404 and changes nothing. */
  method DeleteNeverIssued(t: ScoreTable, id: int) returns (del: Response)
    requires t.Valid() && id !in t.issued
    modifies t
    ensures del == Response(404, ErrorBody("Score not found"))
    ensures t.Valid()
    ensures t.rows == old(t.rows) && t.lastId == old(t.lastId) && t.issued == old(t.issued)
  {
    RemoveAbsent(t.rows, id);
    var o := t.DeleteById(id, false);
    del := DeleteResponse(o);
  }

  /** A created submission is what a later lookup of its id returns, with the
      defaulted difficulty; every other lookup answers as before. */
  method SubmitThenGet(t: ScoreTable, s: Submission, createdAt: string) returns (post: SubmitOutcome, get: GetOutcome)
    requires t.Valid()
    modifies t
    ensures post.Created? ==>
      && s.name.Value? && s.score.Value? && s.moves.Value? && s.time.Value?
      && get == Found(Score(post.id, s.name.value, s.score.value, s.moves.value, s.time.value,
                            StoredDifficulty(s.difficulty), createdAt))
    ensures post.Created? ==> forall x :: x != post.id ==> Find(t.rows, x) == Find(old(t.rows), x)
    ensures !post.Created? ==> t.rows == old(t.rows)
  {
    t.IdsBelowCounter();
    ghost var before := t.rows;
    post := t.Submit(s, createdAt, false);
    if post.Created? {
      var row := Score(post.id, s.name.value, s.score.value, s.moves.value, s.time.value,
                       StoredDifficulty(s.difficulty), createdAt);
      forall x ensures x != post.id ==> Find(t.rows, x) == Find(before, x) {
        FindAfterAppend(before, row, x);
      }
    }
    get := t.GetById(if post.Created? then post.id else 0, false);
    if post.Created? {
      FindUnique(t.rows, post.id, t.rows[|t.rows| - 1]);
    }
  }

  /** Once a row is deleted, looking it up and deleting it again both answer 404,
      and the next submission gets an id above the deleted one. */
  method DeleteIsFinal(t: ScoreTable, id: int, next: Submission) returns (first: Response, get: Response, second: Response, post: SubmitOutcome)
    requires t.Valid() && id in Ids(t.rows)
    modifies t
    ensures first == Response(200, MessageBody("Score deleted successfully"))
    ensures get == Response(404, ErrorBody("Score not found"))
    ensures second == Response(404, ErrorBody("Score not found"))
    ensures post.Created? ==> post.id > id
  {
    var d1 := t.DeleteById(id, false);
    first := DeleteResponse(d1);
    var g := t.GetById(id, false);
    get := GetResponse(g);
    var d2 := t.DeleteById(id, false);
    second := DeleteResponse(d2);
    t.IdsBelowCounter();
    post := t.Submit(next, "t9", false);
  }
}

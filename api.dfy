/** The HTTP answers of the four score endpoints: a status code and a JSON body per
    outcome of the store call, with the service's fixed error messages. */
module ScoreApi {
  import opened ScoreTypes

  datatype Body =
    | ErrorBody(error: string)
    | CreatedBody(id: int, echo: Echo)
    | RowsBody(rows: seq<Score>)
    | RowBody(row: Score)
    | MessageBody(message: string)

  datatype Response = Response(status: int, body: Body)

  /** POST /api/scores: 201 with the echo, 400 for a rejected body, 500 for a failed insert. */
  function PostResponse(o: SubmitOutcome): (r: Response)
    ensures r.status == 201 <==> o.Created?
    ensures r.status == 400 <==> o.ValidationError?
    ensures r.status == 500 <==> o.StorageError?
    ensures o.Created? ==> r.body == CreatedBody(o.id, o.echo)
    ensures o.ValidationError? ==> r.body == ErrorBody("Missing required fields")
    ensures o.StorageError? ==> r.body == ErrorBody("Failed to save score")
  {
    match o
    case Created(id, echo) => Response(201, CreatedBody(id, echo))
    case ValidationError => Response(400, ErrorBody("Missing required fields"))
    case StorageError => Response(500, ErrorBody("Failed to save score"))
  }

  /** GET /api/scores: 200 with the rows, or 500. */
  function ListResponse(o: ListOutcome): (r: Response)
    ensures r.status == 200 <==> o.Listed?
    ensures r.status == 500 <==> o.StorageError?
    ensures o.Listed? ==> r.body == RowsBody(o.top)
    ensures o.StorageError? ==> r.body == ErrorBody("Database error")
  {
    match o
    case Listed(top) => Response(200, RowsBody(top))
    case StorageError => Response(500, ErrorBody("Database error"))
  }

  /** GET /api/scores/:id: 200 with the row; not found (404) and a storage failure
      (500) answer differently. */
  function GetResponse(o: GetOutcome): (r: Response)
    ensures r.status == 200 <==> o.Found?
    ensures r.status == 404 <==> o.NotFound?
    ensures r.status == 500 <==> o.StorageError?
    ensures o.Found? ==> r.body == RowBody(o.row)
    ensures o.NotFound? ==> r.body == ErrorBody("Score not found")
    ensures o.StorageError? ==> r.body == ErrorBody("Database error")
  {
    match o
    case Found(row) => Response(200, RowBody(row))
    case NotFound => Response(404, ErrorBody("Score not found"))
    case StorageError => Response(500, ErrorBody("Database error"))
  }

  /** DELETE /api/scores/:id: 200 with a message, 404 when no row changed, or 500. */
  function DeleteResponse(o: DeleteOutcome): (r: Response)
    ensures r.status == 200 <==> o.Deleted?
    ensures r.status == 404 <==> o.NotFound?
    ensures r.status == 500 <==> o.StorageError?
    ensures o.Deleted? ==> r.body == MessageBody("Score deleted successfully")
    ensures o.NotFound? ==> r.body == ErrorBody("Score not found")
    ensures o.StorageError? ==> r.body == ErrorBody("Database error")
  {
    match o
    case Deleted => Response(200, MessageBody("Score deleted successfully"))
    case NotFound => Response(404, ErrorBody("Score not found"))
    case StorageError => Response(500, ErrorBody("Database error"))
  }
}

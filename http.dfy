/**
 * What a route handler hands back to FastAPI.
 */
module Http {

  import opened Sql
  import opened Store

  /** A JSON response body: one object, or a list of rows. */
  datatype Body = Fields(fields: Row) | Listing(rows: seq<Row>)

  /** Why a handler stopped with an exception it does not catch; FastAPI answers 500. */
  datatype Fault =
    | Database(error: DbError)   // the driver raised while executing a statement
    | NoneHasNoGet               // `.get` called on a `get_one` that found nothing

  datatype Response =
    | Reply(status: nat, body: Body)                                  // the handler returned normally
    | Raised(status: nat, detail: string, headers: map<string, string>) // an `HTTPException`
    | Crashed(fault: Fault)                                           // an uncaught exception

  /** `raise HTTPException(status_code=status, detail=detail)`. */
  function Refuse(status: nat, detail: string): Response
  {
    Raised(status, detail, map[])
  }
}

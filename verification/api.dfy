/** What a controller action hands back: an HTTP response and the store as
    the database holds it afterwards. */
module Api {
  import opened Base
  import opened Database

  /** The responses the controllers produce.
      - `Ok(body)`: 200 with a JSON body (a JsonResult);
      - `OkEmpty`: 200 without a body (an OkResult);
      - `NotFound(error)`: 404 with body `{ Error = error }`;
      - `ServerError`: the explicit 500 returned for a null payload;
      - `NotImplemented`: the action throws NotImplementedException (a 500);
      - `DbError(violation)`: SaveChanges throws because the database refused
        the write (an unhandled exception, a 500);
      - `QueryError`: the database refuses a query, as SQL Server does a
        `TOP` with a negative row count (an unhandled exception, a 500). */
  datatype Response<+T> =
    | Ok(body: T)
    | OkEmpty
    | NotFound(error: string)
    | ServerError
    | NotImplemented
    | DbError(violation: Violation)
    | QueryError

  /** The store after an action, and its response. */
  datatype Outcome<+T> = Outcome(store: Store, response: Response<T>)

  const NotFoundSuffix := " has not been found"

  /** The message of a 404: `{name} {id} has not been found`. */
  function NotFoundError(name: string, id: int): (msg: string)
    ensures |msg| > |name| + 1 + |NotFoundSuffix|
    ensures msg[..|name|] == name && msg[|name|] == ' '
    ensures msg[|msg| - |NotFoundSuffix|..] == NotFoundSuffix
    ensures ParseInt(msg[|name| + 1..|msg| - |NotFoundSuffix|]) == Some(id)
  {
    var digits := IntToString(id);
    var msg := name + " " + digits + NotFoundSuffix;
    assert msg[|name| + 1..|msg| - |NotFoundSuffix|] == digits;
    ParseIntToString(id);
    msg
  }

  /** Two 404 messages with the same name are equal exactly when they name
      the same id. */
  lemma NotFoundErrorNamesId(name: string, a: int, b: int)
    ensures NotFoundError(name, a) == NotFoundError(name, b) <==> a == b
  {
    var ma := NotFoundError(name, a);
    var mb := NotFoundError(name, b);
    if ma == mb {
      assert ma[|name| + 1..|ma| - |NotFoundSuffix|] == mb[|name| + 1..|mb| - |NotFoundSuffix|];
    }
  }

  /** 404 messages for two names that differ at position `i` differ,
      whatever ids they carry. */
  lemma NotFoundErrorNamesEntity(a: string, b: string, i: int, x: int, y: int)
    requires 0 <= i < |a| && i < |b| && a[i] != b[i]
    ensures NotFoundError(a, x) != NotFoundError(b, y)
  {
    assert NotFoundError(a, x)[..|a|][i] == a[i];
  }

  /** SaveChanges: a committed write answers with the stored row; a refused
      one throws and leaves the store as it was. */
  function Commit<T>(s: Store, saved: Saved<T>): Outcome<T> {
    match saved
    case Saved(s1, row) => Outcome(s1, Ok(row))
    case Rejected(v) => Outcome(s, DbError(v))
  }
}

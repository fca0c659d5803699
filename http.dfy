/**
 * The JSON replies the route handlers build, with their status codes. A
 * record reply carries the record itself; its JSON rendering (and the
 * `created_at` field some handlers add) is not part of the model.
 */
module Http {
  import opened Python
  import opened Database

  datatype Reply<T> =
    | Error(status: int, error: string, message: string)       // `{'error': ..., 'message': ...}`
    | Record(status: int, item: T, note: Option<string>)        // the record's fields, and `'message'` when given
    | Message(status: int, message: string)                     // `{'message': ...}`
    | Listing(status: int, items: seq<T>, count: int)           // `{<plural>: [...], 'count': n}`

  /** The reply to a falsy parsed body: JSON `null` or an empty object. */
  function InvalidBody<T>(): (r: Reply<T>)
    ensures r.Error? && r.status == 400
  {
    Error(400, "Invalid request", "Request body must be JSON")
  }

  /** The reply to a required field that is absent or falsy. */
  function Required<T>(message: string): (r: Reply<T>)
    ensures r.Error? && r.status == 400 && r.message == message
  {
    Error(400, "Validation error", message)
  }

  /** A listing reply whose `count` is the number of items it carries. */
  function ListOf<T>(items: seq<T>): (r: Reply<T>)
    ensures r.Listing? && r.status == 200 && r.items == items && r.count == |items|
  {
    Listing(200, items, |items|)
  }

  /** The 404 reply of the get and delete handlers: `<Kind> with ID <id> not found`. */
  function NotFound<T>(kind: string, id: int): (r: Reply<T>)
    ensures r.Error? && r.status == 404 && r.error == "Not found"
  {
    Error(404, "Not found", kind + " with ID " + IntToString(id) + " not found")
  }

  /**
   * The reply of a delete handler to the service's outcome: its found flag,
   * or an exception, which the handler answers as a 500 under `failure`.
   */
  function Deleted<T>(kind: string, id: int, deleted: Outcome<bool>, failure: string): (r: Reply<T>)
    ensures r.status == 200 <==> deleted == Ok(true)
    ensures r.status == 404 <==> deleted == Ok(false)
    ensures r.status == 500 <==> !deleted.Ok?
    ensures deleted == Ok(true) ==> r == Message(200, kind + " with ID " + IntToString(id) + " deleted successfully")
    ensures deleted == Ok(false) ==> r == NotFound(kind, id)
    ensures deleted.IntegrityError? ==> r == Error(500, failure, deleted.detail)
  {
    match deleted
      case Ok(found) =>
        if found then Message(200, kind + " with ID " + IntToString(id) + " deleted successfully")
        else NotFound(kind, id)
      case ValueError(message) => Error(500, failure, message)
      case IntegrityError(detail) => Error(500, failure, detail)
  }

  /** Two replies of a handler about different ids never carry the same message. */
  lemma NotFoundNamesId<T>(kind: string, a: int, b: int)
    requires a != b
    ensures NotFound<T>(kind, a).message != NotFound<T>(kind, b).message
  {
    IntToStringInjective(a, b);
    if NotFound<T>(kind, a).message == NotFound<T>(kind, b).message {
      InfixCancel(kind + " with ID ", IntToString(a), IntToString(b), " not found");
    }
  }

  /** Text between the same prefix and suffix is determined by the whole. */
  lemma InfixCancel(x: string, m: string, n: string, y: string)
    requires x + m + y == x + n + y
    ensures m == n
  {
    assert |m| == |n|;
    assert m == (x + m + y)[|x|..|x| + |m|];
    assert n == (x + n + y)[|x|..|x| + |n|];
  }
}

/** The action results the controllers return, and the two ways they turn a service answer into one. */
module Http {
  import opened Wrappers
  import opened Models

  /**
   * An action result. Ok carries the response body (the unit value for a bare
   * Ok()); Created carries the route id of the new resource and the body;
   * Challenge is the 401 that the authorization middleware returns to an
   * unauthenticated caller, Forbid the 403 for an authenticated one.
   */
  datatype HttpResult<+T> =
    | Ok(body: T)
    | NoContent
    | NotFound
    | Forbid
    | Challenge
    | BadRequest(message: string)
    | Created(id: Guid, body: T)

  /** A lookup that yields null becomes NotFound; anything else is Ok with it. */
  function FromNullable<T>(v: Option<T>): (r: HttpResult<T>)
    ensures r.NotFound? <==> v.None?
    ensures v.Some? ==> r == Ok(v.value)
  {
    match v
    case None => NotFound
    case Some(x) => Ok(x)
  }

  /** The try/catch around a service call: success gives the given result, an exception BadRequest with its message. */
  function FromOutcome<T>(o: Outcome, success: HttpResult<T>): (r: HttpResult<T>)
    ensures o.Pass? ==> r == success
    ensures o.Fail? ==> r == BadRequest(o.error)
  {
    match o
    case Pass => success
    case Fail(message) => BadRequest(message)
  }
}

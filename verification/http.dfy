/** The parts of an HTTP request and response the views look at. */
module Http {

  datatype Method = GET | HEAD | OPTIONS | POST | PUT | PATCH | DELETE

  /** `SAFE_METHODS` of the REST framework. */
  predicate IsSafe(m: Method)
  {
    m == GET || m == HEAD || m == OPTIONS
  }

  const Ok200: int := 200
  const Created201: int := 201
  const NoContent204: int := 204
  const BadRequest400: int := 400
  const NotFound404: int := 404
  const MethodNotAllowed405: int := 405
}

/**
 * What a handler writes back: a status code and the JSON envelope
 * (`{"error": ...}` or the payload), or no body at all.
 */
module Http {

  const StatusOK: int := 200
  const StatusCreated: int := 201
  const StatusNoContent: int := 204
  const StatusBadRequest: int := 400
  const StatusUnauthorized: int := 401
  const StatusForbidden: int := 403
  const StatusNotFound: int := 404
  const StatusInternalServerError: int := 500

  /** utils.Envelope: {"error": message} or {"<name>": payload}; NoBody for 204 No Content. */
  datatype Body<T> = ErrorEnvelope(error: string) | Envelope(value: T) | NoBody

  datatype Response<T> = Response(status: int, body: Body<T>)
}

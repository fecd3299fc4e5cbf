/**
 * What a handler leaves in its `http.ResponseWriter`: a status code and the
 * value that goes through the JSON encoder. Header writes other than the
 * CORS headers are not modelled.
 */
module Http {
  import opened Domain

  const StatusOK: int := 200
  const StatusCreated: int := 201
  const StatusNoContent: int := 204
  const StatusBadRequest: int := 400
  const StatusUnauthorized: int := 401
  const StatusForbidden: int := 403
  const StatusNotFound: int := 404
  const StatusInternalServerError: int := 500

  /** What every handler answers when the JSON request body does not decode. */
  const InvalidBodyText: string := "Invalid request body"

  /** The value a handler encodes as the response body, or none at all. */
  datatype Body =
    | ErrorBody(error: string)
    | ConfigBody(config: LixiConfig)
    | ConfigListBody(configs: seq<LixiConfig>)
    | MessageBody(message: string)
    | UserBody(user: User)
    | LoginBody(token: string, user: User)
    | NoBody

  datatype Response = Response(status: int, body: Body)

  /** writeError in internal/handler/response.go: the status and `{"error": message}`. */
  function WriteError(status: int, message: string): (resp: Response)
    ensures resp.status == status && resp.body.ErrorBody? && resp.body.error == message
  {
    Response(status, ErrorBody(message))
  }
}

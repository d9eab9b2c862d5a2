/** What an Express middleware or controller does with a request, reduced to what the core decides. */
module Http {

  /** The authenticated caller, `req.user`, as the token payload carries it. */
  datatype Caller = Caller(id: int, role: string)

  /** A middleware either passes the request on (`next()`) or answers it with a status. */
  datatype Gate = Next | Respond(status: int, detail: string)

  const OK := 200
  const CREATED := 201
  const BAD_REQUEST := 400
  const FORBIDDEN := 403
  const NOT_FOUND := 404
  const SERVER_ERROR := 500
}

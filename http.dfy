/** The results an endpoint can produce, one constructor per status the controllers and the pipeline return. */
module Http {

  datatype Response<T> =
    | Ok(body: T)                 // 200
    | Created(body: T)            // 201
    | BadRequest(error: string)   // 400 from an action
    | ValidationProblem           // 400 from request validation, before the action runs
    | Challenge                   // 401 from authentication: no token or an invalid one
    | Unauthorized(error: string) // 401 from an action
    | Forbid                      // 403
    | NotFound(error: string)     // 404
    | Conflict(error: string)     // 409
    | ServerError                 // 500: an exception the action does not catch
}

/**
 * The outcome of a request handler, standing in for `res.status(…).json(…)`
 * with an `ApiResponse` body: either `success: true` with data, or
 * `success: false` with a message.
 */
module Api {

  datatype Outcome<T> =
    | Success(status: int, data: T)
    | Failure(status: int, message: string)
}

/** The HTTP outcomes the request handlers produce. */
module Http {

  datatype ActionResult<+T> =
    | Ok(value: T)             // 200
    | Created(value: T)        // 201
    | NoContent                // 204
    | BadRequest(message: string)  // 400
    | NotFound(message: string)    // 404 (the empty message stands for a bare NotFound())
    | ServerError              // 500: an exception the handler does not catch
}

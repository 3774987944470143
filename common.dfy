/** Option and Result, used for the absent values and the error paths of the backend. */
module Common {

  datatype Option<+T> = None | Some(value: T)

  datatype Result<+R, +E> = Success(value: R) | Failure(error: E)

  /**
   * The client-visible error outcomes of the API: a missing or invalid credential,
   * an authenticated caller who is not allowed, an unknown object, and field-level
   * validation errors (field name to message).
   */
  datatype ApiError =
    | NotAuthenticated
    | PermissionDenied
    | NotFound
    | Invalid(errors: map<string, string>)
}

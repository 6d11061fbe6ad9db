/** Optional values, and the outcome of a step that may stop the request. */
module Wrappers {

  datatype Option<T> = None | Some(value: T)

  /** Either a value, or the end of the request: the PHP code calls
      `http_response_code($code)` and then `exit($message)`. */
  datatype Result<T> = Ok(value: T) | Exit(code: int, message: string) {
    predicate IsFailure() {
      Exit?
    }

    function PropagateFailure<U>(): Result<U>
      requires Exit?
    {
      Exit(code, message)
    }

    function Extract(): T
      requires Ok?
    {
      value
    }
  }
}

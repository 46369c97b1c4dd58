/** The exceptions the analysis code can raise, and a result type that carries either a value
    or the exception that ended the call. */
module Errors {
  datatype Error =
    | ValueError         // a negative k or min_count
    | KeyError           // a token missing from the idf dictionary
    | UnboundLocalError  // find_salient_ngrams over no tweets returns a name it never bound

  datatype Result<T> = Ok(value: T) | Err(error: Error)
}

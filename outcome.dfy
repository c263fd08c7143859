/** The two Python exceptions the pipeline can raise, and a result type that
    carries either a value or one of them. */
module Outcome {

  datatype Error =
    | KeyError(key: string)        // a dictionary lookup of a missing key
    | ValueError(message: string)  // an argument outside the accepted values

  datatype Result<+T> = Ok(value: T) | Err(error: Error)
}

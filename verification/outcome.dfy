/** The two failure-carrying shapes the export server needs: a regex match that may
    fail (`Option`) and a request that may be rejected (`Result`). */
module Outcome {

  datatype Option<+T> = None | Some(value: T)

  datatype Result<+R, +E> = Ok(value: R) | Err(error: E)
}

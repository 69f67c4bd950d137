/** Optional values, results, and the Python exceptions the crawler can raise. */
module Wrappers {

  datatype Option<+T> = None | Some(value: T)

  /** The exceptions raised on the crawler's own error paths, by Python class. */
  datatype Error =
    | ValueError(message: string)        // validate_url rejects a scheme
    | KeyError(key: string)              // a registry rule lacks a key that is read with []
    | AttributeError(message: string)    // a method called on the None of a failed find
    | UnboundLocalError(name: string)    // a local read before any assignment

  datatype Result<+T> = Ok(value: T) | Err(error: Error)
}

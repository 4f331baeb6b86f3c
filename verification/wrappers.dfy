/** Optional values and results with an error, used where the source raises. */
module Wrappers {

  datatype Option<+T> = None | Some(value: T)

  datatype Result<+R, +E> = Success(value: R) | Failure(error: E)
}

/** The exceptions the user operations raise, as values. */
module Errors {

  datatype Error =
      /** `ValueError`: an included attribute is not a mapping key; the message names every allowed key. */
    | UnknownAttribute(name: string, allowed: seq<string>)
      /** `Exception("max value should be between 0 and 999")`. */
    | MaxOutOfRange(max: int)
      /** `KeyError`: a dict lookup of a missing key. */
    | KeyError(key: string)
      /** `AttributeError`: `.items()` called on the string `item`. */
    | AttributeError(item: string)
}

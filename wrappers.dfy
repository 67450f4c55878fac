/** Option and Result, the two failure-carrying shapes the model needs: Python's `None`
    return values become `None`, and the exceptions the source lets escape become `Failure`. */
module Wrappers {

  datatype Option<+T> = None | Some(value: T)

  datatype Result<+R, +E> = Success(value: R) | Failure(error: E)

  /** The Python exceptions that escape the modelled operations. */
  datatype Error =
    | KeyError(key: char)          // a residue missing from the complement table
    | AttributeError(name: string) // an attribute the object does not define
    | TypeError(className: string) // a class that leaves an abstract method undefined
}

/** Optional values, results, and the exceptions the modelled Python code raises. */
module Wrappers {
  datatype Option<T> = None | Some(value: T)

  datatype Result<T, E> = Ok(value: T) | Err(error: E)

  /** One constructor per exception the modelled code can raise. */
  datatype Failure =
    | DirectoryNotFound(dir: string)   // IOError raised when the snapshot directory is missing
    | EmptySeparator                   // ValueError raised by str.split with an empty separator
    | InvalidLiteral(literal: string)  // ValueError raised by int() on a non-integer text
    | ZeroDivision                     // ZeroDivisionError raised by 60 / fps or by index % 0
}

/** Optional values, failures and the runtime exceptions the modelled Java code can raise. */
module Wrappers {

  /** A value that may be absent: stands for a nullable Java reference. */
  datatype Option<+T> = None | Some(value: T)

  /** The unchecked exceptions the modelled code throws on misuse. */
  datatype Exception =
    | NullPointer           // a null reference was dereferenced or unboxed
    | IndexOutOfBounds      // a positional lookup past the end of a list
    | UnsupportedOperation  // source/target asked of an undirected edge
    | ClassCast             // an unweighted edge was read as a weighted one

  /** Either a value or the exception that the Java code would throw instead. */
  datatype Result<+T> = Ok(value: T) | Err(error: Exception)
}

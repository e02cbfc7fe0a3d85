/** Option and Result values shared by every stage of the pipeline model. */
module Wrappers {

  /** A cell that may be missing (pandas NaN). */
  datatype Option<T> = None | Some(value: T)

  /** The ways a pandas call used by the pipeline can raise. */
  datatype Error =
    | MissingLabel(name: string)  // KeyError: a column or row label that is not there
    | LengthMismatch               // ValueError: assigning a header of the wrong length
    | EmptyReduce                  // TypeError: functools.reduce over an empty list

  datatype Result<T> = Ok(value: T) | Err(error: Error)
}

/** Option and Result values: the NULLs of SQL and the exceptions of the routes. */
module Wrappers {

  /** Absent or present value; `None` stands for SQL NULL and Python `None`. */
  datatype Option<+T> = None | Some(value: T)

  /** The outcome of a route: its value, or the exception the route raises. */
  datatype Result<+R, +E> = Success(value: R) | Failure(error: E)
}

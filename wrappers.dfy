/** Option and Result values shared by the modules of this project. */
module Wrappers {

  datatype Option<T> = None | Some(value: T)

  /** An operation that either yields a value or stops the program with an
      exit status (Python's `sys.exit(n)`) or an uncaught exception. */
  datatype Result<T> = Ok(value: T) | Exit(code: int) | Raise(error: string)
}

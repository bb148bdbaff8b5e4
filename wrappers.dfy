/** Failure-carrying values: Python exceptions and `None` returns become these. */
module Wrappers {

  datatype Option<+T> = None | Some(value: T)

  /** Success with a value, or the error the source raises. */
  datatype Result<+T, +E> = Ok(value: T) | Err(error: E)

  /** Success without a value (a Python method returning `None`), or the error it raises. */
  datatype Outcome<+E> = Pass | Fail(error: E)

  function Min(a: int, b: int): int { if a < b then a else b }

  function Max(a: int, b: int): int { if a < b then b else a }
}

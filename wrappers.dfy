/** Option and Result values shared by the modules of this model.
    `Option` stands for the source's `T | null` / `T | undefined` results,
    `Result` for an operation that either returns a value or throws an
    `Error`, and `Outcome` for a `void` operation that may throw. */
module Wrappers {

  datatype Option<+T> = None | Some(value: T)

  datatype Result<+T> = Ok(value: T) | Err(message: string)

  datatype Outcome = Pass | Fail(message: string)
}

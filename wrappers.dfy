/** Success/failure wrappers: `Result` stands for a value or a thrown error,
    `Option` for a value or JavaScript's `undefined`. */
module Wrappers {

  datatype Option<+T> = None | Some(value: T)

  datatype Result<+T, +E> = Ok(value: T) | Err(error: E)
}

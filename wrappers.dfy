/** Option and Result values shared by every module of the model.
    `Result` stands for Rust's `anyhow::Result<T>`: the error is the
    message string the source builds with `anyhow!`. */
module Wrappers {

  datatype Option<+T> = None | Some(value: T)

  datatype Result<+T> = Ok(value: T) | Err(error: string)
}

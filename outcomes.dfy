/** Option and Result values shared by the model: Rust's `Option` and the
    `miette::Result` error path, whose error carries its message text. */
module Outcomes {

  datatype Option<+T> = None | Some(value: T)

  datatype Result<+T> = Ok(value: T) | Err(msg: string)
}

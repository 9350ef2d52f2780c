/** Option and Result, the two failure-carrying types the model needs.
    The source's errors carry no information the model keeps (`Result<(), ()>`,
    `Result<bool, ()>`, and `anyhow::Result` whose context strings are dropped),
    so `Err` has no payload. */
module Wrappers {

  datatype Option<+T> = None | Some(value: T)

  datatype Result<+T> = Ok(value: T) | Err
}

// Datatypes shared by every module: the source's `Option` and `Result`.
module Common {

  datatype Option<+T> = None | Some(value: T)

  datatype Result<+T, +E> = Ok(value: T) | Err(error: E)

  /** A thread's visibility (crates/core/src/model.rs). */
  datatype ThreadState = Visible | Pinned | Locked | Hidden | Deleted
}

/** The optional value the Rust code returns from `to_shoot`, `arrow_move_forward` and channel polls. */
module Wrappers {
  datatype Option<T> = None | Some(value: T)
}

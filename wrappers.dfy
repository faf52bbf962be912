/** Rust's `Option`, the result of every fallible step of the server. */
module Wrappers {

  datatype Option<+T> = None | Some(value: T)

  /** `o.map(|i| i + k)` on an optional index. */
  function Offset(o: Option<nat>, k: nat): Option<nat>
  {
    match o
    case None => None
    case Some(i) => Some(i + k)
  }
}

/** The optional value that Rust's `Option` carries through the calculator. */
module Options {

  datatype Option<T> = None | Some(value: T)
}

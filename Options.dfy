/** The optional value the solver passes around: Rust's `Option`. */
module Options {

  datatype Option<T> = None | Some(value: T)
}

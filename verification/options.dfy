/** The optional value the trie and its iterator hand back (Rust's `Option`). */
module Options {

  datatype Option<+T> = None | Some(value: T)
}

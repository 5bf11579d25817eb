/** The optional value shared by the trie and the hash choosers: Python's `None`
    or a present value. */
module Options {
  datatype Option<T> = None | Some(value: T)
}

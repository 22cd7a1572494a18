/** The optional value used for Go's nil-or-value results (an `error` that may be nil,
    an archive that exists only when the destination file could be created). */
module Options {

  datatype Option<T> = None | Some(value: T)
}

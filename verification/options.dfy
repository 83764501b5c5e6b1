/** The nil-or-value results of the Go code: a nil pointer, a nil interface or a
    "not found" answer is `None`, anything else is `Some`. */
module Options {

  datatype Option<+T> = None | Some(value: T)
}

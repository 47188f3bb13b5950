/** A value that may be absent: used for Python's `None`, for files that do not
    exist, and for operations that raise instead of returning. */
module Optional {

  datatype Option<+T> = None | Some(value: T)
}

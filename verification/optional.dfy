/** A value that may be absent. In the pool it stands for a pointer that may
    be null. */
module Optional {

  datatype Option<+T> = None | Some(value: T)
}

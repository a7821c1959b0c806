/** An optional value: a request field that may be absent, a lookup that
    may find nothing. */
module Optional {

  datatype Option<+T> = None | Some(value: T)
}

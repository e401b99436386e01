/** Values that Go spells as a nil pointer or a second `ok` result. */
module Optional {
  datatype Option<+T> = None | Some(value: T)
}

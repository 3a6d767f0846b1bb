/** The usual optional value, for lookups and reads that may produce nothing. */
module Optional {

  datatype Option<+T> = None | Some(value: T)
}

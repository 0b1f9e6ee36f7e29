/** The usual optional value, used for partial conversions and lookups. */
module Options {

  datatype Option<+T> = None | Some(value: T)
}

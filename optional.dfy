/** The optional value used for nullable columns, absent JSON fields and lookups. */
module Optional {

  datatype Option<+T> = None | Some(value: T)
}

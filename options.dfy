/** The "pointer or null" results of the arena lookups, as a value. */
module Options {

  datatype Option<+T> = None | Some(value: T)

}

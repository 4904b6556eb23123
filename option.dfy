/** The optional value returned by lookups (a found element, or nothing). */
module Optional {

  datatype Option<T> = None | Some(value: T)
}

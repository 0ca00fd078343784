/** The option type used where the source returns an optional value or an error it then discards. */
module Common {
  datatype Option<+T> = None | Some(value: T)
}

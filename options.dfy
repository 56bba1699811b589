/** The optional value used for Ruby's `nil`-or-something results. */
module Options {

  datatype Option<+T> = None | Some(value: T)
}

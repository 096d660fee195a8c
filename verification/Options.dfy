/** An optional value, for the source's `None`. */
module Options {

  datatype Maybe<+T> = None | Some(value: T)
}

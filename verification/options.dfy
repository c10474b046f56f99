/** The failure-or-value type used wherever the Ruby program can crash or produce nothing. */
module Options {

  datatype Option<+T> = None | Some(value: T)

}

/**
 A result that may be missing, as a Go nil pointer or a Go error.
 */
module Options {

  datatype Option<+T> = None | Some(value: T)
}

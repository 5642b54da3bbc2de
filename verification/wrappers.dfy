/** The optional value the rest of the model uses for fields that may be
    missing. */
module Wrappers {

  /** A value that may be absent: a request field that was not sent, or a
      record child that was never written. */
  datatype Option<+T> = None | Some(value: T)
}

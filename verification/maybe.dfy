/** The optional-value wrapper used for absent request parameters and for parsers that can fail. */
module Maybe {

  /** A value that may be absent, such as a query parameter the client did not send. */
  datatype Option<+T> = None | Some(value: T)
}

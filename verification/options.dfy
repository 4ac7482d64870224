/** The optional value used wherever a JavaScript call can come back empty:
    a failed `JSON.parse`, a regular expression without a match. */
module Options {

  datatype Option<+T> = None | Some(value: T)
}

/** A value that may be absent: JavaScript's `undefined`/`null` on one side, a value on the other. */
module Options {

  datatype Option<+T> = None | Some(value: T)

}

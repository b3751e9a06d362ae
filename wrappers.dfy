/** Small value wrappers shared by the whole model. */
module Wrappers {

  /** A value that may be absent (JavaScript `undefined`/`null`, an SQL NULL, an empty result set). */
  datatype Option<+T> = None | Some(value: T)

  /** The outcome of a call into a collaborator that may throw: the value it returned,
      or the `name` of the error it threw. */
  datatype Fallible<+T> = Returned(value: T) | Threw(name: string)
}

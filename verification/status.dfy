/** Optional values, and the outcome of a call that may end the process. */
module Status {

  datatype Option<T> = None | Some(value: T)

  /** A value, or the process exits through die() with this message. */
  datatype Outcome<T> = Done(value: T) | Died(message: string)

  /** errno for a file or variable that does not exist. */
  const ENOENT: int := 2
}

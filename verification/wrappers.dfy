/** The optional value used for the axes of an observation and for the
    result of a rule: `None` plays the part of `undefined` (an absent axis)
    and of `null` (an unresolved rule).
 */
module Wrappers {

  datatype Option<+T> = None | Some(value: T) {

    /** The contained value, or `default` when there is none: the `??`
        operator of the TypeScript code. */
    function GetOr(default: T): T
    {
      match this
      case Some(v) => v
      case None => default
    }
  }
}

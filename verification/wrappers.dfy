/** Error-carrying wrappers used throughout the model: a possibly-null value
    and the outcome of an operation that may throw. */
module Wrappers {

  /** A value that may be absent (a null reference in the modelled code). */
  datatype Option<+T> = None | Some(value: T) {

    /** The wrapped value, or `default` when there is none. */
    function GetOr(default: T): T {
      match this
      case Some(v) => v
      case None => default
    }
  }

  /** The outcome of an operation that either returns a value or raises an error. */
  datatype Result<+R, +E> = Success(value: R) | Failure(error: E)

  /** The exceptions the modelled code raises, one constructor per throw site. */
  datatype Error =
    | ListNotFound                          // no list title matches the request
    | ListAmbiguous                         // more than one list title matches
    | ListTitleTooShort                     // Substring(0, Length - 1) on an empty normalised title
    | ControlNameTooShort(clientId: string) // Substring(prefixLength) past the end of the name
    | FieldNotBoolean(fieldName: string)    // a visibility field whose type is not Boolean
    | FieldNameWithoutSpace(fieldName: string) // Split(" ", 2)[1] on a name without a space
    | NullControl                           // FindDescendants on a null parent
    | NullName                              // ToString() on a null "Name" value
}

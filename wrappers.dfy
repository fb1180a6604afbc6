/** The optional value used for C pointers that may be NULL and for file
    contents that may be unavailable. */
module Wrappers {

  datatype Option<+T> = None | Some(value: T)

  /** The value of an optional as a sequence of zero or one elements. */
  function ToSeq<T>(o: Option<T>): seq<T>
  {
    if o.Some? then [o.value] else []
  }
}

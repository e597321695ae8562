/** The result of a lookup that may find nothing, and of a step that may produce nothing. */
module Wrappers {
  datatype Option<+T> = None | Some(value: T)

  /** The zero or one elements of an option, as a sequence. */
  function Elements<T>(o: Option<T>): (s: seq<T>)
    ensures |s| <= 1
  {
    match o
    case None => []
    case Some(x) => [x]
  }
}

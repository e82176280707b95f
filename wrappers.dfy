/** Option and Result values, used for the source's optional yields and its exceptions. */
module Wrappers {

  datatype Option<+T> = None | Some(value: T)

  /** A computation that either succeeds with a value or raises the given error. */
  datatype Result<+R, +E> = Success(value: R) | Failure(error: E)

  /** The yielded elements of an optional yield: empty or a singleton. */
  function OptionToSeq<T>(o: Option<T>): (s: seq<T>)
    ensures |s| <= 1
    ensures o.Some? <==> |s| == 1
    ensures o.Some? ==> s[0] == o.value
  {
    match o
    case None => []
    case Some(v) => [v]
  }
}

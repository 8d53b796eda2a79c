/** Plain option and result types: `Option` replaces the linter's
    `"no error"` sentinel string, `Result` replaces an exception escaping the
    walk. */
module Wrappers {

  datatype Option<+T> = None | Some(value: T)

  datatype Result<+R, +E> = Success(value: R) | Failure(error: E)

  /** The list contribution of one rule result: `maybeAddError` pushes a
      message exactly when it is not the sentinel. */
  function Present<T>(o: Option<T>): (s: seq<T>)
    ensures |s| <= 1
    ensures |s| == 1 <==> o.Some?
    ensures o.Some? ==> s[0] == o.value
  {
    match o
    case None => []
    case Some(v) => [v]
  }
}

/** Option and Result, the two failure-carrying shapes the engine uses. */
module Wrappers {

  /** A value that may be absent; also the "partial slot" of an iterator. */
  datatype Option<+T> = None | Some(value: T)

  /** The outcome of an operation that the Rust implementation aborts on misuse. */
  datatype Result<+R, +E> = Ok(value: R) | Err(error: E)

  /** The zero-or-one element sequence an optional value contributes. */
  function OptionToSeq<T>(o: Option<T>): (s: seq<T>)
    ensures |s| <= 1
    ensures |s| == 1 <==> o.Some?
    ensures o.Some? ==> s[0] == o.value
  {
    match o
    case None => []
    case Some(v) => [v]
  }
}

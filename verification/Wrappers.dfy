/** The result types shared by the modules of this project, and the few facts
    about sequences that several of them need. */
module Wrappers {

  datatype Option<+T> = None | Some(value: T)

  /** A Python call that either returns or raises. */
  datatype Result<+T, +E> = Ok(value: T) | Err(error: E)

  ghost predicate Distinct<T>(s: seq<T>) {
    forall i, j :: 0 <= i < j < |s| ==> s[i] != s[j]
  }
}

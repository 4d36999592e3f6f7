// Notions that several components share.
module Basics {
  datatype Option<T> = None | Some(value: T)

  ghost predicate NoRepeat<T>(s: seq<T>) {
    forall i, j :: 0 <= i < j < |s| ==> s[i] != s[j]
  }
}

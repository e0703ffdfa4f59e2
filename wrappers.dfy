/**
 * Optional values (a decode that may fail, an HTML attribute that may be
 * absent) and sequences without repeats.
 */
module Wrappers {
  datatype Option<+T> = None | Some(value: T)

  /** The elements of a sequence are pairwise different. */
  predicate Distinct<T(==)>(s: seq<T>)
  {
    forall i, j :: 0 <= i < j < |s| ==> s[i] != s[j]
  }
}

/** Small shared definitions: an optional value (the source's `null`) and
    sequence predicates used by several modules. */
module Util {

  /** An optional value; `None` stands for C#'s `null` / `default`. */
  datatype Option<+T> = None | Some(value: T)

  /** No element occurs twice in `s`. */
  predicate NoDuplicates<T(==)>(s: seq<T>) {
    forall i, j :: 0 <= i < j < |s| ==> s[i] != s[j]
  }

  /** Enumerates a finite set as a sequence in an unspecified order, as
      `HashSet<T>.ToArray()` does: the order is chosen nondeterministically. */
  method SetToSeq<T(==)>(s: set<T>) returns (r: seq<T>)
    ensures NoDuplicates(r)
    ensures forall x :: x in r <==> x in s
    ensures |r| == |s|
  {
    r := [];
    var rest := s;
    while rest != {}
      invariant rest !! (set x | x in r)
      invariant forall x :: x in r || x in rest <==> x in s
      invariant NoDuplicates(r)
      invariant |r| + |rest| == |s|
      decreases |rest|
    {
      var x :| x in rest;
      r := r + [x];
      rest := rest - {x};
    }
  }
}

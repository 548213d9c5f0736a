/** Failure-compatible wrappers and the small sequence utilities shared by the
    modules of this model. */
module Wrappers {

  datatype Option<+T> = None | Some(value: T)

  /** The outcome of an operation that either yields a value or raises an
      exception; `E` stands for the exception. */
  datatype Result<+T, +E> = Success(value: T) | Failure(error: E)

  /** The outcome of a `void` operation that may raise an exception. */
  datatype Outcome<+E> = Pass | Fail(error: E)

  /** No element occurs twice. */
  ghost predicate Distinct<T>(s: seq<T>) {
    forall i, j :: 0 <= i < j < |s| ==> s[i] != s[j]
  }

  /** The elements of `s` in the order of their first occurrence, each once:
      the iteration order of a Guava `ImmutableSet` built from `s`. */
  function Dedup<T(==)>(s: seq<T>): (r: seq<T>)
    ensures Distinct(r)
    ensures forall i :: 0 <= i < |s| ==> s[i] in r
    ensures forall i :: 0 <= i < |r| ==> r[i] in s
    ensures |r| <= |s|
    ensures Distinct(s) ==> r == s
    decreases |s|
  {
    if s == [] then []
    else
      var prefix := s[..|s| - 1];
      var init := Dedup(prefix);
      var last := s[|s| - 1];
      assert s == prefix + [last];
      if last in init then init else init + [last]
  }

  /** Adding an element that is already present changes nothing. */
  lemma {:induction false} DedupAppendPresent<T>(s: seq<T>, x: T)
    requires x in s
    ensures Dedup(s + [x]) == Dedup(s)
  {
    assert (s + [x])[..|s + [x]| - 1] == s;
    assert x in Dedup(s);
  }

  /** The first element of the input is the first element of its Dedup. */
  lemma {:induction false} DedupHead<T>(s: seq<T>)
    requires |s| > 0
    ensures |Dedup(s)| > 0 && Dedup(s)[0] == s[0]
    decreases |s|
  {
    if |s| > 1 {
      var init := s[..|s| - 1];
      DedupHead(init);
    }
  }
}

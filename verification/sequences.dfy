/** Counting the occurrences of a value in a sequence: samples in a buffer, dots in a path. */
module Sequences {

  /** How many elements of `s` equal `v`. */
  function Occurrences<T(==)>(s: seq<T>, v: T): (n: nat)
    ensures n <= |s|
  {
    if s == [] then 0 else (if s[0] == v then 1 else 0) + Occurrences(s[1..], v)
  }

  /** `Occurrences` adds up over a concatenation. */
  lemma {:induction false} OccurrencesAppend<T>(a: seq<T>, b: seq<T>, v: T)
    ensures Occurrences(a + b, v) == Occurrences(a, v) + Occurrences(b, v)
  {
    if a == [] {
      assert a + b == b;
    } else {
      assert (a + b)[1..] == a[1..] + b;
      OccurrencesAppend(a[1..], b, v);
    }
  }

  /** A value that does not occur is counted 0 times. */
  lemma {:induction false} AbsentNotCounted<T>(s: seq<T>, v: T)
    requires v !in s
    ensures Occurrences(s, v) == 0
  {
    if s != [] {
      assert v !in s[1..];
      AbsentNotCounted(s[1..], v);
    }
  }

  /** A value that occurs is counted at least once. */
  lemma {:induction false} PresentCounted<T>(s: seq<T>, v: T, k: nat)
    requires k < |s| && s[k] == v
    ensures Occurrences(s, v) > 0
  {
    if k > 0 {
      PresentCounted(s[1..], v, k - 1);
    }
  }
}

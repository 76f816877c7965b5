/** Sorted sequences of integers. */
module Ordering {

  predicate Sorted(s: seq<int>) {
    forall i, j :: 0 <= i < j < |s| ==> s[i] <= s[j]
  }

  predicate Descending(s: seq<int>) {
    forall i, j :: 0 <= i < j < |s| ==> s[i] >= s[j]
  }

  lemma MultisetSnoc(s: seq<int>, x: int)
    ensures multiset(s + [x]) == multiset(s) + multiset{x}
  {
  }

  function Last<T>(s: seq<T>): T
    requires s != []
  {
    s[|s| - 1]
  }

  function Front<T>(s: seq<T>): seq<T>
    requires s != []
  {
    s[..|s| - 1]
  }

  lemma SortedSnoc(s: seq<int>, x: int)
    requires Sorted(s) && (s != [] ==> Last(s) <= x)
    ensures Sorted(s + [x])
  {
  }

  lemma FrontAndLast(s: seq<int>)
    requires s != []
    ensures s == Front(s) + [Last(s)] && multiset(s) == multiset(Front(s)) + multiset{Last(s)}
  {
    assert s == Front(s) + [Last(s)];
  }

  lemma LastIsLargest(s: seq<int>, x: int)
    requires Sorted(s) && s != [] && x in multiset(s)
    ensures x <= Last(s)
  {
    assert x in s;
  }

  lemma Cancel(a: multiset<int>, b: multiset<int>, x: int)
    requires a + multiset{x} == b + multiset{x}
    ensures a == b
  {
    assert a == a + multiset{x} - multiset{x};
    assert b == b + multiset{x} - multiset{x};
  }

  lemma SameLast(a: seq<int>, b: seq<int>)
    requires Sorted(a) && Sorted(b) && multiset(a) == multiset(b) && a != [] && b != []
    ensures Last(a) == Last(b)
  {
    assert Last(a) in multiset(a) && Last(b) in multiset(b);
    LastIsLargest(b, Last(a));
    LastIsLargest(a, Last(b));
  }

  /** A multiset has one sorted arrangement only. */
  lemma {:induction false} SortedIsUnique(a: seq<int>, b: seq<int>)
    requires Sorted(a) && Sorted(b) && multiset(a) == multiset(b)
    ensures a == b
    decreases |a|
  {
    assert |multiset(a)| == |a| && |multiset(b)| == |b|;
    if a == [] {
    } else {
      SameLast(a, b);
      FrontAndLast(a);
      FrontAndLast(b);
      Cancel(multiset(Front(a)), multiset(Front(b)), Last(a));
      SortedIsUnique(Front(a), Front(b));
    }
  }
}

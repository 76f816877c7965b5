/** Facts about sequences of any type. */
module Sequences {

  lemma ConcatAssociates<T>(a: seq<T>, b: seq<T>, c: seq<T>)
    ensures (a + b) + c == a + (b + c)
  {
  }

  /** No element stands at two places. */
  ghost predicate NoRepeats<T>(s: seq<T>) {
    forall i, j :: 0 <= i < j < |s| ==> s[i] != s[j]
  }

  // ----- reversal -----

  function Reverse<T>(s: seq<T>): (r: seq<T>)
    ensures |r| == |s|
  {
    if s == [] then [] else [s[|s| - 1]] + Reverse(s[..|s| - 1])
  }

  lemma ReverseSnoc<T>(s: seq<T>, x: T)
    ensures Reverse(s + [x]) == [x] + Reverse(s)
  {
    assert (s + [x])[..|s|] == s;
  }

  lemma {:induction false} ReverseAppend<T>(a: seq<T>, b: seq<T>)
    ensures Reverse(a + b) == Reverse(b) + Reverse(a)
  {
    if b == [] {
      assert a + b == a;
    } else {
      var b', x := b[..|b| - 1], b[|b| - 1];
      assert b == b' + [x];
      ConcatAssociates(a, b', [x]);
      ReverseSnoc(a + b', x);
      ReverseAppend(a, b');
      ConcatAssociates([x], Reverse(b'), Reverse(a));
    }
  }

  lemma ReverseCons<T>(x: T, s: seq<T>)
    ensures Reverse([x] + s) == Reverse(s) + [x]
  {
    ReverseAppend([x], s);
    assert [x][..0] == [];
  }

  lemma {:induction false} ReverseTwice<T>(s: seq<T>)
    ensures Reverse(Reverse(s)) == s
  {
    if s == [] {
    } else {
      var front, x := s[..|s| - 1], s[|s| - 1];
      assert s == front + [x];
      ReverseCons(x, Reverse(front));
      ReverseTwice(front);
    }
  }

  lemma {:induction false} ReverseAt<T>(s: seq<T>, i: nat)
    requires i < |s|
    ensures Reverse(s)[i] == s[|s| - 1 - i]
  {
    if i == 0 {
    } else {
      ReverseAt(s[..|s| - 1], i - 1);
    }
  }

  lemma ReverseByPosition<T>(s: seq<T>)
    ensures forall i :: 0 <= i < |s| ==> Reverse(s)[i] == s[|s| - 1 - i]
  {
    forall i | 0 <= i < |s|
      ensures Reverse(s)[i] == s[|s| - 1 - i]
    {
      ReverseAt(s, i);
    }
  }

  lemma {:induction false} ReversePermutes<T>(s: seq<T>)
    ensures multiset(Reverse(s)) == multiset(s)
  {
    if s == [] {
    } else {
      var front, x := s[..|s| - 1], s[|s| - 1];
      assert s == front + [x];
      ReversePermutes(front);
    }
  }

  // ----- how often an element occurs -----

  function Count<T(==)>(x: T, s: seq<T>): nat {
    if s == [] then 0 else Count(x, s[..|s| - 1]) + (if s[|s| - 1] == x then 1 else 0)
  }

  lemma CountSnoc<T>(x: T, s: seq<T>, y: T)
    ensures Count(x, s + [y]) == Count(x, s) + (if y == x then 1 else 0)
  {
    assert (s + [y])[..|s|] == s;
  }

  lemma {:induction false} CountAppend<T>(x: T, a: seq<T>, b: seq<T>)
    ensures Count(x, a + b) == Count(x, a) + Count(x, b)
  {
    if b == [] {
      assert a + b == a;
    } else {
      var b', y := b[..|b| - 1], b[|b| - 1];
      assert b == b' + [y] && a + b == (a + b') + [y];
      CountAppend(x, a, b');
      CountSnoc(x, a + b', y);
    }
  }

  lemma CountAppendThree<T>(x: T, a: seq<T>, b: seq<T>, c: seq<T>)
    ensures Count(x, a + b + c) == Count(x, a) + Count(x, b) + Count(x, c)
  {
    CountAppend(x, a + b, c);
    CountAppend(x, a, b);
  }

  lemma {:induction false} CountIsMultiplicity<T>(x: T, s: seq<T>)
    ensures Count(x, s) == multiset(s)[x]
  {
    if s == [] {
    } else {
      assert s == s[..|s| - 1] + [s[|s| - 1]];
      CountIsMultiplicity(x, s[..|s| - 1]);
    }
  }

  lemma SameCounts<T>(a: seq<T>, b: seq<T>)
    requires forall x: T :: Count(x, a) == Count(x, b)
    ensures multiset(a) == multiset(b)
  {
    forall x: T
      ensures multiset(a)[x] == multiset(b)[x]
    {
      CountIsMultiplicity(x, a);
      CountIsMultiplicity(x, b);
      assert Count(x, a) == Count(x, b);
    }
  }

  // ----- subsequences -----

  /** The places in b at which the elements of a stand, from left to right. */
  ghost predicate Picks<T>(places: seq<nat>, a: seq<T>, b: seq<T>) {
    && |places| == |a|
    && (forall i :: 0 <= i < |a| ==> places[i] < |b| && b[places[i]] == a[i])
    && forall i, j :: 0 <= i < j < |a| ==> places[i] < places[j]
  }

  ghost predicate Subsequence<T>(a: seq<T>, b: seq<T>) {
    exists places: seq<nat> :: Picks(places, a, b)
  }

  lemma NothingIsSubsequence<T>(b: seq<T>)
    ensures Subsequence([], b)
  {
    assert Picks([], [], b);
  }

  lemma AllIsSubsequence<T>(a: seq<T>)
    ensures Subsequence(a, a)
  {
    assert Picks(seq(|a|, i => i), a, a);
  }

  lemma PicksAppend<T>(p: seq<nat>, a: seq<T>, b: seq<T>, q: seq<nat>, c: seq<T>, d: seq<T>)
    requires Picks(p, a, b) && Picks(q, c, d)
    ensures Picks(p + seq(|q|, i requires 0 <= i < |q| => |b| + q[i]), a + c, b + d)
  {
  }

  lemma SubsequenceAppend<T>(a: seq<T>, b: seq<T>, c: seq<T>, d: seq<T>)
    requires Subsequence(a, b) && Subsequence(c, d)
    ensures Subsequence(a + c, b + d)
  {
    var p :| Picks(p, a, b);
    var q :| Picks(q, c, d);
    PicksAppend(p, a, b, q, c, d);
  }
}

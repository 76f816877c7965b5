/** Runs of equal neighbours in a sequence, and the sequences the two
    duplicate-removing list operations leave. */
module Runs {
  import opened Ordering
  import opened Sequences

  /** The end of the run of equal keys that position i belongs to. */
  function RunEnd<T(==)>(keys: seq<T>, i: nat): (e: nat)
    requires i < |keys|
    ensures i < e <= |keys|
    ensures forall j :: i <= j < e ==> keys[j] == keys[i]
    ensures e < |keys| ==> keys[e] != keys[i]
    decreases |keys| - i
  {
    if i + 1 < |keys| && keys[i + 1] == keys[i] then RunEnd(keys, i + 1) else i + 1
  }

  lemma {:induction false} RunEndsAt<T>(keys: seq<T>, i: nat, e: nat)
    requires i < e <= |keys|
    requires forall j :: i <= j < e ==> keys[j] == keys[i]
    requires e < |keys| ==> keys[e] != keys[i]
    ensures RunEnd(keys, i) == e
  {
    assert RunEnd(keys, i) < |keys| ==> keys[RunEnd(keys, i)] != keys[i];
  }

  /** From position i on, the items whose keys form runs of length one. */
  function SinglesFrom<T(==), N>(keys: seq<T>, items: seq<N>, i: nat): seq<N>
    requires |keys| == |items| && i <= |keys|
    decreases |keys| - i
  {
    if i == |keys| then []
    else
      var e := RunEnd(keys, i);
      if e == i + 1 then [items[i]] + SinglesFrom(keys, items, e) else SinglesFrom(keys, items, e)
  }

  /** The items whose keys form runs of length one. */
  function Singles<T(==), N>(keys: seq<T>, items: seq<N>): seq<N>
    requires |keys| == |items|
  {
    SinglesFrom(keys, items, 0)
  }

  /** The first item, and the items of the runs of length one after the first run. */
  function HeadAndSingles<T(==), N>(keys: seq<T>, items: seq<N>): seq<N>
    requires |keys| == |items|
  {
    if keys == [] then [] else [items[0]] + SinglesFrom(keys, items, RunEnd(keys, 0))
  }

  /** The two agree exactly when the first run has length one. */
  lemma AgreeIffFirstRunIsSingle<T, N>(keys: seq<T>, items: seq<N>)
    requires |keys| == |items| && keys != []
    ensures HeadAndSingles(keys, items) == Singles(keys, items) <==>
            (|keys| > 1 ==> keys[1] != keys[0])
  {
    var rest := SinglesFrom(keys, items, RunEnd(keys, 0));
    assert |[items[0]] + rest| == |rest| + 1;
  }

  // ----- the same by position -----

  /** Position i differs from both its neighbours. */
  predicate IsSingle<T(==)>(keys: seq<T>, i: nat)
    requires i < |keys|
  {
    (i > 0 ==> keys[i - 1] != keys[i]) && (i + 1 < |keys| ==> keys[i + 1] != keys[i])
  }

  function SelectSingles<T(==), N>(keys: seq<T>, items: seq<N>, i: nat): seq<N>
    requires |keys| == |items| && i <= |keys|
    decreases |keys| - i
  {
    if i == |keys| then []
    else if IsSingle(keys, i) then [items[i]] + SelectSingles(keys, items, i + 1)
    else SelectSingles(keys, items, i + 1)
  }

  /** No position of a run of length two or more is selected. */
  lemma {:induction false} SkipRun<T, N>(keys: seq<T>, items: seq<N>, i: nat, end: nat)
    requires |keys| == |items| && i <= end <= |keys|
    requires forall j :: i <= j < end ==> !IsSingle(keys, j)
    ensures SelectSingles(keys, items, i) == SelectSingles(keys, items, end)
    decreases end - i
  {
    if i == end {
    } else {
      SkipRun(keys, items, i + 1, end);
    }
  }

  /** From a run boundary on, dropping runs and selecting positions agree. */
  lemma {:induction false} SinglesByPosition<T, N>(keys: seq<T>, items: seq<N>, i: nat)
    requires |keys| == |items| && i <= |keys|
    requires 0 < i < |keys| ==> keys[i - 1] != keys[i]
    ensures SinglesFrom(keys, items, i) == SelectSingles(keys, items, i)
    decreases |keys| - i
  {
    if i == |keys| {
    } else {
      var e := RunEnd(keys, i);
      SinglesByPosition(keys, items, e);
      if e > i + 1 {
        SkipRun(keys, items, i, e);
      }
    }
  }

  /** Which items are selected, when none stands at two places. */
  lemma {:induction false} SelectedIff<T, N>(keys: seq<T>, items: seq<N>, i: nat, j: nat)
    requires |keys| == |items| && i <= |keys| && j < |keys| && NoRepeats(items)
    ensures items[j] in SelectSingles(keys, items, i) <==> i <= j && IsSingle(keys, j)
    decreases |keys| - i
  {
    if i == |keys| {
    } else {
      SelectedIff(keys, items, i + 1, j);
      assert items[i] == items[j] <==> i == j;
    }
  }

  lemma {:induction false} SelectedInOrder<T, N>(keys: seq<T>, items: seq<N>, i: nat)
    requires |keys| == |items| && i <= |keys|
    ensures Subsequence(SelectSingles(keys, items, i), items[i..])
    decreases |keys| - i
  {
    if i == |keys| {
      NothingIsSubsequence(items[i..]);
    } else {
      SelectedInOrder(keys, items, i + 1);
      assert items[i..] == [items[i]] + items[i + 1..];
      NothingIsSubsequence([items[i]]);
      AllIsSubsequence([items[i]]);
      SubsequenceAppend(if IsSingle(keys, i) then [items[i]] else [], [items[i]],
                        SelectSingles(keys, items, i + 1), items[i + 1..]);
      assert [] + SelectSingles(keys, items, i + 1) == SelectSingles(keys, items, i + 1);
    }
  }

  /** Left are the items whose key differs from both neighbours. */
  ghost predicate LeavesSingles<T, N>(keys: seq<T>, items: seq<N>, left: seq<N>)
    requires |keys| == |items|
  {
    forall j {:trigger items[j] in left} :: 0 <= j < |items| ==>
      (items[j] in left <==>
        (j > 0 ==> keys[j - 1] != keys[j]) && (j + 1 < |items| ==> keys[j + 1] != keys[j]))
  }

  /** The items kept are those whose key differs from both neighbours, in their order. */
  lemma SinglesSpelledOut<T, N>(keys: seq<T>, items: seq<N>, left: seq<N>)
    requires |keys| == |items| && NoRepeats(items) && left == Singles(keys, items)
    ensures forall j {:trigger items[j] in left} :: 0 <= j < |items| ==>
              (items[j] in left <==>
                (j > 0 ==> keys[j - 1] != keys[j]) && (j + 1 < |items| ==> keys[j + 1] != keys[j]))
    ensures LeavesSingles(keys, items, left) && Subsequence(left, items)
  {
    SinglesByPosition(keys, items, 0);
    SelectedInOrder(keys, items, 0);
    assert items[0..] == items;
    forall j | 0 <= j < |items|
      ensures items[j] in left <==> IsSingle(keys, j)
    {
      SelectedIff(keys, items, 0, j);
    }
  }

  lemma HeadOrSingle<T, N>(keys: seq<T>, items: seq<N>, j: nat)
    requires |keys| == |items| && NoRepeats(items) && j < |items|
    ensures items[j] in HeadAndSingles(keys, items) <==> j == 0 || IsSingle(keys, j)
  {
    var e := RunEnd(keys, 0);
    var rest := SinglesFrom(keys, items, e);
    SinglesByPosition(keys, items, e);
    SelectedIff(keys, items, e, j);
    assert items[j] in [items[0]] + rest <==> items[j] == items[0] || items[j] in rest;
    assert 0 < j < e ==> keys[j - 1] == keys[j];
  }

  lemma SkipBetween<N>(first: N, items: seq<N>, e: nat, rest: seq<N>)
    requires 1 <= e <= |items| && first == items[0] && Subsequence(rest, items[e..])
    ensures Subsequence([first] + rest, items)
  {
    NothingIsSubsequence(items[1..e]);
    AllIsSubsequence([first]);
    SubsequenceAppend([], items[1..e], rest, items[e..]);
    assert [] + rest == rest && items[1..e] + items[e..] == items[1..];
    SubsequenceAppend([first], [first], rest, items[1..]);
    assert [first] + items[1..] == items;
  }

  lemma HeadInOrder<T, N>(keys: seq<T>, items: seq<N>)
    requires |keys| == |items|
    ensures Subsequence(HeadAndSingles(keys, items), items)
  {
    if keys == [] {
      NothingIsSubsequence(items);
    } else {
      var e := RunEnd(keys, 0);
      SinglesByPosition(keys, items, e);
      SelectedInOrder(keys, items, e);
      SkipBetween(items[0], items, e, SinglesFrom(keys, items, e));
    }
  }

  /** Left are the first item and those whose key differs from both neighbours. */
  ghost predicate LeavesHeadAndSingles<T, N>(keys: seq<T>, items: seq<N>, left: seq<N>)
    requires |keys| == |items|
  {
    forall j {:trigger items[j] in left} :: 0 <= j < |items| ==>
      (items[j] in left <==>
        j == 0 || (keys[j - 1] != keys[j] && (j + 1 < |items| ==> keys[j + 1] != keys[j])))
  }

  /** The same with the first item kept in any case. */
  lemma HeadAndSinglesSpelledOut<T, N>(keys: seq<T>, items: seq<N>, left: seq<N>)
    requires |keys| == |items| && NoRepeats(items) && left == HeadAndSingles(keys, items)
    ensures forall j {:trigger items[j] in left} :: 0 <= j < |items| ==>
              (items[j] in left <==>
                j == 0 || (keys[j - 1] != keys[j] && (j + 1 < |items| ==> keys[j + 1] != keys[j])))
    ensures LeavesHeadAndSingles(keys, items, left) && Subsequence(left, items)
  {
    HeadInOrder(keys, items);
    forall j | 0 <= j < |items|
      ensures items[j] in left <==> j == 0 || IsSingle(keys, j)
    {
      HeadOrSingle(keys, items, j);
    }
  }

  // ----- multiplicities, where equal keys stand together -----

  predicate Grouped<T(==)>(s: seq<T>) {
    forall i, j, k :: 0 <= i < j < k < |s| && s[i] == s[k] ==> s[j] == s[i]
  }

  function Occurrences<T(==)>(s: seq<T>, x: T, from: nat): nat
    requires from <= |s|
    decreases |s| - from
  {
    if from == |s| then 0 else (if s[from] == x then 1 else 0) + Occurrences(s, x, from + 1)
  }

  lemma {:induction false} OccurrencesAreMultiplicity<T>(s: seq<T>, x: T, from: nat)
    requires from <= |s|
    ensures Occurrences(s, x, from) == multiset(s[from..])[x]
    decreases |s| - from
  {
    if from == |s| {
    } else {
      OccurrencesAreMultiplicity(s, x, from + 1);
      assert s[from..] == [s[from]] + s[from + 1..];
    }
  }

  lemma {:induction false} OccurrencesInRun<T>(s: seq<T>, x: T, i: nat, e: nat)
    requires i <= e <= |s|
    requires forall j :: i <= j < e ==> s[j] == s[i]
    ensures Occurrences(s, x, i) == (if i < e && s[i] == x then e - i else 0) + Occurrences(s, x, e)
    decreases e - i
  {
    if i == e {
    } else {
      OccurrencesInRun(s, x, i + 1, e);
    }
  }

  lemma {:induction false} NoOccurrences<T>(s: seq<T>, x: T, i: nat)
    requires i <= |s| && forall j :: i <= j < |s| ==> s[j] != x
    ensures Occurrences(s, x, i) == 0
    decreases |s| - i
  {
    if i == |s| {
    } else {
      NoOccurrences(s, x, i + 1);
    }
  }

  lemma {:induction false} OccurrencesShift<T>(a: seq<T>, b: seq<T>, x: T, i: nat)
    requires i <= |b|
    ensures Occurrences(a + b, x, |a| + i) == Occurrences(b, x, i)
    decreases |b| - i
  {
    if i == |b| {
    } else {
      OccurrencesShift(a, b, x, i + 1);
    }
  }

  lemma {:induction false} OccurrencesAppend<T>(a: seq<T>, b: seq<T>, x: T, i: nat)
    requires i <= |a|
    ensures Occurrences(a + b, x, i) == Occurrences(a, x, i) + Occurrences(b, x, 0)
    decreases |a| - i
  {
    if i < |a| {
      OccurrencesAppend(a, b, x, i + 1);
    } else {
      OccurrencesShift(a, b, x, 0);
    }
  }

  /** What is left is each value that occurs once, once. */
  lemma {:induction false} SinglesOccurOnce<T>(s: seq<T>, x: T, i: nat)
    requires Grouped(s) && i <= |s|
    ensures Occurrences(SinglesFrom(s, s, i), x, 0) == if Occurrences(s, x, i) == 1 then 1 else 0
    decreases |s| - i
  {
    if i == |s| {
    } else {
      var e := RunEnd(s, i);
      SinglesOccurOnce(s, x, e);
      OccurrencesInRun(s, x, i, e);
      if s[i] == x {
        assert forall j :: e <= j < |s| ==> s[j] != x by {
          assert e < |s| ==> s[e] != s[i];
        }
        NoOccurrences(s, x, e);
      }
      OccurrencesAppend([s[i]], SinglesFrom(s, s, e), x, 0);
    }
  }

  /** On a sorted sequence: exactly the values of multiplicity one are left. */
  lemma SinglesOfSorted(s: seq<int>, x: int)
    requires Sorted(s)
    ensures Occurrences(Singles(s, s), x, 0) == if Occurrences(s, x, 0) == 1 then 1 else 0
    ensures multiset(Singles(s, s))[x] == if multiset(s)[x] == 1 then 1 else 0
  {
    assert Grouped(s);
    SinglesOccurOnce(s, x, 0);
    OccurrencesAreMultiplicity(s, x, 0);
    OccurrencesAreMultiplicity(Singles(s, s), x, 0);
    assert s[0..] == s && Singles(s, s)[0..] == Singles(s, s);
  }
}

/** Merging two sorted arrays, into a new one and into the spare room of the first. */
module MergeArray {
  import opened Ordering

  const ARR_MAX_LEN := 100

  // ----- the forward merge -----

  /** The merge of a from i on and b from j on; equal values come from b first. */
  function Merge(a: seq<int>, i: nat, b: seq<int>, j: nat): seq<int>
    requires i <= |a| && j <= |b|
    decreases |a| - i + |b| - j
  {
    if i == |a| && j == |b| then []
    else if j == |b| || (i < |a| && a[i] < b[j]) then [a[i]] + Merge(a, i + 1, b, j)
    else [b[j]] + Merge(a, i, b, j + 1)
  }

  predicate AtLeast(s: seq<int>, i: nat, x: int) {
    forall k :: i <= k < |s| ==> x <= s[k]
  }

  lemma {:induction false} MergeAtLeast(a: seq<int>, i: nat, b: seq<int>, j: nat, x: int)
    requires i <= |a| && j <= |b| && AtLeast(a, i, x) && AtLeast(b, j, x)
    ensures AtLeast(Merge(a, i, b, j), 0, x)
    decreases |a| - i + |b| - j
  {
    if i == |a| && j == |b| {
    } else if j == |b| || (i < |a| && a[i] < b[j]) {
      MergeAtLeast(a, i + 1, b, j, x);
    } else {
      MergeAtLeast(a, i, b, j + 1, x);
    }
  }

  lemma SuffixAtLeast(s: seq<int>, i: nat, x: int)
    requires Sorted(s) && i <= |s| && (i < |s| ==> x <= s[i])
    ensures AtLeast(s, i, x)
  {
  }

  lemma SortedCons(x: int, s: seq<int>)
    requires Sorted(s) && AtLeast(s, 0, x)
    ensures Sorted([x] + s)
  {
  }

  lemma {:induction false} MergeIsSorted(a: seq<int>, i: nat, b: seq<int>, j: nat)
    requires Sorted(a) && Sorted(b) && i <= |a| && j <= |b|
    ensures Sorted(Merge(a, i, b, j))
    decreases |a| - i + |b| - j
  {
    if i == |a| && j == |b| {
    } else if j == |b| || (i < |a| && a[i] < b[j]) {
      MergeIsSorted(a, i + 1, b, j);
      SuffixAtLeast(a, i + 1, a[i]);
      SuffixAtLeast(b, j, a[i]);
      MergeAtLeast(a, i + 1, b, j, a[i]);
      SortedCons(a[i], Merge(a, i + 1, b, j));
    } else {
      MergeIsSorted(a, i, b, j + 1);
      SuffixAtLeast(a, i, b[j]);
      SuffixAtLeast(b, j + 1, b[j]);
      MergeAtLeast(a, i, b, j + 1, b[j]);
      SortedCons(b[j], Merge(a, i, b, j + 1));
    }
  }

  /** m is a rearrangement of the two parts together. */
  ghost predicate Rearranges(m: seq<int>, a: seq<int>, b: seq<int>) {
    multiset(m) == multiset(a) + multiset(b)
  }

  /** One value more in front of a merge and of its first part. */
  lemma FirstInFront(m: seq<int>, a: seq<int>, i: nat, b: seq<int>)
    requires i < |a| && Rearranges(m, a[i + 1..], b)
    ensures Rearranges([a[i]] + m, a[i..], b)
  {
    assert a[i..] == [a[i]] + a[i + 1..];
  }

  lemma SecondInFront(m: seq<int>, a: seq<int>, b: seq<int>, j: nat)
    requires j < |b| && Rearranges(m, a, b[j + 1..])
    ensures Rearranges([b[j]] + m, a, b[j..])
  {
    assert b[j..] == [b[j]] + b[j + 1..];
  }

  lemma {:induction false} MergeLength(a: seq<int>, i: nat, b: seq<int>, j: nat)
    requires i <= |a| && j <= |b|
    ensures |Merge(a, i, b, j)| == |a| - i + |b| - j
    decreases |a| - i + |b| - j
  {
    if i == |a| && j == |b| {
    } else if j == |b| || (i < |a| && a[i] < b[j]) {
      MergeLength(a, i + 1, b, j);
    } else {
      MergeLength(a, i, b, j + 1);
    }
  }

  lemma {:induction false} MergePermutes(a: seq<int>, i: nat, b: seq<int>, j: nat)
    requires i <= |a| && j <= |b|
    ensures Rearranges(Merge(a, i, b, j), a[i..], b[j..])
    decreases |a| - i + |b| - j
  {
    if i == |a| && j == |b| {
    } else if j == |b| || (i < |a| && a[i] < b[j]) {
      MergePermutes(a, i + 1, b, j);
      FirstInFront(Merge(a, i + 1, b, j), a, i, b[j..]);
    } else {
      MergePermutes(a, i, b, j + 1);
      SecondInFront(Merge(a, i, b, j + 1), a[i..], b, j);
    }
  }

  // ----- the backward merge -----

  /** The merge of a[..i] and b[..j] built from its end: the larger of the two last
      values comes last, b's on equality. */
  function BackMerge(a: seq<int>, i: nat, b: seq<int>, j: nat): seq<int>
    requires i <= |a| && j <= |b|
  {
    if i == 0 && j == 0 then []
    else if j == 0 || (i > 0 && a[i - 1] > b[j - 1]) then BackMerge(a, i - 1, b, j) + [a[i - 1]]
    else BackMerge(a, i, b, j - 1) + [b[j - 1]]
  }

  predicate AtMost(s: seq<int>, n: nat, x: int) {
    forall k :: 0 <= k < n && k < |s| ==> s[k] <= x
  }

  lemma {:induction false} BackMergeLength(a: seq<int>, i: nat, b: seq<int>, j: nat)
    requires i <= |a| && j <= |b|
    ensures |BackMerge(a, i, b, j)| == i + j
  {
    if i == 0 && j == 0 {
    } else if j == 0 || (i > 0 && a[i - 1] > b[j - 1]) {
      BackMergeLength(a, i - 1, b, j);
    } else {
      BackMergeLength(a, i, b, j - 1);
    }
  }

  lemma AtMostSnoc(s: seq<int>, y: int, x: int)
    requires AtMost(s, |s|, x) && y <= x
    ensures AtMost(s + [y], |s| + 1, x)
  {
  }

  lemma {:induction false} BackMergeAtMost(a: seq<int>, i: nat, b: seq<int>, j: nat, x: int)
    requires i <= |a| && j <= |b| && AtMost(a, i, x) && AtMost(b, j, x)
    ensures AtMost(BackMerge(a, i, b, j), |BackMerge(a, i, b, j)|, x)
  {
    if i == 0 && j == 0 {
    } else if j == 0 || (i > 0 && a[i - 1] > b[j - 1]) {
      BackMergeAtMost(a, i - 1, b, j, x);
      AtMostSnoc(BackMerge(a, i - 1, b, j), a[i - 1], x);
    } else {
      BackMergeAtMost(a, i, b, j - 1, x);
      AtMostSnoc(BackMerge(a, i, b, j - 1), b[j - 1], x);
    }
  }

  lemma PrefixAtMost(s: seq<int>, n: nat, x: int)
    requires Sorted(s) && n <= |s| && (n > 0 ==> s[n - 1] <= x)
    ensures AtMost(s, n, x)
  {
  }

  lemma SnocSorted(s: seq<int>, x: int)
    requires Sorted(s) && AtMost(s, |s|, x)
    ensures Sorted(s + [x])
  {
    SortedSnoc(s, x);
  }

  lemma {:induction false} BackMergeIsSorted(a: seq<int>, i: nat, b: seq<int>, j: nat)
    requires Sorted(a) && Sorted(b) && i <= |a| && j <= |b|
    ensures Sorted(BackMerge(a, i, b, j))
  {
    if i == 0 && j == 0 {
    } else if j == 0 || (i > 0 && a[i - 1] > b[j - 1]) {
      BackMergeIsSorted(a, i - 1, b, j);
      PrefixAtMost(a, i - 1, a[i - 1]);
      PrefixAtMost(b, j, a[i - 1]);
      BackMergeAtMost(a, i - 1, b, j, a[i - 1]);
      SnocSorted(BackMerge(a, i - 1, b, j), a[i - 1]);
    } else {
      BackMergeIsSorted(a, i, b, j - 1);
      PrefixAtMost(a, i, b[j - 1]);
      PrefixAtMost(b, j - 1, b[j - 1]);
      BackMergeAtMost(a, i, b, j - 1, b[j - 1]);
      SnocSorted(BackMerge(a, i, b, j - 1), b[j - 1]);
    }
  }

  lemma FirstBehind(m: seq<int>, a: seq<int>, i: nat, b: seq<int>)
    requires 0 < i <= |a| && Rearranges(m, a[..i - 1], b)
    ensures Rearranges(m + [a[i - 1]], a[..i], b)
  {
    assert a[..i] == a[..i - 1] + [a[i - 1]];
  }

  lemma SecondBehind(m: seq<int>, a: seq<int>, b: seq<int>, j: nat)
    requires 0 < j <= |b| && Rearranges(m, a, b[..j - 1])
    ensures Rearranges(m + [b[j - 1]], a, b[..j])
  {
    assert b[..j] == b[..j - 1] + [b[j - 1]];
  }

  lemma {:induction false} BackMergePermutes(a: seq<int>, i: nat, b: seq<int>, j: nat)
    requires i <= |a| && j <= |b|
    ensures Rearranges(BackMerge(a, i, b, j), a[..i], b[..j])
  {
    if i == 0 && j == 0 {
    } else if j == 0 || (i > 0 && a[i - 1] > b[j - 1]) {
      BackMergePermutes(a, i - 1, b, j);
      FirstBehind(BackMerge(a, i - 1, b, j), a, i, b[..j]);
    } else {
      BackMergePermutes(a, i, b, j - 1);
      SecondBehind(BackMerge(a, i, b, j - 1), a[..i], b, j);
    }
  }

  /** On sorted inputs both merges give the same sequence, the one sorted arrangement
      of all the values. */
  lemma BothMergesAgree(a: seq<int>, b: seq<int>)
    requires Sorted(a) && Sorted(b)
    ensures BackMerge(a, |a|, b, |b|) == Merge(a, 0, b, 0)
    ensures Sorted(Merge(a, 0, b, 0)) && Rearranges(Merge(a, 0, b, 0), a, b)
  {
    MergeIsSorted(a, 0, b, 0);
    BackMergeIsSorted(a, |a|, b, |b|);
    MergePermutes(a, 0, b, 0);
    BackMergePermutes(a, |a|, b, |b|);
    assert a[0..] == a == a[..|a|] && b[0..] == b == b[..|b|];
    SortedIsUnique(BackMerge(a, |a|, b, |b|), Merge(a, 0, b, 0));
  }

  // ----- the two methods -----

  /** The first k places are filled; the rest of the merge is still to be read. */
  ghost predicate Merged(temp: array<int>, all: seq<int>, a: seq<int>, i: int, b: seq<int>, j: int, k: int)
    reads temp
  {
    && 0 <= i <= |a| && 0 <= j <= |b| && k == i + j && temp.Length == |all| == |a| + |b|
    && (forall t :: 0 <= t < k ==> temp[t] == all[t])
    && all[k..] == Merge(a, i, b, j)
  }

  lemma MergeStep(all: seq<int>, a: seq<int>, i: nat, b: seq<int>, j: nat, k: nat)
    requires i <= |a| && j <= |b| && i + j < |a| + |b| && k < |all| && all[k..] == Merge(a, i, b, j)
    ensures if j == |b| || (i < |a| && a[i] < b[j])
            then all[k] == a[i] && all[k + 1..] == Merge(a, i + 1, b, j)
            else all[k] == b[j] && all[k + 1..] == Merge(a, i, b, j + 1)
  {
    assert all[k..][0] == all[k] && all[k..][1..] == all[k + 1..];
  }

  /** One round: the smaller of the two next values goes to place index. */
  method MoveSmaller(arr1: array<int>, arr2: array<int>, arrTemp: array<int>, index: nat, i: nat, j: nat,
                     ghost all: seq<int>, ghost a: seq<int>, ghost b: seq<int>) returns (index1: nat, index2: nat)
    requires |a| <= arr1.Length && |b| <= arr2.Length && arrTemp != arr1 && arrTemp != arr2
    requires arr1[..|a|] == a && arr2[..|b|] == b && i < |a| && j < |b|
    requires Merged(arrTemp, all, a, i, b, j, index)
    modifies arrTemp
    ensures index1 <= |a| && index2 <= |b| && Merged(arrTemp, all, a, index1, b, index2, index + 1)
  {
    MergeStep(all, a, i, b, j, index);
    assert arr1[i] == a[i] && arr2[j] == b[j];
    index1, index2 := i, j;
    if arr1[i] < arr2[j] {
      arrTemp[index] := arr1[i];
      index1 := i + 1;
    } else {
      arrTemp[index] := arr2[j];
      index2 := j + 1;
    }
  }

  lemma {:induction false} MergeOnlyFirst(a: seq<int>, i: nat, b: seq<int>)
    requires i <= |a|
    ensures Merge(a, i, b, |b|) == a[i..]
    decreases |a| - i
  {
    if i == |a| {
    } else {
      MergeOnlyFirst(a, i + 1, b);
      assert a[i..] == [a[i]] + a[i + 1..];
    }
  }

  lemma {:induction false} MergeOnlySecond(a: seq<int>, b: seq<int>, j: nat)
    requires j <= |b|
    ensures Merge(a, |a|, b, j) == b[j..]
    decreases |b| - j
  {
    if j == |b| {
    } else {
      MergeOnlySecond(a, b, j + 1);
      assert b[j..] == [b[j]] + b[j + 1..];
    }
  }

  /** Once one sequence is used up the merge is what is left of the other. */
  lemma MergeEnds(a: seq<int>, i: nat, b: seq<int>, j: nat)
    requires i <= |a| && j <= |b| && (i == |a| || j == |b|)
    ensures Merge(a, i, b, j) == a[i..] + b[j..]
  {
    if j == |b| {
      MergeOnlyFirst(a, i, b);
    } else {
      MergeOnlySecond(a, b, j);
    }
  }

  lemma MergeAssembled(temp: seq<int>, all: seq<int>, a: seq<int>, i: nat, b: seq<int>, j: nat, k: nat)
    requires i <= |a| && j <= |b| && k == i + j && |temp| == |all| == |a| + |b| && (i == |a| || j == |b|)
    requires forall t :: 0 <= t < k ==> temp[t] == all[t]
    requires forall t :: i <= t < |a| ==> temp[j + t] == a[t]
    requires forall t :: j <= t < |b| ==> temp[|a| + t] == b[t]
    requires all[k..] == Merge(a, i, b, j)
    ensures temp == all
  {
    MergeEnds(a, i, b, j);
    forall t | k <= t < |all|
      ensures temp[t] == all[t]
    {
      assert all[t] == all[k..][t - k];
      if t < j + |a| {
        assert temp[t] == temp[j + (t - j)];
      } else {
        assert temp[t] == temp[|a| + (t - |a|)];
      }
    }
  }

  /** The second and the third loop: from[start..end] is appended to the new array. */
  method CopyRest(from: array<int>, start: nat, end: nat, arrTemp: array<int>, index0: nat) returns (index: nat)
    requires start <= end <= from.Length && index0 + end - start <= arrTemp.Length && from != arrTemp
    modifies arrTemp
    ensures index == index0 + end - start
    ensures forall t :: 0 <= t < index0 ==> arrTemp[t] == old(arrTemp[t])
    ensures forall t :: start <= t < end ==> arrTemp[index0 - start + t] == from[t]
  {
    index := index0;
    var i := start;
    while i < end
      invariant start <= i <= end && index == index0 + i - start
      invariant forall t :: 0 <= t < index0 ==> arrTemp[t] == old(arrTemp[t])
      invariant forall t :: start <= t < i ==> arrTemp[index0 - start + t] == from[t]
    {
      arrTemp[index] := from[i];
      index, i := index + 1, i + 1;
    }
  }

  /** The loops of MergeArrayToNew. */
  method MergeForwards(arr1: array<int>, arr2: array<int>, len1: nat, len2: nat) returns (arrTemp: array<int>)
    requires len1 <= arr1.Length && len2 <= arr2.Length
    ensures fresh(arrTemp) && arrTemp[..] == Merge(arr1[..len1], 0, arr2[..len2], 0)
  {
    ghost var a, b := arr1[..len1], arr2[..len2];
    ghost var all := Merge(a, 0, b, 0);
    MergeLength(a, 0, b, 0);
    assert all[0..] == all;
    var index1, index2, index := 0, 0, 0;
    arrTemp := new int[len1 + len2];
    while index1 < len1 && index2 < len2
      invariant Merged(arrTemp, all, a, index1, b, index2, index)
      decreases len1 + len2 - index
    {
      index1, index2 := MoveSmaller(arr1, arr2, arrTemp, index, index1, index2, all, a, b);
      index := index + 1;
    }
    ghost var k := index;
    index := CopyRest(arr1, index1, len1, arrTemp, index);
    index := CopyRest(arr2, index2, len2, arrTemp, index);
    MergeAssembled(arrTemp[..], all, a, index1, b, index2, k);
  }

  lemma MergeOutcome(a: seq<int>, b: seq<int>)
    ensures multiset(Merge(a, 0, b, 0)) == multiset(a) + multiset(b)
    ensures Sorted(a) && Sorted(b) ==> Sorted(Merge(a, 0, b, 0))
  {
    MergePermutes(a, 0, b, 0);
    assert a[0..] == a && b[0..] == b;
    if Sorted(a) && Sorted(b) {
      MergeIsSorted(a, 0, b, 0);
    }
  }

  method MergeArrayToNew(arr1: array?<int>, arr2: array?<int>, len1: int, len2: int) returns (r: array?<int>)
    requires arr1 != null ==> len1 <= arr1.Length
    requires arr2 != null ==> len2 <= arr2.Length
    ensures r == null <==> arr1 == null || arr2 == null || len1 <= 0 || len2 <= 0
    ensures r != null ==> fresh(r) && r[..] == Merge(arr1[..len1], 0, arr2[..len2], 0)
    ensures r != null ==> multiset(r[..]) == multiset(arr1[..len1]) + multiset(arr2[..len2])
    ensures r != null && Sorted(arr1[..len1]) && Sorted(arr2[..len2]) ==> Sorted(r[..])
  {
    if arr1 == null || arr2 == null || len1 <= 0 || len2 <= 0 {
      return null;
    }
    r := MergeForwards(arr1, arr2, len1, len2);
    MergeOutcome(arr1[..len1], arr2[..len2]);
  }

  /** The first i values of a and j values of b still stand in the arrays, and from
      place i + j on the merge is complete. */
  ghost predicate Unread(arr1: array<int>, arr2: array<int>, all: seq<int>, a: seq<int>, i: int, b: seq<int>, j: int)
    reads arr1, arr2
  {
    && 0 <= i <= |a| && 0 <= j <= |b| && |all| == |a| + |b| <= arr1.Length && |b| <= arr2.Length
    && (forall t :: 0 <= t < i ==> arr1[t] == a[t]) && (forall t :: 0 <= t < j ==> arr2[t] == b[t])
    && (forall t :: i + j <= t < |all| ==> arr1[t] == all[t])
    && all[..i + j] == BackMerge(a, i, b, j)
  }

  lemma BackStep(all: seq<int>, a: seq<int>, i: nat, b: seq<int>, j: nat)
    requires i <= |a| && j <= |b| && 0 < i + j <= |all| && all[..i + j] == BackMerge(a, i, b, j)
    ensures if j == 0 || (i > 0 && a[i - 1] > b[j - 1])
            then all[i + j - 1] == a[i - 1] && all[..i + j - 1] == BackMerge(a, i - 1, b, j)
            else all[i + j - 1] == b[j - 1] && all[..i + j - 1] == BackMerge(a, i, b, j - 1)
  {
    var k := i + j;
    assert all[..k][k - 1] == all[k - 1] && all[..k][..k - 1] == all[..k - 1];
  }

  /** The assignment of a value of arr1 itself to its final place k. */
  method CopyFirst(arr1: array<int>, arr2: array<int>, k: nat, from: nat,
                   ghost all: seq<int>, ghost a: seq<int>, ghost b: seq<int>, ghost j: nat)
    requires Unread(arr1, arr2, all, a, from + 1, b, j) && k == from + j
    requires j == 0 || a[from] > b[j - 1]
    modifies arr1
    ensures Unread(arr1, arr2, all, a, from, b, j)
    ensures forall t :: 0 <= t < arr1.Length && t != k ==> arr1[t] == old(arr1[t])
    ensures arr1[|all|..] == old(arr1[|all|..])
  {
    BackStep(all, a, from + 1, b, j);
    arr1[k] := arr1[from];
  }

  /** The assignment of a value of arr2 to its final place k in arr1. */
  method CopySecond(arr1: array<int>, arr2: array<int>, k: nat, from: nat,
                    ghost all: seq<int>, ghost a: seq<int>, ghost i: nat, ghost b: seq<int>)
    requires Unread(arr1, arr2, all, a, i, b, from + 1) && k == i + from
    requires i == 0 || a[i - 1] <= b[from]
    modifies arr1
    ensures Unread(arr1, arr2, all, a, i, b, from)
    ensures forall t :: 0 <= t < arr1.Length && t != k ==> arr1[t] == old(arr1[t])
    ensures arr1[|all|..] == old(arr1[|all|..])
  {
    BackStep(all, a, i, b, from + 1);
    arr1[k] := arr2[from];
  }

  /** One round: the larger of the two last unread values goes to place newLen. */
  method MoveLarger(arr1: array<int>, arr2: array<int>, newLen: nat, i: nat, j: nat,
                    ghost all: seq<int>, ghost a: seq<int>, ghost b: seq<int>) returns (newLen1: int, newLen2: int)
    requires Unread(arr1, arr2, all, a, i + 1, b, j + 1) && newLen == i + j + 1
    modifies arr1
    ensures newLen1 >= -1 && newLen2 >= -1 && newLen1 + newLen2 == i + j - 1
    ensures Unread(arr1, arr2, all, a, newLen1 + 1, b, newLen2 + 1)
    ensures arr1[|all|..] == old(arr1[|all|..])
  {
    newLen1, newLen2 := i, j;
    if arr1[i] > arr2[j] {
      CopyFirst(arr1, arr2, newLen, i, all, a, b, j + 1);
      newLen1 := i - 1;
    } else {
      CopySecond(arr1, arr2, newLen, j, all, a, i + 1, b);
      newLen2 := j - 1;
    }
  }

  /** The first loop: it ends when one of the two arrays has been read completely. */
  method MergeUntilOneEnds(arr1: array<int>, arr2: array<int>, len1: nat, len2: nat,
                           ghost all: seq<int>, ghost a: seq<int>, ghost b: seq<int>)
    returns (newLen1: int, newLen2: int)
    requires |a| == len1 && |b| == len2 && Unread(arr1, arr2, all, a, len1, b, len2)
    modifies arr1
    ensures newLen1 == -1 || newLen2 == -1
    ensures Unread(arr1, arr2, all, a, newLen1 + 1, b, newLen2 + 1)
    ensures arr1[|all|..] == old(arr1[|all|..])
  {
    var newLen := len1 + len2 - 1;
    newLen1, newLen2 := len1 - 1, len2 - 1;
    while newLen1 >= 0 && newLen2 >= 0
      invariant Unread(arr1, arr2, all, a, newLen1 + 1, b, newLen2 + 1) && newLen == newLen1 + newLen2 + 1
      invariant arr1[|all|..] == old(arr1[|all|..])
      decreases newLen
    {
      newLen1, newLen2 := MoveLarger(arr1, arr2, newLen, newLen1, newLen2, all, a, b);
      newLen := newLen - 1;
    }
  }

  /** The second loop: what is left of arr1 moves to its final places. */
  method CopyRestOfFirst(arr1: array<int>, arr2: array<int>, last: int,
                         ghost all: seq<int>, ghost a: seq<int>, ghost b: seq<int>, ghost j: nat)
    requires Unread(arr1, arr2, all, a, last + 1, b, j) && (last < 0 || j == 0)
    modifies arr1
    ensures Unread(arr1, arr2, all, a, 0, b, j)
    ensures arr1[|all|..] == old(arr1[|all|..])
  {
    var newLen1 := last;
    while newLen1 >= 0
      invariant newLen1 >= -1 && Unread(arr1, arr2, all, a, newLen1 + 1, b, j)
      invariant arr1[|all|..] == old(arr1[|all|..])
    {
      CopyFirst(arr1, arr2, newLen1, newLen1, all, a, b, j);
      newLen1 := newLen1 - 1;
    }
  }

  /** The third loop: what is left of arr2 moves to the front of arr1. */
  method CopyRestOfSecond(arr1: array<int>, arr2: array<int>, last: int,
                          ghost all: seq<int>, ghost a: seq<int>, ghost b: seq<int>)
    requires Unread(arr1, arr2, all, a, 0, b, last + 1)
    modifies arr1
    ensures Unread(arr1, arr2, all, a, 0, b, 0)
    ensures arr1[|all|..] == old(arr1[|all|..])
  {
    var newLen2 := last;
    while newLen2 >= 0
      invariant newLen2 >= -1 && Unread(arr1, arr2, all, a, 0, b, newLen2 + 1)
      invariant arr1[|all|..] == old(arr1[|all|..])
    {
      CopySecond(arr1, arr2, newLen2, newLen2, all, a, 0, b);
      newLen2 := newLen2 - 1;
    }
  }

  /** The loops of MergeArrayToOld. */
  method MergeBackwards(arr1: array<int>, arr2: array<int>, len1: nat, len2: nat)
    requires len1 + len2 <= arr1.Length && len2 <= arr2.Length
    modifies arr1
    ensures arr1[..len1 + len2] == BackMerge(old(arr1[..len1]), len1, old(arr2[..len2]), len2)
    ensures arr1[len1 + len2..] == old(arr1[len1 + len2..])
  {
    ghost var a, b := arr1[..len1], arr2[..len2];
    ghost var all := BackMerge(a, len1, b, len2);
    BackMergeLength(a, len1, b, len2);
    assert all[..len1 + len2] == all;
    var newLen1, newLen2 := MergeUntilOneEnds(arr1, arr2, len1, len2, all, a, b);
    CopyRestOfFirst(arr1, arr2, newLen1, all, a, b, newLen2 + 1);
    CopyRestOfSecond(arr1, arr2, newLen2, all, a, b);
    assert arr1[..|all|] == all;
  }

  lemma BackMergeOutcome(a: seq<int>, b: seq<int>)
    ensures multiset(BackMerge(a, |a|, b, |b|)) == multiset(a) + multiset(b)
    ensures Sorted(a) && Sorted(b) ==> Sorted(BackMerge(a, |a|, b, |b|))
  {
    BackMergePermutes(a, |a|, b, |b|);
    assert a[..|a|] == a && b[..|b|] == b;
    if Sorted(a) && Sorted(b) {
      BackMergeIsSorted(a, |a|, b, |b|);
    }
  }

  /** Merges arr2 into arr1 from the far end. Nothing unread is overwritten, not even
      when the two arrays are the same. */
  method MergeArrayToOld(arr1: array?<int>, arr2: array?<int>, len1: int, len2: int)
    requires arr1 != null ==> len1 <= arr1.Length
    requires arr2 != null ==> len2 <= arr2.Length
    requires arr1 != null && len1 > 0 && len2 > 0 && len1 + len2 <= 100 ==> len1 + len2 <= arr1.Length
    modifies if arr1 != null then {arr1} else {}
    ensures arr1 != null && arr2 != null && len1 > 0 && len2 > 0 && len1 + len2 <= ARR_MAX_LEN ==>
              && arr1[..len1 + len2] == BackMerge(old(arr1[..len1]), len1, old(arr2[..len2]), len2)
              && arr1[len1 + len2..] == old(arr1[len1 + len2..])
    ensures arr1 != null && !(arr2 != null && len1 > 0 && len2 > 0 && len1 + len2 <= ARR_MAX_LEN) ==>
              arr1[..] == old(arr1[..])
    ensures arr1 != null && arr2 != null && len1 > 0 && len2 > 0 && len1 + len2 <= 100 ==>
              && multiset(arr1[..len1 + len2]) == multiset(old(arr1[..len1])) + multiset(old(arr2[..len2]))
              && (Sorted(old(arr1[..len1])) && Sorted(old(arr2[..len2])) ==> Sorted(arr1[..len1 + len2]))
    ensures arr1 != null && len1 + len2 > 100 ==> arr1[..] == old(arr1[..])
  {
    if arr1 == null || arr2 == null || len1 <= 0 || len2 <= 0 || len1 + len2 > ARR_MAX_LEN {
      return;
    }
    BackMergeOutcome(arr1[..len1], arr2[..len2]);
    MergeBackwards(arr1, arr2, len1, len2);
  }
}

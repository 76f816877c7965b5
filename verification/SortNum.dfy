/** Moving the negative values of an array to its front. */
module SortNum {
  import opened Ordering
  import opened Sequences

  datatype Class = Negative | NonNegative | NonPositive | Positive

  predicate In(c: Class, x: int) {
    match c
    case Negative => x < 0
    case NonNegative => x >= 0
    case NonPositive => x <= 0
    case Positive => x > 0
  }

  /** The values of a class, in their order. */
  function Only(c: Class, s: seq<int>): seq<int> {
    if s == [] then []
    else if In(c, s[|s| - 1]) then Only(c, s[..|s| - 1]) + [s[|s| - 1]]
    else Only(c, s[..|s| - 1])
  }

  /** Negatives first, then all others, both in their original order. */
  function StablePartition(s: seq<int>): seq<int> {
    Only(Negative, s) + Only(NonNegative, s)
  }

  /** No negative value stands behind a value that is not negative. */
  predicate Partitioned(s: seq<int>) {
    forall i, j :: 0 <= i < j < |s| && s[j] < 0 ==> s[i] < 0
  }

  predicate ZeroFree(s: seq<int>) {
    forall i :: 0 <= i < |s| ==> s[i] != 0
  }

  predicate NoZeroBeforeNegative(s: seq<int>) {
    forall i, j :: 0 <= i < j < |s| && s[j] < 0 ==> s[i] != 0
  }

  /** What one value adds to a class. */
  function Kept(c: Class, x: int): seq<int> {
    if In(c, x) then [x] else []
  }

  lemma OnlySnoc(c: Class, s: seq<int>, x: int)
    ensures Only(c, s + [x]) == Only(c, s) + Kept(c, x)
  {
    assert (s + [x])[..|s|] == s;
  }

  lemma {:induction false} OnlyAppend(c: Class, a: seq<int>, b: seq<int>)
    ensures Only(c, a + b) == Only(c, a) + Only(c, b)
  {
    if b == [] {
      assert a + b == a;
    } else {
      var b', x := b[..|b| - 1], b[|b| - 1];
      assert b == b' + [x] && a + b == (a + b') + [x];
      OnlyAppend(c, a, b');
      OnlySnoc(c, a + b', x);
    }
  }

  lemma OnlyOfPrefix(c: Class, s: seq<int>, k: nat)
    requires k <= |s|
    ensures |Only(c, s[..k])| <= |Only(c, s)|
  {
    assert s == s[..k] + s[k..];
    OnlyAppend(c, s[..k], s[k..]);
  }

  /** One value more of a prefix. */
  lemma OnlyNext(c: Class, s: seq<int>, i: nat)
    requires i < |s|
    ensures Only(c, s[..i + 1]) == Only(c, s[..i]) + Kept(c, s[i])
    ensures |Only(c, s[..i + 1])| <= |Only(c, s)|
  {
    assert s[..i + 1] == s[..i] + [s[i]];
    OnlySnoc(c, s[..i], s[i]);
    OnlyOfPrefix(c, s, i + 1);
  }

  lemma {:induction false} OnlyMembers(c: Class, s: seq<int>)
    ensures forall i :: 0 <= i < |Only(c, s)| ==> In(c, Only(c, s)[i])
    ensures |Only(c, s)| <= |s|
  {
    if s == [] {
    } else {
      OnlyMembers(c, s[..|s| - 1]);
    }
  }

  lemma {:induction false} OnlyIsAll(c: Class, s: seq<int>)
    requires forall i :: 0 <= i < |s| ==> In(c, s[i])
    ensures Only(c, s) == s
  {
    if s == [] {
    } else {
      OnlyIsAll(c, s[..|s| - 1]);
    }
  }

  lemma {:induction false} OnlyIsNone(c: Class, s: seq<int>)
    ensures Only(c, s) == [] <==> forall i :: 0 <= i < |s| ==> !In(c, s[i])
  {
    if s == [] {
    } else {
      OnlyIsNone(c, s[..|s| - 1]);
      assert forall i :: 0 <= i < |s| - 1 ==> s[..|s| - 1][i] == s[i];
    }
  }

  lemma MultisetOfMiddle(a: seq<int>, x: int, b: seq<int>)
    ensures multiset(a + [x] + b) == multiset(a + b) + multiset{x}
  {
  }

  lemma StablePartitionSnoc(s: seq<int>, x: int)
    ensures multiset(StablePartition(s + [x])) == multiset(StablePartition(s)) + multiset{x}
  {
    OnlySnoc(Negative, s, x);
    OnlySnoc(NonNegative, s, x);
    if x < 0 {
      MultisetOfMiddle(Only(Negative, s), x, Only(NonNegative, s));
    } else {
      assert StablePartition(s + [x]) == StablePartition(s) + [x];
    }
  }

  lemma {:induction false} Complementary(s: seq<int>)
    ensures |Only(Negative, s)| + |Only(NonNegative, s)| == |s|
    ensures |Only(NonPositive, s)| + |Only(Positive, s)| == |s|
    ensures multiset(StablePartition(s)) == multiset(s)
  {
    if s == [] {
    } else {
      var s', x := s[..|s| - 1], s[|s| - 1];
      assert s == s' + [x];
      Complementary(s');
      StablePartitionSnoc(s', x);
      MultisetSnoc(s', x);
    }
  }

  lemma StablePartitionIsPartitioned(s: seq<int>)
    ensures Partitioned(StablePartition(s))
  {
    OnlyMembers(Negative, s);
    OnlyMembers(NonNegative, s);
  }

  lemma {:induction false} OnlyInOrder(c: Class, s: seq<int>)
    ensures Subsequence(Only(c, s), s)
  {
    if s == [] {
      NothingIsSubsequence(s);
    } else {
      var s', last := s[..|s| - 1], [s[|s| - 1]];
      assert s == s' + last;
      OnlyInOrder(c, s');
      NothingIsSubsequence(last);
      AllIsSubsequence(last);
      SubsequenceAppend(Only(c, s'), s', Kept(c, s[|s| - 1]), last);
      OnlySnoc(c, s', s[|s| - 1]);
    }
  }

  /** The negative values in front, the others behind them, both in their order. */
  lemma StablePartitionSpelledOut(s: seq<int>)
    ensures exists n: nat :: n <= |s| == |StablePartition(s)|
              && Subsequence(StablePartition(s)[..n], s) && Subsequence(StablePartition(s)[n..], s)
              && (forall i :: 0 <= i < n ==> StablePartition(s)[i] < 0)
              && (forall i :: n <= i < |s| ==> StablePartition(s)[i] >= 0)
    ensures multiset(StablePartition(s)) == multiset(s)
  {
    var n, front, back := |Only(Negative, s)|, Only(Negative, s), Only(NonNegative, s);
    Complementary(s);
    OnlyInOrder(Negative, s);
    OnlyInOrder(NonNegative, s);
    OnlyMembers(Negative, s);
    OnlyMembers(NonNegative, s);
    assert StablePartition(s)[..n] == front && StablePartition(s)[n..] == back;
    assert forall i :: n <= i < |s| ==> StablePartition(s)[i] == back[i - n];
  }

  // ----- SortNum: what it computes -----

  /** The position behind the n-th non-positive value from q on. */
  function Cut(s: seq<int>, n: nat, q: nat): (p: nat)
    requires q <= |s|
    ensures q <= p <= |s|
    decreases |s| - q
  {
    if n == 0 || q == |s| then q
    else if s[q] <= 0 then Cut(s, n - 1, q + 1)
    else Cut(s, n, q + 1)
  }

  /** s after its first q values have been looked at: the positive ones among them
      have gone to the end. */
  function Carried(s: seq<int>, q: nat): seq<int>
    requires q <= |s|
  {
    Only(NonPositive, s[..q]) + s[q..] + Only(Positive, s[..q])
  }

  lemma {:induction false} NegativesAreNonPositive(s: seq<int>)
    ensures |Only(Negative, s)| <= |Only(NonPositive, s)|
    ensures |Only(Negative, s)| == |Only(NonPositive, s)| <==> ZeroFree(s)
    ensures ZeroFree(s) ==> Only(Negative, s) == Only(NonPositive, s) && Only(NonNegative, s) == Only(Positive, s)
  {
    if s == [] {
    } else {
      var s' := s[..|s| - 1];
      NegativesAreNonPositive(s');
      assert ZeroFree(s) <==> ZeroFree(s') && s[|s| - 1] != 0 by {
        assert forall i :: 0 <= i < |s'| ==> s'[i] == s[i];
      }
    }
  }

  /** The cut leaves exactly n non-positive values in front when there are that many. */
  lemma {:induction false} CutCounts(s: seq<int>, n: nat, q: nat)
    requires q <= |s| && |Only(NonPositive, s[..q])| + n <= |Only(NonPositive, s)|
    ensures |Only(NonPositive, s[..Cut(s, n, q)])| == |Only(NonPositive, s[..q])| + n
    decreases |s| - q
  {
    if n == 0 {
    } else {
      assert s[..|s|] == s;
      OnlyNext(NonPositive, s, q);
      CutCounts(s, if s[q] <= 0 then n - 1 else n, q + 1);
    }
  }

  /** The cut is just behind a non-positive value, when it asks for any. */
  lemma {:induction false} CutStops(s: seq<int>, n: nat, q: nat)
    requires q <= |s| && |Only(NonPositive, s[..q])| + n <= |Only(NonPositive, s)|
    ensures n == 0 || (Cut(s, n, q) > q && s[Cut(s, n, q) - 1] <= 0)
    decreases |s| - q
  {
    if n == 0 {
    } else {
      assert s[..|s|] == s;
      OnlyNext(NonPositive, s, q);
      CutStops(s, if s[q] <= 0 then n - 1 else n, q + 1);
    }
  }

  /** The place where the walk over s stops. */
  function Stop(s: seq<int>): (p: nat)
    ensures p <= |s|
  {
    Cut(s, |Only(Negative, s)|, 0)
  }

  /** The result on every array: the walk stops once there are as many non-positive
      values in front as the array has negative ones. */
  function Rotated(s: seq<int>): seq<int> {
    Carried(s, Stop(s))
  }

  /** As many non-positive values stand before the stop as s has negative ones. */
  lemma StopCounts(s: seq<int>)
    ensures |Only(NonPositive, s[..Stop(s)])| == |Only(Negative, s)|
  {
    NegativesAreNonPositive(s);
    assert s[..0] == [];
    CutCounts(s, |Only(Negative, s)|, 0);
  }

  lemma StopIsBehindNonPositive(s: seq<int>)
    ensures Stop(s) > 0 ==> s[Stop(s) - 1] <= 0
  {
    NegativesAreNonPositive(s);
    assert s[..0] == [];
    CutStops(s, |Only(Negative, s)|, 0);
  }

  lemma NegativesOfParts(s: seq<int>, p: nat)
    requires p <= |s|
    ensures |Only(Negative, s)| == |Only(Negative, s[..p])| + |Only(Negative, s[p..])|
  {
    assert s == s[..p] + s[p..];
    OnlyAppend(Negative, s[..p], s[p..]);
  }

  /** A zero stands before the stop exactly when a negative value stands behind it. */
  lemma StopSplits(s: seq<int>)
    ensures ZeroFree(s[..Stop(s)]) <==> Only(Negative, s[Stop(s)..]) == []
  {
    StopCounts(s);
    NegativesOfParts(s, Stop(s));
    NegativesAreNonPositive(s[..Stop(s)]);
  }

  /** When all negative values stand in front of p and no zero does. */
  lemma NegativesInFront(s: seq<int>, p: nat)
    requires p <= |s| && ZeroFree(s[..p]) && Only(Negative, s[p..]) == []
    ensures Only(Negative, s) == Only(NonPositive, s[..p])
    ensures Only(NonNegative, s) == Only(Positive, s[..p]) + s[p..]
  {
    assert s == s[..p] + s[p..];
    OnlyAppend(Negative, s[..p], s[p..]);
    OnlyAppend(NonNegative, s[..p], s[p..]);
    NegativesAreNonPositive(s[..p]);
    OnlyIsNone(Negative, s[p..]);
    OnlyIsAll(NonNegative, s[p..]);
  }

  lemma ZeroFreePrefix(s: seq<int>, p: nat)
    requires ZeroFree(s) && p <= |s|
    ensures ZeroFree(s[..p])
  {
  }

  /** Without zeros the stop is just behind the last negative value. */
  lemma StopOnZeroFree(s: seq<int>)
    requires ZeroFree(s)
    ensures Stop(s) > 0 ==> s[Stop(s) - 1] < 0
    ensures forall i :: Stop(s) <= i < |s| ==> s[i] > 0
  {
    var p := Stop(s);
    StopIsBehindNonPositive(s);
    StopSplits(s);
    ZeroFreePrefix(s, p);
    OnlyIsNone(Negative, s[p..]);
    forall i | p <= i < |s|
      ensures s[i] > 0
    {
      assert s[p..][i - p] == s[i];
    }
  }

  /** On arrays without zeros: negatives first in their order, then the positive values
      rotated by those that stood before the stop. */
  lemma RotatedOnZeroFree(s: seq<int>)
    requires ZeroFree(s)
    ensures var k, others := |Only(Positive, s[..Stop(s)])|, Only(NonNegative, s);
      k <= |others| && Rotated(s) == Only(Negative, s) + others[k..] + others[..k]
  {
    var p := Stop(s);
    StopSplits(s);
    ZeroFreePrefix(s, p);
    NegativesInFront(s, p);
    var front, others := Only(Positive, s[..p]), Only(NonNegative, s);
    assert others[..|front|] == front && others[|front|..] == s[p..];
  }

  lemma AllSeparated(s: seq<int>, p: nat)
    requires p <= |s| && ZeroFree(s[..p])
    requires forall i :: 0 <= i < |s[p..]| ==> !In(Negative, s[p..][i])
    ensures Partitioned(Carried(s, p)) && NoZeroBeforeNegative(s)
  {
    var front := s[..p];
    NegativesAreNonPositive(front);
    OnlyMembers(Negative, front);
    OnlyMembers(Positive, front);
    assert forall t :: p <= t < |s| ==> s[t] == s[p..][t - p];
    forall i, j | 0 <= i < j < |s| && s[j] < 0
      ensures s[i] != 0
    {
      assert front[i] == s[i];
    }
  }

  lemma {:induction false} ZeroSurvives(s: seq<int>, z: nat)
    requires z < |s| && s[z] == 0
    ensures exists y :: 0 <= y < |Only(NonPositive, s)| && Only(NonPositive, s)[y] == 0
  {
    var s' := s[..|s| - 1];
    if z < |s'| {
      ZeroSurvives(s', z);
      var y :| 0 <= y < |Only(NonPositive, s')| && Only(NonPositive, s')[y] == 0;
      assert Only(NonPositive, s)[y] == 0;
    } else {
      assert Only(NonPositive, s)[|Only(NonPositive, s)| - 1] == 0;
    }
  }

  lemma SomeZeroFirst(s: seq<int>, p: nat)
    requires p <= |s| && !ZeroFree(s[..p])
    requires exists i :: 0 <= i < |s[p..]| && In(Negative, s[p..][i])
    ensures !Partitioned(Carried(s, p)) && !NoZeroBeforeNegative(s)
  {
    var front := s[..p];
    var z :| 0 <= z < |front| && front[z] == 0;
    var n :| 0 <= n < |s[p..]| && In(Negative, s[p..][n]);
    assert s[z] == 0 && s[p + n] < 0;
    ZeroSurvives(front, z);
    var h := Only(NonPositive, front);
    var y :| 0 <= y < |h| && h[y] == 0;
    var r := Carried(s, p);
    assert r[y] == 0 && r[|h| + n] == s[p + n];
  }

  /** SortNum separates the negative values exactly when no zero stands before one. */
  lemma SortNumSeparatesIff(s: seq<int>)
    ensures Partitioned(Rotated(s)) <==> NoZeroBeforeNegative(s)
  {
    StopSplits(s);
    OnlyIsNone(Negative, s[Stop(s)..]);
    if ZeroFree(s[..Stop(s)]) {
      AllSeparated(s, Stop(s));
    } else {
      SomeZeroFirst(s, Stop(s));
    }
  }

  /** The case of zeros in front: [0, -1] comes out unchanged. */
  lemma ZeroIsTakenForNegative()
    ensures Rotated([0, -1]) == [0, -1] && !Partitioned([0, -1])
  {
    var s := [0, -1];
    assert s[..1] == [0] && [0][..0] == [] && s[..1][..0] == [];
    assert Only(Negative, [0]) == [];
    assert Only(Negative, s) == [-1];
    assert Cut(s, 1, 0) == Cut(s, 0, 1) == 1;
    assert Only(NonPositive, [0]) == [0] && Only(Positive, [0]) == [];
    assert s[1..] == [-1];
    assert s[1] < 0 && s[0] == 0;
  }

  // ----- the loops of SortNum -----

  /** Counts the negative values. */
  method CountNegative(arr: array<int>, len: nat) returns (n: nat)
    requires len <= arr.Length
    ensures n == |Only(Negative, arr[..len])|
  {
    n := 0;
    ghost var s := arr[..len];
    for i := 0 to len
      invariant n == |Only(Negative, s[..i])|
    {
      OnlyNext(Negative, s, i);
      if arr[i] < 0 {
        n := n + 1;
      }
    }
    assert s[..len] == s;
  }

  /** s with its value at place i moved to the end. */
  function ToEnd(s: seq<int>, i: nat): seq<int>
    requires i < |s|
  {
    s[..i] + s[i + 1..] + [s[i]]
  }

  lemma ToEndAt(before: seq<int>, after: seq<int>, i: nat)
    requires i < |before| == |after|
    requires forall t :: 0 <= t < i ==> after[t] == before[t]
    requires forall t :: i <= t < |before| - 1 ==> after[t] == before[t + 1]
    requires after[|before| - 1] == before[i]
    ensures after == ToEnd(before, i)
  {
  }

  /** Shifts everything behind place i forward and puts its value last. */
  method MoveToEnd(arr: array<int>, i: nat, len: nat)
    requires i < len <= arr.Length
    modifies arr
    ensures arr[..len] == ToEnd(old(arr[..len]), i)
    ensures arr[len..] == old(arr[len..])
  {
    ghost var before := arr[..len];
    var tempValue := arr[i];
    for j := i + 1 to len
      invariant forall t :: 0 <= t < i || j <= t < arr.Length ==> arr[t] == old(arr[t])
      invariant forall t :: i <= t < j - 1 ==> arr[t] == before[t + 1]
    {
      arr[j - 1] := arr[j];
    }
    arr[len - 1] := tempValue;
    ToEndAt(before, arr[..len], i);
  }

  /** Where the nested loops of SortNum stand when the array reads cur: q values of s
      have been looked at, i of them stay in front, and the stop is still where it was
      from the start. */
  ghost predicate Looking(cur: seq<int>, s: seq<int>, q: nat, i: nat) {
    && q <= |s| && i <= |Only(Negative, s)|
    && cur == Carried(s, q) && i == |Only(NonPositive, s[..q])|
    && Cut(s, |Only(Negative, s)| - i, q) == Stop(s)
  }

  lemma LookingStarts(s: seq<int>)
    ensures Looking(s, s, 0, 0)
  {
    assert s[..0] == [] && s[0..] == s;
  }

  lemma LookingEnds(cur: seq<int>, s: seq<int>, q: nat, i: nat)
    requires Looking(cur, s, q, i) && i >= |Only(Negative, s)|
    ensures cur == Rotated(s)
  {
  }

  /** At place i stands the next value to look at; there is one as long as fewer
      non-positive values have been seen than the array has negative ones. */
  lemma NextInLine(cur: seq<int>, s: seq<int>, q: nat, i: nat)
    requires Looking(cur, s, q, i) && i < |Only(Negative, s)|
    ensures q < |s| == |cur| && i < |cur| && cur[i] == s[q]
  {
    NegativesAreNonPositive(s);
    Complementary(s[..q]);
    assert s[..|s|] == s;
  }

  lemma MiddleToEnd(h: seq<int>, x: int, r: seq<int>, t: seq<int>)
    ensures ToEnd(h + ([x] + r) + t, |h|) == h + r + (t + [x])
  {
    var b := h + ([x] + r) + t;
    assert b[..|h|] == h && b[|h|] == x && b[|h| + 1..] == r + t;
  }

  lemma CarriedPositive(s: seq<int>, q: nat)
    requires q < |s| && s[q] > 0
    ensures var i := |Only(NonPositive, s[..q])|;
      i < |Carried(s, q)| && Carried(s, q + 1) == ToEnd(Carried(s, q), i)
  {
    OnlyNext(NonPositive, s, q);
    OnlyNext(Positive, s, q);
    assert s[q..] == [s[q]] + s[q + 1..];
    MiddleToEnd(Only(NonPositive, s[..q]), s[q], s[q + 1..], Only(Positive, s[..q]));
  }

  lemma StaysInFront(h: seq<int>, x: int, r: seq<int>, t: seq<int>)
    ensures h + ([x] + r) + t == (h + [x]) + r + t
  {
  }

  lemma CarriedOther(s: seq<int>, q: nat)
    requires q < |s| && s[q] <= 0
    ensures Carried(s, q + 1) == Carried(s, q)
  {
    OnlyNext(NonPositive, s, q);
    OnlyNext(Positive, s, q);
    assert s[q..] == [s[q]] + s[q + 1..];
    StaysInFront(Only(NonPositive, s[..q]), s[q], s[q + 1..], Only(Positive, s[..q]));
  }

  lemma CutStep(s: seq<int>, n: nat, q: nat)
    requires 0 < n && q < |s|
    ensures Cut(s, n, q) == if s[q] <= 0 then Cut(s, n - 1, q + 1) else Cut(s, n, q + 1)
  {
  }

  lemma SendToEnd(cur: seq<int>, s: seq<int>, q: nat, i: nat)
    requires Looking(cur, s, q, i) && i < |Only(Negative, s)|
    requires q < |s| == |cur| && i < |cur| && s[q] > 0
    ensures Looking(ToEnd(cur, i), s, q + 1, i)
  {
    OnlyNext(NonPositive, s, q);
    CarriedPositive(s, q);
    CutStep(s, |Only(Negative, s)| - i, q);
  }

  lemma KeepInFront(cur: seq<int>, s: seq<int>, q: nat, i: nat)
    requires Looking(cur, s, q, i) && i < |Only(Negative, s)| && q < |s| && s[q] <= 0
    ensures Looking(cur, s, q + 1, i + 1)
  {
    OnlyNext(NonPositive, s, q);
    CarriedOther(s, q);
    CutStep(s, |Only(Negative, s)| - i, q);
  }

  /** The inner loop: positive values at place i go to the end until none is there. */
  method ClearPlace(arr: array<int>, len: nat, i: nat, ghost s: seq<int>, ghost q0: nat) returns (ghost q: nat)
    requires len <= arr.Length && Looking(arr[..len], s, q0, i) && i < |Only(Negative, s)|
    modifies arr
    ensures Looking(arr[..len], s, q, i + 1)
    ensures arr[len..] == old(arr[len..])
  {
    q := q0;
    NextInLine(arr[..len], s, q, i);
    while arr[i] > 0
      invariant Looking(arr[..len], s, q, i)
      invariant i < len && q < |s| == len && arr[i] == s[q]
      invariant arr[len..] == old(arr[len..])
      decreases len - q
    {
      SendToEnd(arr[..len], s, q, i);
      MoveToEnd(arr, i, len);
      q := q + 1;
      NextInLine(arr[..len], s, q, i);
    }
    KeepInFront(arr[..len], s, q, i);
    q := q + 1;
  }

  method SortNumLoops(arr: array<int>, len: nat)
    requires len <= arr.Length
    modifies arr
    ensures arr[..len] == Rotated(old(arr[..len])) && arr[len..] == old(arr[len..])
  {
    ghost var s, q := arr[..len], 0;
    var negaNum := CountNegative(arr, len);
    LookingStarts(s);
    OnlyMembers(Negative, s);
    var i := 0;
    while i < len && i < negaNum
      invariant Looking(arr[..len], s, q, i)
      invariant arr[len..] == old(arr[len..])
      decreases negaNum - i
    {
      q := ClearPlace(arr, len, i, s, q);
      i := i + 1;
    }
    LookingEnds(arr[..len], s, q, i);
  }

  method SortNum(arr: array?<int>, len: int)
    requires arr != null ==> len <= arr.Length
    modifies if arr != null then {arr} else {}
    ensures arr != null && len >= 0 ==> arr[..len] == Rotated(old(arr[..len])) && arr[len..] == old(arr[len..])
    ensures arr != null && len < 0 ==> arr[..] == old(arr[..])
  {
    if arr == null || len < 0 {
      return;
    }
    SortNumLoops(arr, len);
  }

  // ----- the swap chain of SortNum2 -----

  /** s with its value at place k inserted at place f. */
  function Inserted(s: seq<int>, f: nat, k: nat): seq<int>
    requires f <= k < |s|
  {
    s[..f] + [s[k]] + s[f..k] + s[k + 1..]
  }

  lemma InsertedAt(before: seq<int>, after: seq<int>, f: nat, k: nat)
    requires f <= k < |before| == |after|
    requires forall t :: 0 <= t < f || k < t < |before| ==> after[t] == before[t]
    requires after[f] == before[k]
    requires forall t :: f < t <= k ==> after[t] == before[t - 1]
    ensures after == Inserted(before, f, k)
  {
  }

  lemma SplitBehind(a: seq<int>, b: seq<int>)
    ensures (a + b)[..|a|] == a && (a + b)[|a|..] == b
  {
  }

  lemma InsertedInPrefix(s: seq<int>, n: nat, f: nat, k: nat)
    requires f <= k < n <= |s|
    ensures Inserted(s, f, k)[..n] == Inserted(s[..n], f, k) && Inserted(s, f, k)[n..] == s[n..]
  {
    var front := Inserted(s[..n], f, k);
    assert s[..n][..f] == s[..f] && s[..n][f..k] == s[f..k] && s[..n][k + 1..] == s[k + 1..n];
    assert s[k + 1..] == s[k + 1..n] + s[n..];
    assert Inserted(s, f, k) == front + s[n..];
    SplitBehind(front, s[n..]);
  }

  method Swap(a: array<int>, i: nat, j: nat)
    requires i < a.Length && j < a.Length
    modifies a
    ensures a[i] == old(a[j]) && a[j] == old(a[i])
    ensures forall t :: 0 <= t < a.Length && t != i && t != j ==> a[t] == old(a[t])
    ensures multiset(a[..]) == multiset(old(a[..]))
  {
    var temp := a[i];
    a[i] := a[j];
    a[j] := temp;
  }

  /** Inserts the value at place start at place finsh, by a chain of swaps. */
  method SwapChain(arr: array<int>, finsh: nat, start: nat)
    requires finsh <= start < arr.Length
    modifies arr
    ensures arr[..] == Inserted(old(arr[..]), finsh, start)
  {
    Swap(arr, start, finsh);
    var pos := finsh;
    while pos < start
      invariant finsh <= pos <= start
      invariant forall t :: 0 <= t < finsh || start < t < arr.Length ==> arr[t] == old(arr[t])
      invariant arr[finsh] == old(arr[start])
      invariant forall t :: finsh < t <= pos ==> arr[t] == old(arr[t - 1])
      invariant forall t :: pos < t < start ==> arr[t] == old(arr[t])
      invariant pos < start ==> arr[start] == old(arr[pos])
    {
      pos := pos + 1;
      Swap(arr, pos, start);
    }
    InsertedAt(old(arr[..]), arr[..], finsh, start);
  }

  lemma Parts(a: seq<int>, b: seq<int>, x: int, rest: seq<int>)
    ensures Inserted(a + b + ([x] + rest), |a|, |a| + |b|) == a + [x] + b + rest
  {
    var s, f, k := a + b + ([x] + rest), |a|, |a| + |b|;
    assert s[..f] == a && s[f..k] == b && s[k] == x && s[k + 1..] == rest;
  }

  /** The stable partition of one value more. */
  lemma PartitionNext(s: seq<int>, k: nat)
    requires k < |s|
    ensures s[k] < 0 ==> StablePartition(s[..k + 1]) == Only(Negative, s[..k]) + [s[k]] + Only(NonNegative, s[..k])
    ensures s[k] >= 0 ==> StablePartition(s[..k + 1]) == StablePartition(s[..k]) + [s[k]]
    ensures Only(Negative, s[..k + 1]) == Only(Negative, s[..k]) + (if s[k] < 0 then [s[k]] else [])
  {
    OnlyNext(Negative, s, k);
    OnlyNext(NonNegative, s, k);
    ConcatAssociates(Only(Negative, s[..k]), Only(NonNegative, s[..k]), [s[k]]);
  }

  lemma ChainInserts(s: seq<int>, k: nat, before: seq<int>, f: nat)
    requires k < |s| && s[k] < 0 && f == |Only(Negative, s[..k])|
    requires before == StablePartition(s[..k]) + s[k..]
    ensures f <= k < |before| && Inserted(before, f, k) == StablePartition(s[..k + 1]) + s[k + 1..]
  {
    var a, b := Only(Negative, s[..k]), Only(NonNegative, s[..k]);
    Complementary(s[..k]);
    PartitionNext(s, k);
    assert s[k..] == [s[k]] + s[k + 1..];
    assert before == a + b + ([s[k]] + s[k + 1..]);
    Parts(a, b, s[k], s[k + 1..]);
  }

  lemma StaysBehind(s: seq<int>, k: nat)
    requires k < |s| && s[k] >= 0
    ensures StablePartition(s[..k + 1]) + s[k + 1..] == StablePartition(s[..k]) + s[k..]
    ensures Only(Negative, s[..k + 1]) == Only(Negative, s[..k])
  {
    PartitionNext(s, k);
    assert s[k..] == [s[k]] + s[k + 1..];
    ConcatAssociates(StablePartition(s[..k]), [s[k]], s[k + 1..]);
  }

  /** Where SortNum2 stands: the first k values are separated, finsh of them negative. */
  ghost predicate Separated(arr: array<int>, len: nat, s: seq<int>, k: nat, finsh: nat)
    reads arr
  {
    && k <= len == |s| && len <= arr.Length && finsh == |Only(Negative, s[..k])| <= k
    && arr[..len] == StablePartition(s[..k]) + s[k..]
  }

  lemma AllSeparatedOff(s: seq<int>)
    ensures StablePartition(s[..|s|]) + s[|s|..] == StablePartition(s)
  {
    assert s[..|s|] == s && StablePartition(s) + [] == StablePartition(s);
  }

  /** One round of SortNum2: a negative value goes behind those found before it. */
  method InsertNext(arr: array<int>, len: nat, start: nat, finsh0: nat, ghost s: seq<int>) returns (finsh: nat)
    requires start < len && Separated(arr, len, s, start, finsh0)
    modifies arr
    ensures Separated(arr, len, s, start + 1, finsh)
    ensures arr[len..] == old(arr[len..])
  {
    finsh := finsh0;
    ghost var before := arr[..len];
    Complementary(s[..start]);
    assert arr[start] == before[start] == s[start];
    PartitionNext(s, start);
    if arr[start] < 0 {
      ChainInserts(s, start, before, finsh);
      InsertedInPrefix(arr[..], len, finsh, start);
      assert arr[..][..len] == before && arr[..][len..] == arr[len..];
      SwapChain(arr, finsh, start);
      assert arr[..len] == arr[..][..len] && arr[len..] == arr[..][len..];
      finsh := finsh + 1;
    } else {
      StaysBehind(s, start);
    }
  }

  /** The loop of SortNum2. */
  method InsertNegatives(arr: array<int>, len: nat)
    requires len <= arr.Length
    modifies arr
    ensures arr[..len] == StablePartition(old(arr[..len])) && arr[len..] == old(arr[len..])
  {
    ghost var s := arr[..len];
    var start, finsh := 0, 0;
    assert s[..0] == [];
    while start < len
      invariant start <= len && Separated(arr, len, s, start, finsh)
      invariant arr[len..] == old(arr[len..])
    {
      finsh := InsertNext(arr, len, start, finsh, s);
      start := start + 1;
    }
    AllSeparatedOff(s);
  }

  method SortNum2(arr: array?<int>, len: int)
    requires arr != null ==> len <= arr.Length
    modifies if arr != null then {arr} else {}
    ensures arr != null && len >= 1 ==>
              arr[..len] == StablePartition(old(arr[..len])) && arr[len..] == old(arr[len..])
    ensures arr != null && len < 1 ==> arr[..] == old(arr[..])
  {
    if arr == null || len < 1 {
      return;
    }
    InsertNegatives(arr, len);
  }

  // ----- the buffer of SortNum3 -----

  /** One round of CopyOnly. */
  method PutIf(c: Class, x: int, temp: array<int>, first: nat) returns (next: nat)
    requires first + |Kept(c, x)| <= temp.Length
    modifies temp
    ensures next == first + |Kept(c, x)|
    ensures temp[..next] == old(temp[..first]) + Kept(c, x)
  {
    next := first;
    if In(c, x) {
      temp[next] := x;
      next := next + 1;
    }
  }

  /** Copies the values of a class from arr to temp, from place first on. */
  method CopyOnly(c: Class, arr: array<int>, len: nat, temp: array<int>, first: nat) returns (next: nat)
    requires len <= arr.Length && arr != temp && first + |Only(c, arr[..len])| <= temp.Length
    modifies temp
    ensures next == first + |Only(c, arr[..len])|
    ensures temp[..next] == old(temp[..first]) + Only(c, arr[..len])
  {
    next := first;
    ghost var s, before := arr[..len], temp[..first];
    for i := 0 to len
      invariant next == first + |Only(c, s[..i])| <= temp.Length
      invariant temp[..next] == before + Only(c, s[..i])
    {
      OnlyNext(c, s, i);
      next := PutIf(c, arr[i], temp, next);
      ConcatAssociates(before, Only(c, s[..i]), Kept(c, s[i]));
    }
    assert s[..len] == s;
  }

  /** The memcpy of temp over the front of arr. */
  method CopyBack(arr: array<int>, temp: array<int>)
    requires temp.Length <= arr.Length && arr != temp
    modifies arr
    ensures arr[..temp.Length] == temp[..] && arr[temp.Length..] == old(arr[temp.Length..])
  {
    forall i | 0 <= i < temp.Length {
      arr[i] := temp[i];
    }
  }

  lemma {:induction false} NoneLeftOut(s: seq<int>)
    requires Only(NonNegative, s) == []
    ensures Only(Negative, s) == s
  {
    OnlyIsNone(NonNegative, s);
    OnlyIsAll(Negative, s);
  }

  lemma AllNegative(s: seq<int>)
    requires |Only(Negative, s)| >= |s|
    ensures StablePartition(s) == s
  {
    Complementary(s);
    NoneLeftOut(s);
  }

  /** The body of SortNum3 behind its guard; an all-negative array is left alone. */
  method CopyThroughBuffer(arr: array<int>, len: nat)
    requires 1 <= len <= arr.Length
    modifies arr
    ensures arr[..len] == StablePartition(old(arr[..len])) && arr[len..] == old(arr[len..])
  {
    var temp := new int[len];
    ghost var s := arr[..len];
    Complementary(s);
    var negaNum := CopyOnly(Negative, arr, len, temp, 0);
    if len - negaNum <= 0 {
      AllNegative(s);
      return;
    }
    assert temp[..negaNum] == Only(Negative, s);
    var all := CopyOnly(NonNegative, arr, len, temp, negaNum);
    assert temp[..] == temp[..all];
    CopyBack(arr, temp);
  }

  method SortNum3(arr: array?<int>, len: int)
    requires arr != null ==> len <= arr.Length
    modifies if arr != null then {arr} else {}
    ensures arr != null && len >= 1 ==>
              arr[..len] == StablePartition(old(arr[..len])) && arr[len..] == old(arr[len..])
    ensures arr != null && len < 1 ==> arr[..] == old(arr[..])
  {
    if arr == null || len < 1 {
      return;
    }
    CopyThroughBuffer(arr, len);
  }

  // ----- the two-pointer version -----

  predicate AtMostOneZero(s: seq<int>) {
    forall i, j :: 0 <= i < j < |s| ==> s[i] != 0 || s[j] != 0
  }

  function Swapped(s: seq<int>, i: nat, j: nat): seq<int>
    requires i < |s| && j < |s|
  {
    s[i := s[j]][j := s[i]]
  }

  /** Below low everything is negative, above hig everything positive. */
  ghost predicate Sifted(s: seq<int>, low: int, hig: int) {
    && 0 <= low <= hig < |s| && AtMostOneZero(s)
    && (forall t :: 0 <= t < low ==> s[t] < 0)
    && forall t :: hig < t < |s| ==> s[t] > 0
  }

  /** Decreases with every round: the pointers approach or a misplaced pair is swapped. */
  ghost function Misplaced(s: seq<int>, low: nat, hig: nat): int
    requires low < |s| && hig < |s|
  {
    3 * (hig - low) + (if s[low] < 0 then 0 else 1) + (if s[hig] > 0 then 0 else 1)
  }

  lemma SiftedIsPartitioned(s: seq<int>, low: nat, hig: nat)
    requires Sifted(s, low, hig) && low >= hig
    ensures Partitioned(s)
  {
  }

  /** The first inner loop: low moves over negative values. */
  method SkipNegative(arr: array<int>, low0: nat, hig: nat) returns (low: nat)
    requires low0 < hig < arr.Length
    ensures low0 <= low <= hig && (low < hig ==> arr[low] >= 0)
    ensures forall t :: low0 <= t < low ==> arr[t] < 0
  {
    low := low0;
    while arr[low] < 0 && low < hig
      invariant low0 <= low <= hig
      invariant forall t :: low0 <= t < low ==> arr[t] < 0
      decreases hig - low
    {
      low := low + 1;
    }
  }

  /** The second inner loop: hig moves over positive values. */
  method SkipPositive(arr: array<int>, low: nat, hig0: nat) returns (hig: nat)
    requires low <= hig0 < arr.Length
    ensures low <= hig <= hig0 && (low < hig ==> arr[hig] <= 0)
    ensures forall t :: hig < t <= hig0 ==> arr[t] > 0
  {
    hig := hig0;
    while arr[hig] > 0 && low < hig
      invariant low <= hig <= hig0
      invariant forall t :: hig < t <= hig0 ==> arr[t] > 0
      decreases hig - low
    {
      hig := hig - 1;
    }
  }

  lemma SwappedKeepsZeros(s: seq<int>, low: nat, hig: nat)
    requires low <= hig < |s| && AtMostOneZero(s)
    ensures AtMostOneZero(Swapped(s, low, hig))
  {
  }

  /** One round: the pointers skip what is in place, then their values are swapped. */
  lemma SiftOn(s: seq<int>, low0: nat, hig0: nat, low: nat, hig: nat)
    requires Sifted(s, low0, hig0) && low0 < hig0 && low0 <= low <= hig <= hig0
    requires forall t :: low0 <= t < low ==> s[t] < 0
    requires forall t :: hig < t <= hig0 ==> s[t] > 0
    requires low < hig0 ==> s[low] >= 0
    requires low < hig ==> s[hig] <= 0
    ensures Sifted(Swapped(s, low, hig), low, hig)
    ensures Misplaced(Swapped(s, low, hig), low, hig) < Misplaced(s, low0, hig0)
  {
    SwappedKeepsZeros(s, low, hig);
  }

  /** One round of SortNum1. */
  method SwapRound(arr: array<int>, len: nat, low0: nat, hig0: nat) returns (low: nat, hig: nat)
    requires len <= arr.Length && Sifted(arr[..len], low0, hig0) && low0 < hig0
    modifies arr
    ensures Sifted(arr[..len], low, hig)
    ensures Misplaced(arr[..len], low, hig) < old(Misplaced(arr[..len], low0, hig0))
    ensures arr[len..] == old(arr[len..]) && multiset(arr[..]) == multiset(old(arr[..]))
  {
    ghost var s := arr[..len];
    low := SkipNegative(arr, low0, hig0);
    hig := SkipPositive(arr, low, hig0);
    SiftOn(s, low0, hig0, low, hig);
    Swap(arr, low, hig);
    assert arr[..len] == Swapped(s, low, hig);
  }

  /** The loop of SortNum1. */
  method SwapFromBothEnds(arr: array<int>, len: nat)
    requires 1 <= len <= arr.Length && AtMostOneZero(arr[..len])
    modifies arr
    ensures Partitioned(arr[..len]) && arr[len..] == old(arr[len..])
    ensures multiset(arr[..]) == multiset(old(arr[..]))
  {
    var low, hig := 0, len - 1;
    while low < hig
      invariant Sifted(arr[..len], low, hig)
      invariant arr[len..] == old(arr[len..])
      invariant multiset(arr[..]) == multiset(old(arr[..]))
      decreases Misplaced(arr[..len], low, hig)
    {
      low, hig := SwapRound(arr, len, low, hig);
    }
    SiftedIsPartitioned(arr[..len], low, hig);
  }

  /** Two pointers from both ends. With two zeros the C++ loop never ends, see
      SortNum1NeverEnds; otherwise it separates the values but not in their order. */
  method SortNum1(arr: array?<int>, len: int)
    requires arr != null ==> len <= arr.Length
    requires arr != null && len >= 1 ==> AtMostOneZero(arr[..len])
    modifies if arr != null then {arr} else {}
    ensures arr != null && len >= 1 ==> Partitioned(arr[..len]) && arr[len..] == old(arr[len..])
    ensures arr != null ==> multiset(arr[..]) == multiset(old(arr[..]))
    ensures arr != null && len < 1 ==> arr[..] == old(arr[..])
  {
    if arr == null || len < 1 {
      return;
    }
    SwapFromBothEnds(arr, len);
  }

  /** The variables of SortNum1. */
  datatype Pointers = Pointers(s: seq<int>, low: nat, hig: nat)

  /** One elementary step of SortNum1: a pointer moves, or two values are swapped. */
  ghost predicate PointerStep(p: Pointers, q: Pointers) {
    && p.low < |p.s| && p.hig < |p.s|
    && (|| (p.s[p.low] < 0 && p.low < p.hig && q == p.(low := p.low + 1))
        || (p.s[p.hig] > 0 && p.low < p.hig && q == p.(hig := p.hig - 1))
        || q == p.(s := Swapped(p.s, p.low, p.hig)))
  }

  /** Two zeros stand between the pointers. */
  ghost predicate ZerosBetween(p: Pointers) {
    p.hig < |p.s| && exists i, j :: p.low <= i < j <= p.hig && p.s[i] == 0 && p.s[j] == 0
  }

  lemma ZerosStayBetween(p: Pointers, q: Pointers)
    requires PointerStep(p, q) && ZerosBetween(p)
    ensures ZerosBetween(q)
  {
    var i, j :| p.low <= i < j <= p.hig && p.s[i] == 0 && p.s[j] == 0;
    if q.s == p.s {
      assert q.low <= i < j <= q.hig && q.s[i] == 0 && q.s[j] == 0;
    } else {
      var i' := if i == p.low then p.hig else i;
      var j' := if j == p.hig then p.low else j;
      assert q.s[i'] == 0 && q.s[j'] == 0;
      if i' < j' {
        assert q.low <= i' < j' <= q.hig;
      } else {
        assert q.low <= j' < i' <= q.hig;
      }
    }
  }

  /** From such a state a step is always possible. */
  lemma StepsGoOn(p: Pointers)
    requires ZerosBetween(p)
    ensures exists q :: PointerStep(p, q)
  {
    assert PointerStep(p, p.(s := Swapped(p.s, p.low, p.hig)));
  }

  /** On [0, 0] the two zeros are swapped for ever: the only step leads back. */
  lemma TwoZerosSpin(q: Pointers)
    ensures var p := Pointers([0, 0], 0, 1); p.low < p.hig && (PointerStep(p, q) <==> q == p)
  {
    assert Swapped([0, 0], 0, 1) == [0, 0];
  }

  /** On an array with two zeros the pointers never meet, however long the run: the
      loop condition holds in every state that SortNum1 reaches. */
  lemma {:induction false} SortNum1NeverEnds(run: seq<Pointers>, k: nat)
    requires k < |run| && run[0].low == 0 && run[0].hig == |run[0].s| - 1
    requires !AtMostOneZero(run[0].s)
    requires forall t :: 0 <= t < |run| - 1 ==> PointerStep(run[t], run[t + 1])
    ensures ZerosBetween(run[k]) && run[k].low < run[k].hig
  {
    if k > 0 {
      SortNum1NeverEnds(run, k - 1);
      ZerosStayBetween(run[k - 1], run[k]);
    } else {
      var i, j :| 0 <= i < j < |run[0].s| && run[0].s[i] == 0 && run[0].s[j] == 0;
      assert run[0].low <= i < j <= run[0].hig;
    }
  }

  // ----- SortNum against the other two -----

  lemma RotationPermutes(a: seq<int>, b: seq<int>, k: nat)
    requires k <= |b|
    ensures multiset(a + b[k..] + b[..k]) == multiset(a + b)
    ensures a <= a + b[k..] + b[..k] && a <= a + b
  {
    assert b == b[..k] + b[k..];
    assert a + b[k..] + b[..k] == a + (b[k..] + b[..k]);
    assert multiset(b[k..] + b[..k]) == multiset(b[..k] + b[k..]);
  }

  /** SortNum2 and SortNum3 agree on every array, and with SortNum in front of the first
      value that is not negative. */
  lemma StablePartitionRefinesRotated(s: seq<int>)
    requires ZeroFree(s)
    ensures multiset(Rotated(s)) == multiset(StablePartition(s))
    ensures Only(Negative, s) <= Rotated(s) && Only(Negative, s) <= StablePartition(s)
  {
    RotatedOnZeroFree(s);
    var k := |Only(Positive, s[..Stop(s)])|;
    RotationPermutes(Only(Negative, s), Only(NonNegative, s), k);
  }
}

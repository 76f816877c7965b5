/** Binary trees as values, their traversals and their levels. */
module Trees {
  import opened Sequences

  datatype Tree<T> = Empty | Fork(value: T, left: Tree<T>, right: Tree<T>)

  function Pre<T>(t: Tree<T>): seq<T> {
    match t
    case Empty => []
    case Fork(v, l, r) => [v] + Pre(l) + Pre(r)
  }

  function Mid<T>(t: Tree<T>): seq<T> {
    match t
    case Empty => []
    case Fork(v, l, r) => Mid(l) + [v] + Mid(r)
  }

  function Post<T>(t: Tree<T>): seq<T> {
    match t
    case Empty => []
    case Fork(v, l, r) => Post(l) + Post(r) + [v]
  }

  /** Right subtree first: the inorder sequence from its far end. */
  function ReverseMid<T>(t: Tree<T>): seq<T> {
    match t
    case Empty => []
    case Fork(v, l, r) => ReverseMid(r) + [v] + ReverseMid(l)
  }

  function Size<T>(t: Tree<T>): nat {
    match t
    case Empty => 0
    case Fork(_, l, r) => 1 + Size(l) + Size(r)
  }

  /** The elements at distance d below the root, from left to right. */
  function Level<T>(t: Tree<T>, d: nat): seq<T> {
    match t
    case Empty => []
    case Fork(v, l, r) => if d == 0 then [v] else Level(l, d - 1) + Level(r, d - 1)
  }

  /** The length of the longest path down from the root. */
  function Depth<T>(t: Tree<T>): nat {
    match t
    case Empty => 0
    case Fork(_, l, r) => 1 + (if Depth(l) > Depth(r) then Depth(l) else Depth(r))
  }

  /** The depth is the number of levels that hold any element. */
  lemma {:induction false} LevelIffDepth<T>(t: Tree<T>, d: nat)
    ensures Level(t, d) != [] <==> d < Depth(t)
  {
    if t.Empty? {
    } else if d > 0 {
      LevelIffDepth(t.left, d - 1);
      LevelIffDepth(t.right, d - 1);
    }
  }

  lemma LevelsByDepth<T>(t: Tree<T>)
    ensures forall d: nat :: Level(t, d) != [] <==> d < Depth(t)
  {
    forall d: nat
      ensures Level(t, d) != [] <==> d < Depth(t)
    {
      LevelIffDepth(t, d);
    }
  }

  ghost function Elements<T>(t: Tree<T>): set<T> {
    match t
    case Empty => {}
    case Fork(v, l, r) => {v} + Elements(l) + Elements(r)
  }

  /** No element stands at two places of the tree. */
  ghost predicate Distinct<T>(t: Tree<T>) {
    match t
    case Empty => true
    case Fork(v, l, r) =>
      && Distinct(l) && Distinct(r)
      && v !in Elements(l) && v !in Elements(r) && Elements(l) !! Elements(r)
  }

  lemma NoRepeatsAppend<T>(a: seq<T>, b: seq<T>)
    requires NoRepeats(a) && NoRepeats(b)
    requires forall i, j :: 0 <= i < |a| && 0 <= j < |b| ==> a[i] != b[j]
    ensures NoRepeats(a + b)
  {
    var s := a + b;
    forall i, j | 0 <= i < j < |s|
      ensures s[i] != s[j]
    {
      if i < |a| <= j {
        assert s[i] == a[i] && s[j] == b[j - |a|];
      }
    }
  }

  lemma SameTwice<T>(b: seq<T>, i: nat, j: nat)
    requires i < j < |b| && b[i] == b[j]
    ensures multiset(b)[b[i]] >= 2
  {
    assert b == b[..j] + [b[j]] + b[j + 1..];
    assert multiset(b) == multiset(b[..j]) + multiset{b[j]} + multiset(b[j + 1..]);
    assert b[..j][i] in multiset(b[..j]);
  }

  lemma {:induction false} OnceOnly<T>(a: seq<T>, x: T)
    requires NoRepeats(a)
    ensures multiset(a)[x] <= 1
  {
    if a == [] {
    } else {
      assert a == [a[0]] + a[1..];
      OnceOnly(a[1..], x);
      if x == a[0] {
        assert x !in a[1..];
      }
    }
  }

  /** Rearranging a sequence brings in no repeats. */
  lemma NoRepeatsPermutes<T>(a: seq<T>, b: seq<T>)
    requires NoRepeats(a) && multiset(a) == multiset(b)
    ensures NoRepeats(b)
  {
    forall i, j | 0 <= i < j < |b|
      ensures b[i] != b[j]
    {
      if b[i] == b[j] {
        SameTwice(b, i, j);
        OnceOnly(a, b[i]);
      }
    }
  }

  lemma {:induction false} PostLists<T>(t: Tree<T>)
    ensures |Post(t)| == Size(t)
    ensures forall i :: 0 <= i < |Post(t)| ==> Post(t)[i] in Elements(t)
    ensures Distinct(t) ==> NoRepeats(Post(t))
  {
    if t.Empty? {
    } else {
      PostLists(t.left);
      PostLists(t.right);
      if Distinct(t) {
        forall i, j | 0 <= i < |Post(t.left)| && 0 <= j < |Post(t.right)|
          ensures Post(t.left)[i] != Post(t.right)[j]
        {
          assert Post(t.left)[i] in Elements(t.left) && Post(t.right)[j] in Elements(t.right);
        }
        NoRepeatsAppend(Post(t.left), Post(t.right));
        NoRepeatsAppend(Post(t.left) + Post(t.right), [t.value]);
      }
    }
  }

  lemma {:induction false} TraversalsListEach<T>(t: Tree<T>, x: T)
    ensures Count(x, Pre(t)) == Count(x, Mid(t)) == Count(x, Post(t))
  {
    if t.Empty? {
    } else {
      TraversalsListEach(t.left, x);
      TraversalsListEach(t.right, x);
      CountAppendThree(x, [t.value], Pre(t.left), Pre(t.right));
      CountAppendThree(x, Mid(t.left), [t.value], Mid(t.right));
      CountAppendThree(x, Post(t.left), Post(t.right), [t.value]);
    }
  }

  lemma TraversalsPermute<T>(t: Tree<T>)
    ensures multiset(Pre(t)) == multiset(Post(t)) == multiset(Mid(t))
  {
    forall x: T
      ensures Count(x, Pre(t)) == Count(x, Mid(t)) && Count(x, Pre(t)) == Count(x, Post(t))
    {
      TraversalsListEach(t, x);
    }
    SameCounts(Pre(t), Mid(t));
    SameCounts(Pre(t), Post(t));
  }

  lemma {:induction false} ReverseMidIsMidReversed<T>(t: Tree<T>)
    ensures |ReverseMid(t)| == |Mid(t)| == Size(t)
    ensures forall k :: 0 <= k < Size(t) ==> ReverseMid(t)[k] == Mid(t)[Size(t) - 1 - k]
  {
    if t.Empty? {
    } else {
      ReverseMidIsMidReversed(t.left);
      ReverseMidIsMidReversed(t.right);
    }
  }

  // ----- levels -----

  /** Levels 0 to n - 1, one after the other. */
  function Levels<T>(t: Tree<T>, n: nat): seq<T> {
    if n == 0 then [] else Levels(t, n - 1) + Level(t, n - 1)
  }

  lemma {:induction false} NoLevels<T>(t: Tree<T>, n: nat)
    requires t.Empty?
    ensures Levels(t, n) == []
  {
    if n == 0 {
    } else {
      NoLevels(t, n - 1);
    }
  }

  lemma FirstLevels<T>(t: Tree<T>)
    requires t.Fork?
    ensures Levels(t, 1) == [t.value]
  {
    assert Levels(t, 1) == [] + [t.value];
  }

  lemma CountBySide<T>(x: T, v: T, all: seq<T>, l: seq<T>, r: seq<T>, l': seq<T>, r': seq<T>)
    requires Count(x, all) == Count(x, [v]) + Count(x, l) + Count(x, r)
    ensures Count(x, all + (l' + r')) == Count(x, [v]) + Count(x, l + l') + Count(x, r + r')
  {
    CountAppend(x, all, l' + r');
    CountAppend(x, l', r');
    CountAppend(x, l, l');
    CountAppend(x, r, r');
  }

  /** One level more of a tree is one more of each of its subtrees. */
  lemma {:induction false} LevelsOfFork<T>(t: Tree<T>, n: nat, x: T)
    requires t.Fork?
    ensures Count(x, Levels(t, n + 1)) ==
            Count(x, [t.value]) + Count(x, Levels(t.left, n)) + Count(x, Levels(t.right, n))
  {
    if n == 0 {
      FirstLevels(t);
    } else {
      LevelsOfFork(t, n - 1, x);
      CountBySide(x, t.value, Levels(t, n), Levels(t.left, n - 1), Levels(t.right, n - 1),
                  Level(t.left, n - 1), Level(t.right, n - 1));
    }
  }

  /** The first n levels hold x as often as the tree does. */
  ghost predicate ListsEach<T>(t: Tree<T>, n: nat, x: T) {
    Count(x, Levels(t, n)) == Count(x, Pre(t))
  }

  lemma NoLevelsListEach<T>(t: Tree<T>, n: nat, x: T)
    requires t.Empty?
    ensures ListsEach(t, n, x)
  {
    NoLevels(t, n);
  }

  lemma ForkListsEach<T>(t: Tree<T>, n: nat, x: T)
    requires t.Fork? && ListsEach(t.left, n, x) && ListsEach(t.right, n, x)
    ensures ListsEach(t, n + 1, x)
  {
    LevelsOfFork(t, n, x);
    CountAppendThree(x, [t.value], Pre(t.left), Pre(t.right));
  }

  lemma {:induction false} LevelsListEach<T>(t: Tree<T>, n: nat, x: T)
    requires n >= Depth(t)
    ensures ListsEach(t, n, x)
    decreases n
  {
    if t.Empty? {
      NoLevelsListEach(t, n, x);
    } else {
      var m := n - 1;
      LevelsListEach(t.left, m, x);
      LevelsListEach(t.right, m, x);
      ForkListsEach(t, m, x);
    }
  }

  /** The levels hold every element as often as the tree does. */
  lemma LevelsListAll<T>(t: Tree<T>, n: nat)
    requires n >= Depth(t)
    ensures multiset(Levels(t, n)) == multiset(Pre(t))
  {
    forall x: T
      ensures Count(x, Levels(t, n)) == Count(x, Pre(t))
    {
      LevelsListEach(t, n, x);
    }
    SameCounts(Levels(t, n), Pre(t));
  }

  lemma InTheMiddle<T>(a: seq<T>, a': seq<T>, b: seq<T>, b': seq<T>, c: seq<T>, c': seq<T>)
    requires Subsequence(a, a') && Subsequence(b, b') && Subsequence(c, c')
    ensures Subsequence(a + b + c, a' + b' + c')
    ensures b == [] ==> a + b + c == a + c
    ensures a == [] && c == [] ==> a + b + c == b
  {
    SubsequenceAppend(a, a', b, b');
    SubsequenceAppend(a + b, a' + b', c, c');
  }

  /** A level lists its elements from left to right: in the order of the inorder sequence. */
  lemma {:induction false} LevelFollowsMid<T>(t: Tree<T>, d: nat)
    ensures Subsequence(Level(t, d), Mid(t))
  {
    match t
    case Empty => NothingIsSubsequence(Mid(t));
    case Fork(v, l, r) =>
      if d == 0 {
        NothingIsSubsequence(Mid(l));
        NothingIsSubsequence(Mid(r));
        AllIsSubsequence([v]);
        InTheMiddle([], Mid(l), [v], [v], [], Mid(r));
      } else {
        LevelFollowsMid(l, d - 1);
        LevelFollowsMid(r, d - 1);
        NothingIsSubsequence([v]);
        InTheMiddle(Level(l, d - 1), Mid(l), [], [v], Level(r, d - 1), Mid(r));
      }
  }

  /** So, in a tree without repeats, of two elements of a level the left one comes first. */
  lemma LevelFromLeft<T>(t: Tree<T>, d: nat, i: nat, j: nat)
    requires i < j < |Level(t, d)|
    ensures exists k, m :: 0 <= k < m < |Mid(t)| && Mid(t)[k] == Level(t, d)[i] && Mid(t)[m] == Level(t, d)[j]
  {
    LevelFollowsMid(t, d);
    var places: seq<nat> :| Picks(places, Level(t, d), Mid(t));
    assert places[i] < places[j];
    assert Mid(t)[places[i]] == Level(t, d)[i] && Mid(t)[places[j]] == Level(t, d)[j];
  }

  /** Upper levels come before lower ones, the root first. */
  lemma {:induction false} LevelsFromTop<T>(t: Tree<T>, m: nat, n: nat)
    requires m <= n
    ensures Levels(t, m) <= Levels(t, n)
    ensures t.Fork? && n > 0 ==> Levels(t, n) != [] && Levels(t, n)[0] == t.value
  {
    if n == 0 {
    } else if m == n {
      if n == 1 && t.Fork? {
        FirstLevels(t);
      } else {
        LevelsFromTop(t, n - 1, n - 1);
      }
    } else {
      LevelsFromTop(t, m, n - 1);
      if n == 1 && t.Fork? {
        FirstLevels(t);
      }
    }
  }

  lemma OrdersOfOne<T>(x: T)
    ensures var t := Fork(x, Empty, Empty);
      Pre(t) == [x] && Mid(t) == [x] && Post(t) == [x] && Level(t, 0) == [x]
  {
  }

  /** All orders on a root with a left and a right child. */
  lemma OrdersOfThree<T>(root: T, left: T, right: T)
    ensures var t := Fork(root, Fork(left, Empty, Empty), Fork(right, Empty, Empty));
      && Pre(t) == [root, left, right] && Mid(t) == [left, root, right] && Post(t) == [left, right, root]
      && Level(t, 0) == [root] && Level(t, 1) == [left, right]
  {
    var t := Fork(root, Fork(left, Empty, Empty), Fork(right, Empty, Empty));
    OrdersOfOne(left);
    OrdersOfOne(right);
    assert Pre(t) == [root] + [left] + [right];
    assert Mid(t) == [left] + [root] + [right];
    assert Post(t) == [left] + [right] + [root];
    assert Level(t, 1) == [left] + [right];
  }

  // ----- breadth first -----

  /** The trees a node puts into the queue: its non-empty children. */
  function Children<T>(t: Tree<T>): seq<Tree<T>> {
    if t.Empty? then []
    else (if t.left.Fork? then [t.left] else []) + (if t.right.Fork? then [t.right] else [])
  }

  function TotalSize<T>(q: seq<Tree<T>>): nat {
    if q == [] then 0 else Size(q[0]) + TotalSize(q[1..])
  }

  lemma {:induction false} TotalSizeAppend<T>(p: seq<Tree<T>>, q: seq<Tree<T>>)
    ensures TotalSize(p + q) == TotalSize(p) + TotalSize(q)
  {
    if p == [] {
      assert p + q == q;
    } else {
      assert (p + q)[1..] == p[1..] + q;
      TotalSizeAppend(p[1..], q);
    }
  }

  lemma TotalSizeOfOne<T>(t: Tree<T>)
    ensures TotalSize([t]) == Size(t)
  {
    assert [t][1..] == [];
  }

  lemma QueueShrinks<T>(q: seq<Tree<T>>)
    requires q != [] && q[0].Fork?
    ensures TotalSize(q[1..] + Children(q[0])) < TotalSize(q)
  {
    var t := q[0];
    TotalSizeOfOne(t.left);
    TotalSizeOfOne(t.right);
    TotalSizeAppend(if t.left.Fork? then [t.left] else [], if t.right.Fork? then [t.right] else []);
    TotalSizeAppend(q[1..], Children(t));
  }

  /** What a queue of trees emits when its front is emitted and its children queued. */
  function BreadthFirst<T>(q: seq<Tree<T>>): seq<T>
    decreases TotalSize(q), |q|
  {
    if q == [] then []
    else if q[0].Empty? then BreadthFirst(q[1..])
    else
      QueueShrinks(q);
      [q[0].value] + BreadthFirst(q[1..] + Children(q[0]))
  }

  function Roots<T>(q: seq<Tree<T>>): seq<T> {
    if q == [] then [] else (if q[0].Empty? then [] else [q[0].value]) + Roots(q[1..])
  }

  function AllChildren<T>(q: seq<Tree<T>>): seq<Tree<T>> {
    if q == [] then [] else Children(q[0]) + AllChildren(q[1..])
  }

  /** A queue p + q first emits the roots of p, and by then has queued their children. */
  lemma {:induction false} BreadthFirstRound<T>(p: seq<Tree<T>>, q: seq<Tree<T>>)
    ensures BreadthFirst(p + q) == Roots(p) + BreadthFirst(q + AllChildren(p))
    decreases |p|
  {
    if p == [] {
      assert p + q == q && q + [] == q;
    } else {
      var q' := q + Children(p[0]);
      assert (p + q)[0] == p[0] && (p + q)[1..] == p[1..] + q;
      BreadthFirstRound(p[1..], q');
      ConcatAssociates(p[1..], q, Children(p[0]));
      ConcatAssociates(q, Children(p[0]), AllChildren(p[1..]));
      if p[0].Empty? {
        assert q' == q;
        assert Roots(p) == Roots(p[1..]);
      } else {
        ConcatAssociates([p[0].value], Roots(p[1..]), BreadthFirst(q + AllChildren(p)));
      }
    }
  }

  function ForestLevel<T>(q: seq<Tree<T>>, d: nat): seq<T> {
    if q == [] then [] else Level(q[0], d) + ForestLevel(q[1..], d)
  }

  function ForestLevels<T>(q: seq<Tree<T>>, d: nat, n: nat): seq<T>
    decreases n
  {
    if n == 0 then [] else ForestLevel(q, d) + ForestLevels(q, d + 1, n - 1)
  }

  lemma {:induction false} ForestLevelAppend<T>(p: seq<Tree<T>>, q: seq<Tree<T>>, d: nat)
    ensures ForestLevel(p + q, d) == ForestLevel(p, d) + ForestLevel(q, d)
  {
    if p == [] {
      assert p + q == q;
    } else {
      assert (p + q)[1..] == p[1..] + q;
      ForestLevelAppend(p[1..], q, d);
      ConcatAssociates(Level(p[0], d), ForestLevel(p[1..], d), ForestLevel(q, d));
    }
  }

  lemma ForestLevelOfOne<T>(t: Tree<T>, d: nat)
    ensures ForestLevel([t], d) == Level(t, d)
  {
    assert [t][1..] == [];
  }

  lemma LevelIsChildrensLevel<T>(t: Tree<T>, d: nat)
    ensures Level(t, d + 1) == ForestLevel(Children(t), d)
  {
    if t.Fork? {
      ForestLevelOfOne(t.left, d);
      ForestLevelOfOne(t.right, d);
      ForestLevelAppend(if t.left.Fork? then [t.left] else [], if t.right.Fork? then [t.right] else [], d);
    }
  }

  lemma {:induction false} ForestLevelDescends<T>(q: seq<Tree<T>>, d: nat)
    ensures ForestLevel(q, d + 1) == ForestLevel(AllChildren(q), d)
    ensures ForestLevel(q, 0) == Roots(q)
  {
    if q == [] {
    } else {
      LevelIsChildrensLevel(q[0], d);
      ForestLevelAppend(Children(q[0]), AllChildren(q[1..]), d);
      ForestLevelDescends(q[1..], d);
    }
  }

  lemma {:induction false} ForestLevelsDescend<T>(q: seq<Tree<T>>, d: nat, n: nat)
    ensures ForestLevels(q, d + 1, n) == ForestLevels(AllChildren(q), d, n)
    decreases n
  {
    if n == 0 {
    } else {
      ForestLevelDescends(q, d);
      ForestLevelsDescend(q, d + 1, n - 1);
    }
  }

  predicate NoDeeper<T>(q: seq<Tree<T>>, n: nat) {
    forall i :: 0 <= i < |q| ==> Depth(q[i]) <= n
  }

  lemma {:induction false} EmptyForest<T>(q: seq<Tree<T>>)
    requires NoDeeper(q, 0)
    ensures BreadthFirst(q) == []
  {
    if q == [] {
    } else {
      assert Depth(q[0]) == 0;
      EmptyForest(q[1..]);
    }
  }

  lemma {:induction false} ChildrenAreShallower<T>(q: seq<Tree<T>>, n: nat)
    requires NoDeeper(q, n + 1)
    ensures NoDeeper(AllChildren(q), n)
  {
    if q == [] {
    } else {
      assert Depth(q[0]) <= n + 1;
      assert NoDeeper(Children(q[0]), n);
      ChildrenAreShallower(q[1..], n);
    }
  }

  lemma {:induction false} BreadthFirstIsByLevel<T>(q: seq<Tree<T>>, n: nat)
    requires NoDeeper(q, n)
    ensures BreadthFirst(q) == ForestLevels(q, 0, n)
    decreases n
  {
    if n == 0 {
      EmptyForest(q);
    } else {
      var next := AllChildren(q);
      BreadthFirstRound(q, []);
      assert q + [] == q && [] + next == next;
      ChildrenAreShallower(q, n - 1);
      BreadthFirstIsByLevel(next, n - 1);
      ForestLevelDescends(q, 0);
      ForestLevelsDescend(q, 0, n - 1);
    }
  }

  lemma {:induction false} ForestOfOne<T>(t: Tree<T>, d: nat, n: nat)
    ensures Levels(t, d) + ForestLevels([t], d, n) == Levels(t, d + n)
    decreases n
  {
    if n == 0 {
    } else {
      ForestLevelOfOne(t, d);
      ForestOfOne(t, d + 1, n - 1);
      ConcatAssociates(Levels(t, d), Level(t, d), ForestLevels([t], d + 1, n - 1));
    }
  }

  lemma OneTreeNoDeeper<T>(t: Tree<T>)
    ensures NoDeeper([t], Depth(t))
  {
  }

  lemma EmptyInFront<T>(a: seq<T>, b: seq<T>)
    requires a == []
    ensures a + b == b
  {
  }

  lemma OneTreeByLevel<T>(t: Tree<T>, n: nat)
    ensures ForestLevels([t], 0, n) == Levels(t, n)
  {
    ForestOfOne(t, 0, n);
    EmptyInFront(Levels(t, 0), ForestLevels([t], 0, n));
  }

  /** Breadth-first order is the tree's levels one after the other, from top to
      bottom and left to right. */
  lemma BreadthFirstListsLevels<T>(t: Tree<T>)
    ensures BreadthFirst([t]) == Levels(t, Depth(t))
  {
    OneTreeNoDeeper(t);
    BreadthFirstIsByLevel([t], Depth(t));
    OneTreeByLevel(t, Depth(t));
  }

  // ----- search trees -----

  predicate AllAtMost(s: string, c: char) {
    forall i :: 0 <= i < |s| ==> s[i] <= c
  }

  predicate AllAtLeast(s: string, c: char) {
    forall i :: 0 <= i < |s| ==> c <= s[i]
  }

  /** A search tree, in which equal keys may stand on either side. */
  predicate SearchTree(t: Tree<char>) {
    t.Fork? ==>
      && SearchTree(t.left) && SearchTree(t.right)
      && AllAtMost(Pre(t.left), t.value) && AllAtLeast(Pre(t.right), t.value)
  }

  predicate Ascending(s: string) {
    forall i, j :: 0 <= i < j < |s| ==> s[i] <= s[j]
  }

  lemma SameMembers(t: Tree<char>)
    ensures forall c :: c in Pre(t) <==> c in Mid(t)
  {
    TraversalsPermute(t);
    assert forall c :: c in Pre(t) <==> c in multiset(Pre(t));
    assert forall c :: c in Mid(t) <==> c in multiset(Mid(t));
  }

  lemma AscendingAround(a: string, c: char, b: string)
    ensures Ascending(a + [c] + b) <==>
            Ascending(a) && Ascending(b) && AllAtMost(a, c) && AllAtLeast(b, c)
  {
    var s := a + [c] + b;
    assert forall i :: 0 <= i < |a| ==> a[i] == s[i];
    assert s[|a|] == c;
    assert forall i :: 0 <= i < |b| ==> b[i] == s[|a| + 1 + i];
    if Ascending(a) && Ascending(b) && AllAtMost(a, c) && AllAtLeast(b, c) {
      forall i, j | 0 <= i < j < |s|
        ensures s[i] <= s[j]
      {
        if j < |a| {
        } else if i > |a| {
          assert s[i] == b[i - |a| - 1] && s[j] == b[j - |a| - 1];
        }
      }
    }
  }

  /** Search trees are exactly the trees with ascending inorder sequence. */
  lemma {:induction false} SearchTreeIffAscending(t: Tree<char>)
    ensures SearchTree(t) <==> Ascending(Mid(t))
  {
    if t.Empty? {
    } else {
      SearchTreeIffAscending(t.left);
      SearchTreeIffAscending(t.right);
      AscendingAround(Mid(t.left), t.value, Mid(t.right));
      SameMembers(t.left);
      SameMembers(t.right);
      assert AllAtMost(Pre(t.left), t.value) <==> AllAtMost(Mid(t.left), t.value) by {
        assert forall i :: 0 <= i < |Pre(t.left)| ==> Pre(t.left)[i] in Mid(t.left);
        assert forall i :: 0 <= i < |Mid(t.left)| ==> Mid(t.left)[i] in Pre(t.left);
      }
      assert AllAtLeast(Pre(t.right), t.value) <==> AllAtLeast(Mid(t.right), t.value) by {
        assert forall i :: 0 <= i < |Pre(t.right)| ==> Pre(t.right)[i] in Mid(t.right);
        assert forall i :: 0 <= i < |Mid(t.right)| ==> Mid(t.right)[i] in Pre(t.right);
      }
    }
  }

  function CountAbove(s: string, c: char): nat {
    if s == "" then 0 else CountAbove(s[1..], c) + (if s[0] > c then 1 else 0)
  }

  function CountBelow(s: string, c: char): nat {
    if s == "" then 0 else CountBelow(s[1..], c) + (if s[0] < c then 1 else 0)
  }

  /** c would stand k-th if s were put in descending order. */
  predicate IsKthLargest(s: string, k: int, c: char) {
    CountAbove(s, c) < k <= |s| - CountBelow(s, c)
  }

  lemma {:induction false} NoneBelow(s: string, c: char)
    requires AllAtLeast(s, c)
    ensures CountBelow(s, c) == 0
  {
    if s == "" {
    } else {
      assert c <= s[0];
      NoneBelow(s[1..], c);
    }
  }

  lemma {:induction false} AboveAtMostLength(s: string, c: char)
    ensures CountAbove(s, c) <= |s|
  {
    if s == "" {
    } else {
      AboveAtMostLength(s[1..], c);
    }
  }

  lemma {:induction false} CountsInAscending(s: string, i: nat)
    requires Ascending(s) && i < |s|
    ensures CountAbove(s, s[i]) <= |s| - 1 - i && CountBelow(s, s[i]) <= i
  {
    if i == 0 {
      NoneBelow(s, s[0]);
      AboveAtMostLength(s[1..], s[0]);
    } else {
      CountsInAscending(s[1..], i - 1);
    }
  }

  lemma {:induction false} CountsOfAppend(a: string, b: string, c: char)
    ensures CountAbove(a + b, c) == CountAbove(a, c) + CountAbove(b, c)
    ensures CountBelow(a + b, c) == CountBelow(a, c) + CountBelow(b, c)
  {
    if a == "" {
      assert a + b == b;
    } else {
      assert (a + b)[1..] == a[1..] + b;
      CountsOfAppend(a[1..], b, c);
    }
  }

  lemma {:induction false} CountsOfMid(t: Tree<char>, c: char)
    ensures CountAbove(Mid(t), c) == CountAbove(Pre(t), c)
    ensures CountBelow(Mid(t), c) == CountBelow(Pre(t), c)
    ensures |Pre(t)| == |Mid(t)|
  {
    if t.Empty? {
    } else {
      CountsOfMid(t.left, c);
      CountsOfMid(t.right, c);
      CountsOfAppend(Mid(t.left) + [t.value], Mid(t.right), c);
      CountsOfAppend(Mid(t.left), [t.value], c);
      CountsOfAppend([t.value] + Pre(t.left), Pre(t.right), c);
      CountsOfAppend([t.value], Pre(t.left), c);
    }
  }

  lemma KthOfAscending(s: string, k: nat)
    requires Ascending(s) && 1 <= k <= |s|
    ensures IsKthLargest(s, k, s[|s| - k])
  {
    CountsInAscending(s, |s| - k);
  }

  lemma KthOfReverseMid(t: Tree<char>, k: nat)
    requires Ascending(Mid(t)) && 1 <= k <= Size(t)
    ensures |ReverseMid(t)| == Size(t) && IsKthLargest(Pre(t), k, ReverseMid(t)[k - 1])
  {
    ReverseMidIsMidReversed(t);
    KthOfAscending(Mid(t), k);
    CountsOfMid(t, Mid(t)[Size(t) - k]);
  }

  /** In a search tree, reverse inorder is by rank: its k-th element is k-th largest. */
  lemma KthLargestOfSearchTree(t: Tree<char>, k: nat)
    requires SearchTree(t) && 1 <= k <= Size(t)
    ensures |ReverseMid(t)| == Size(t) && IsKthLargest(Pre(t), k, ReverseMid(t)[k - 1])
  {
    SearchTreeIffAscending(t);
    KthOfReverseMid(t, k);
  }
}

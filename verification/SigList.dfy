/** The singly linked list: in-place reversal, removal of repeated values, removal
    from the end, and cycle detection. */
module SigList {
  import opened Laps
  import opened Runs
  import opened Sequences

  /** A list node. The accessors can be used on nodes that were not deleted only. */
  class DataStruct<T> {
    var data: T
    var next: DataStruct?<T>
    ghost var live: bool

    constructor (data: T, next: DataStruct?<T>)
      ensures live && this.data == data && this.next == next
    {
      this.data := data;
      this.next := next;
      live := true;
    }

    function Data(): T
      requires live
      reads this
    {
      data
    }

    function Next(): DataStruct?<T>
      requires live
      reads this
    {
      next
    }

    method SetNext(n: DataStruct?<T>)
      requires live
      modifies this`next
      ensures next == n
    {
      next := n;
    }

    /** The C++ delete: allowed once, and no access is allowed after it. */
    method Delete()
      requires live
      modifies this`live
      ensures !live
    {
      live := false;
    }
  }

  type Nodes<T> = seq<DataStruct<T>>

  /** The node at position i, or end when i is past the last. */
  ghost function NodeAt<T>(s: Nodes<T>, i: nat, end: DataStruct?<T>): DataStruct?<T> {
    if i < |s| then s[i] else end
  }

  /** Distinct live nodes, each linked to the next and the last to end. */
  ghost predicate Chain<T>(s: Nodes<T>, end: DataStruct?<T>)
    reads s
  {
    && NoRepeats(s)
    && forall i {:trigger s[i].live} {:trigger s[i].next} :: 0 <= i < |s| ==>
         s[i].live && s[i].next == NodeAt(s, i + 1, end)
  }

  // ----- turning links around -----

  /** The first i links point backwards, the others still forwards. */
  ghost predicate HalfReversed<T>(s: Nodes<T>, i: nat)
    reads s
  {
    && 1 <= i <= |s| && NoRepeats(s)
    && (forall j :: 0 <= j < |s| ==> s[j].live)
    && (forall j {:trigger s[j].next} :: 0 <= j < i ==> s[j].next == if j == 0 then null else s[j - 1])
    && (forall j {:trigger s[j].next} :: i <= j < |s| ==> s[j].next == NodeAt(s, j + 1, null))
  }

  lemma TurnedChain<T>(s: Nodes<T>, r: Nodes<T>)
    requires HalfReversed(s, |s|) && |r| == |s| && forall i :: 0 <= i < |r| ==> r[i] == s[|s| - 1 - i]
    ensures Chain(r, null)
  {
    forall i | 0 <= i < |r|
      ensures r[i].live && r[i].next == NodeAt(r, i + 1, null)
    {
      assert r[i] == s[|s| - 1 - i];
    }
  }

  /** Links turned around make a chain of the reversed sequence. */
  lemma ReversedChain<T>(s: Nodes<T>)
    requires HalfReversed(s, |s|)
    ensures Chain(Reverse(s), null)
  {
    ReverseByPosition(s);
    TurnedChain(s, Reverse(s));
  }

  lemma ShortIsReversed<T>(s: Nodes<T>)
    requires Chain(s, null) && (s == [] || s[0].next == null)
    ensures Reverse(s) == s
  {
  }

  // ----- two pointers, one twice as fast -----

  /** One link followed from the node k steps from the start. */
  lemma Follow<T>(s: Nodes<T>, m: nat, k: nat)
    requires m <= |s| && Chain(s, NodeAt(s, m, null)) && Walk(|s|, m, k) < |s|
    ensures s[Walk(|s|, m, k)].live
    ensures s[Walk(|s|, m, k)].next == NodeAt(s, Walk(|s|, m, k + 1), null)
  {
    WalkStep(|s|, m, k);
  }

  lemma FollowTwice<T>(s: Nodes<T>, m: nat, k: nat)
    requires m <= |s| && Chain(s, NodeAt(s, m, null)) && Walk(|s|, m, k) < |s|
    requires s[Walk(|s|, m, k)].next != null
    ensures s[Walk(|s|, m, k)].next.live
    ensures s[Walk(|s|, m, k)].next.next == NodeAt(s, Walk(|s|, m, k + 2), null)
    ensures Walk(|s|, m, k + 1) < |s|
  {
    Follow(s, m, k);
    Follow(s, m, k + 1);
  }

  /** Results of operations that may dereference a null pointer. */
  datatype Outcome<R> = Returned(value: R) | NullDereference

  /** CheckHuan on n nodes of which the last leads back to position m, or to null when
      m is n: true on every cycle, false on null-ended lists of even, non-zero length,
      and a null dereference on all other null-ended lists. */
  ghost function CycleVerdict(n: nat, m: nat): Outcome<bool> {
    if m < n then Returned(true)
    else if n > 0 && n % 2 == 0 then Returned(false)
    else NullDereference
  }

  /** Where k links from the first node lead. */
  ghost function Stop<T>(s: Nodes<T>, m: nat, k: nat): DataStruct?<T>
    requires m <= |s|
  {
    NodeAt(s, Walk(|s|, m, k), null)
  }

  /** The pointers stand k and d = 2k links from the first node and have not met before. */
  ghost predicate Racing<T>(s: Nodes<T>, m: nat, slow: DataStruct?<T>, fast: DataStruct?<T>, k: nat, d: nat)
    requires m <= |s|
  {
    && slow == Stop(s, m, k) && fast == Stop(s, m, d)
    && 1 <= k && d == 2 * k && if m < |s| then k <= Meeting(m, |s| - m) else d <= |s|
  }

  /** A bound on the rounds left. */
  ghost function RoundsLeft(n: nat, m: nat, k: nat): int
    requires m <= n
  {
    (if m < n then Meeting(m, n - m) else n) - k
  }

  /** The first two links of a non-empty list. */
  lemma RaceStarts<T>(s: Nodes<T>, m: nat)
    requires m <= |s| && Chain(s, NodeAt(s, m, null)) && s != []
    ensures s[0].live && (s[0].next == null ==> CycleVerdict(|s|, m) == NullDereference)
    ensures s[0].next != null ==> s[0].next.live && Racing(s, m, s[0].next, s[0].next.next, 1, 2)
  {
    FirstRound(|s|, m);
    Follow(s, m, 0);
    if s[0].next != null {
      FollowTwice(s, m, 0);
    }
  }

  /** The slow pointer is never null; the pointers meet exactly in the round of the meeting. */
  lemma RacePositions<T>(s: Nodes<T>, m: nat, slow: DataStruct?<T>, fast: DataStruct?<T>, k: nat, d: nat)
    requires m <= |s| && Chain(s, NodeAt(s, m, null)) && Racing(s, m, slow, fast, k, d)
    ensures slow != null && slow.live && (fast != null ==> fast.live)
    ensures slow == fast ==> m < |s| && k == Meeting(m, |s| - m)
    ensures fast == null ==> m == |s| == d
  {
    Positions(|s|, m, k, d);
  }

  /** A null link behind the fast pointer ends a null-ended list. */
  lemma RaceBreaks<T>(s: Nodes<T>, m: nat, slow: DataStruct?<T>, fast: DataStruct<T>, k: nat, d: nat)
    requires m <= |s| && Chain(s, NodeAt(s, m, null)) && Racing(s, m, slow, fast, k, d)
    requires fast.next == null
    ensures m == |s| == d + 1
  {
    Positions(|s|, m, k, d);
    Follow(s, m, d);
  }

  /** How a round can end. */
  lemma RaceVerdict<T>(s: Nodes<T>, m: nat, slow: DataStruct?<T>, fast: DataStruct?<T>, k: nat, d: nat)
    requires m <= |s| && Chain(s, NodeAt(s, m, null)) && Racing(s, m, slow, fast, k, d)
    ensures slow != null && slow.live && (fast != null ==> fast.live)
    ensures fast == null ==> CycleVerdict(|s|, m) == Returned(false)
    ensures slow == fast ==> CycleVerdict(|s|, m) == Returned(true) && k == Meeting(m, |s| - m)
    ensures fast != null && fast.next == null ==> CycleVerdict(|s|, m) == NullDereference
  {
    RacePositions(s, m, slow, fast, k, d);
    if fast != null && fast.next == null {
      RaceBreaks(s, m, slow, fast, k, d);
    }
  }

  /** What holds when the race goes on. */
  lemma RaceGoesOn<T>(s: Nodes<T>, m: nat, slow: DataStruct<T>, fast: DataStruct<T>, k: nat, d: nat)
    requires m <= |s| && Chain(s, NodeAt(s, m, null)) && Racing(s, m, slow, fast, k, d)
    requires slow != fast && fast.next != null
    ensures fast.next.live && Racing(s, m, slow.next, fast.next.next, k + 1, d + 2)
    ensures 0 <= RoundsLeft(|s|, m, k + 1) < RoundsLeft(|s|, m, k)
  {
    Positions(|s|, m, k, d);
    Follow(s, m, k);
    FollowTwice(s, m, d);
  }

  // ----- unlinking nodes -----

  /** s without position k. */
  ghost function Without<N>(s: seq<N>, k: nat): seq<N>
    requires k < |s|
  {
    s[..k] + s[k + 1..]
  }

  /** Makes node k link to position m, past everything between. */
  method LinkPast<T>(node: DataStruct<T>, to: DataStruct?<T>, ghost s: Nodes<T>, ghost k: nat, ghost m: nat)
    requires Chain(s, null) && k < m <= |s| && node == s[k] && to == NodeAt(s, m, null)
    modifies node`next
    ensures Chain(s[..k + 1] + s[m..], null) && node.next == to
  {
    assert forall j :: 0 <= j < |s| && j != k ==> s[j] != node;
    node.SetNext(to);
  }

  /** Deletes a node that is not on the list. */
  method DeleteUnlinked<T>(node: DataStruct<T>, ghost s: Nodes<T>)
    requires node.live && node !in s && Chain(s, null)
    modifies node`live
    ensures !node.live && Chain(s, null)
  {
    node.Delete();
  }

  /** The links of s from position c on, all nodes there being live. */
  ghost predicate Tail<T>(s: Nodes<T>, c: nat)
    reads s
  {
    forall j {:trigger s[j].live} {:trigger s[j].next} :: c <= j < |s| ==>
      s[j].live && s[j].next == NodeAt(s, j + 1, null)
  }

  lemma TailAt<T>(s: Nodes<T>, c: nat, j: nat)
    requires Tail(s, c) && c <= j < |s|
    ensures s[j].live && s[j].next == NodeAt(s, j + 1, null)
  {
  }

  ghost function Keys<T>(s: Nodes<T>): (keys: seq<T>)
    reads s
    ensures |keys| == |s| && forall i :: 0 <= i < |s| ==> keys[i] == s[i].data
  {
    seq(|s|, i requires 0 <= i < |s| reads s => s[i].data)
  }

  lemma ChainTail<T>(kept: Nodes<T>, s: Nodes<T>, c: nat)
    requires c <= |s| && Chain(kept + s[c..], null)
    ensures Tail(s, c) && Chain(s[c..], null)
  {
    var all := kept + s[c..];
    assert forall j :: c <= j < |s| ==> s[j] == all[|kept| + j - c] == s[c..][j - c];
  }

  lemma ChainSuffixDistinct<T>(kept: Nodes<T>, s: Nodes<T>, c: nat, i: nat, e: nat)
    requires c <= i <= e <= |s| && Chain(kept + s[c..], null)
    ensures NodeAt(s, i, null) == NodeAt(s, e, null) ==> i == e
  {
    var line := kept + s[c..];
    assert i < |s| ==> line[|kept| + i - c] == s[i];
    assert e < |s| ==> line[|kept| + e - c] == s[e];
  }

  /** The next node of the line moves from the unswept to the kept part. */
  lemma Shift<T>(kept: Nodes<T>, s: Nodes<T>, c: nat)
    requires c < |s|
    ensures kept + s[c..] == kept + [s[c]] + s[c + 1..]
  {
  }

  /** pre, the last kept node or the very first node, is linked past s[c..e]. */
  method UnlinkRun<T>(pre: DataStruct<T>, to: DataStruct?<T>, ghost kept: Nodes<T>, ghost s: Nodes<T>,
                      ghost c: nat, ghost e: nat)
    requires c < e <= |s| && Chain(kept + s[c..], null) && to == NodeAt(s, e, null)
    requires if c == 0 && kept == [] then pre == s[0] else kept != [] && pre == kept[|kept| - 1]
    modifies pre`next
    ensures Chain((if c == 0 && kept == [] then [s[0]] else kept) + s[e..], null)
    ensures s[e - 1].next == NodeAt(s, e, null)
  {
    var line := kept + s[c..];
    ghost var k := if c == 0 && kept == [] then 0 else |kept| - 1;
    ghost var m := |kept| + e - c;
    assert line[m..] == s[e..];
    assert line[m - 1] == s[e - 1] && s[e - 1].next == NodeAt(line, m, null) == to;
    assert line[k] == pre && (m - 1 != k ==> line[m - 1] != pre);
    assert line[..k + 1] == if c == 0 && kept == [] then [s[0]] else kept;
    LinkPast(pre, to, line, k, m);
  }

  /** A node in front of a list moves every position by one. */
  lemma ChainInFront<T>(h: DataStruct<T>, s: Nodes<T>, m: nat)
    requires m <= |s| && Chain(s, NodeAt(s, m, null))
    requires h !in s && h.live && h.next == NodeAt(s, 0, null)
    ensures Chain([h] + s, NodeAt([h] + s, m + 1, null))
  {
    var all := [h] + s;
    assert forall i :: 0 < i < |all| ==> all[i] == s[i - 1];
  }

  // ----- removal from the end, on sequences -----

  /** s without its index-th item from the end, counting from one. */
  ghost function WithoutFromEnd<N>(s: seq<N>, index: int): seq<N>
    requires 1 <= index <= |s|
  {
    Without(s, |s| - index)
  }

  /** What the list holds after DelIndexValue(index), when that returns: removing the
      first node only unlinks it from a temporary node, never from the list. */
  ghost function AfterDelIndex<N>(s: seq<N>, index: int): seq<N> {
    if 1 <= index < |s| then WithoutFromEnd(s, index) else s
  }

  /** The requested node is removed exactly when it is not the first one. */
  lemma DelIndexWorksIff<N>(s: seq<N>, index: int)
    requires 1 <= index <= |s|
    ensures AfterDelIndex(s, index) == WithoutFromEnd(s, index) <==> index < |s|
  {
    assert |WithoutFromEnd(s, index)| == |s| - 1;
  }

  // ----- linking new nodes -----

  /** Links a node behind the last of a null-ended list. */
  method LinkBehind<T>(last: DataStruct<T>, node: DataStruct<T>, ghost s: Nodes<T>)
    requires Chain(s, null) && s != [] && last == s[|s| - 1]
    requires node !in s && node.live && node.next == null
    modifies last`next
    ensures Chain(s + [node], null)
  {
    assert forall j :: 0 <= j < |s| - 1 ==> s[j] != last;
    last.SetNext(node);
  }

  // ----- removal of repeated values, on sequences -----

  /** Of the first c nodes, exactly the kept ones have not been deleted. */
  ghost predicate Gone<T>(s: Nodes<T>, kept: Nodes<T>, c: nat)
    reads s
  {
    forall j {:trigger s[j].live} :: 0 <= j < c && j < |s| ==> (s[j].live <==> s[j] in kept)
  }

  /** A single node moves to the kept part. */
  lemma KeepNode<T>(kept: Nodes<T>, s: Nodes<T>, c: nat)
    requires c < |s| && Chain(kept + s[c..], null) && Gone(s, kept, c)
    ensures Chain(kept + [s[c]] + s[c + 1..], null) && Gone(s, kept + [s[c]], c + 1)
  {
    Shift(kept, s, c);
    var line := kept + s[c..];
    assert line[|kept|] == s[c];
    assert forall j :: 0 <= j < c ==> (s[j] in kept + [s[c]] <==> s[j] in kept || s[j] == s[c]);
  }

  /** The kept nodes behind the temporary first one, and what the rest still promises. */
  ghost predicate Pruning<T>(keys: seq<T>, s: Nodes<T>, kept: Nodes<T>, c: nat)
    requires |keys| == |s| && c <= |s|
  {
    kept != [] && Singles(keys, s) == kept[1..] + SinglesFrom(keys, s, c)
  }

  lemma PruneDrop<T>(keys: seq<T>, s: Nodes<T>, kept: Nodes<T>, c: nat, e: nat)
    requires |keys| == |s| && c < |s| && Pruning(keys, s, kept, c)
    requires e == RunEnd(keys, c) && e > c + 1
    ensures Pruning(keys, s, kept, e)
  {
  }

  lemma PruneSingle<T>(keys: seq<T>, s: Nodes<T>, kept: Nodes<T>, c: nat)
    requires |keys| == |s| && c < |s| && Pruning(keys, s, kept, c)
    requires RunEnd(keys, c) == c + 1
    ensures Pruning(keys, s, kept + [s[c]], c + 1)
  {
    assert (kept + [s[c]])[1..] == kept[1..] + [s[c]];
    ConcatAssociates(kept[1..], [s[c]], SinglesFrom(keys, s, c + 1));
  }

  /** Without the temporary first node, what is left are exactly the nodes not deleted. */
  lemma GoneAtEnd<T>(s: Nodes<T>, kept: Nodes<T>, c: nat)
    requires c <= |s| && kept != [] && kept[0] !in s && Gone(s, kept, c) && Chain(kept + s[c..], null)
    ensures Gone(s, kept[1..] + s[c..], |s|)
  {
    ChainTail(kept, s, c);
    var left := kept[1..] + s[c..];
    forall j | 0 <= j < |s|
      ensures s[j].live <==> s[j] in left
    {
      if j < c {
        assert s[j] in kept <==> s[j] in kept[1..];
      } else {
        assert s[j] == s[c..][j - c];
      }
    }
  }

  lemma PruneEnds<T>(keys: seq<T>, s: Nodes<T>, kept: Nodes<T>, c: nat)
    requires |keys| == |s| && c <= |s| <= c + 1 && Pruning(keys, s, kept, c)
    requires Chain(kept + s[c..], null)
    ensures var left := kept[1..] + s[c..];
      && left == Singles(keys, s) && Chain(left, null) && NodeAt(left, 0, null) == kept[0].next
      && kept[0] !in left
  {
    var line := kept + s[c..];
    var left := kept[1..] + s[c..];
    assert SinglesFrom(keys, s, c) == s[c..];
    assert line == [kept[0]] + left && left[0..] == left;
    ChainTail([kept[0]], left, 0);
    assert line[0] == kept[0] && NodeAt(line, 1, null) == NodeAt(left, 0, null);
    assert forall i :: 0 <= i < |left| ==> left[i] == line[i + 1];
  }

  /** The kept nodes and what the rest of the list still promises; pre is the node
      whose link will be rewritten next. */
  ghost predicate Sweeping<T>(keys: seq<T>, s: Nodes<T>, kept: Nodes<T>, c: nat, pre: DataStruct<T>)
    requires |keys| == |s| && c <= |s|
  {
    && s != []
    && (if c == 0 then kept == [] && pre == s[0] else kept != [] && pre == kept[|kept| - 1])
    && (c > 0 ==> HeadAndSingles(keys, s) == kept + SinglesFrom(keys, s, c))
  }

  lemma SweepEnds<T>(keys: seq<T>, s: Nodes<T>, kept: Nodes<T>, pre: DataStruct<T>)
    requires |keys| == |s| && Sweeping(keys, s, kept, |s|, pre) && Chain(kept + s[|s|..], null)
    ensures Chain(kept, null) && kept == HeadAndSingles(keys, s)
  {
    assert kept + s[|s|..] == kept;
    assert SinglesFrom(keys, s, |s|) == [] && kept + [] == kept;
  }

  lemma SweepSingle<T>(keys: seq<T>, s: Nodes<T>, kept: Nodes<T>, c: nat, pre: DataStruct<T>)
    requires |keys| == |s| && c < |s| && Sweeping(keys, s, kept, c, pre)
    requires c + 1 < |s| ==> keys[c + 1] != keys[c]
    ensures Sweeping(keys, s, kept + [s[c]], c + 1, s[c])
  {
    RunEndsAt(keys, c, c + 1);
    if c == 0 {
      assert kept + [s[c]] == [s[0]];
    } else {
      ConcatAssociates(kept, [s[c]], SinglesFrom(keys, s, c + 1));
    }
  }

  lemma SweepDrop<T>(keys: seq<T>, s: Nodes<T>, kept: Nodes<T>, c: nat, e: nat, pre: DataStruct<T>)
    requires |keys| == |s| && c < |s| && Sweeping(keys, s, kept, c, pre)
    requires e == RunEnd(keys, c) && e > c + 1
    ensures Sweeping(keys, s, if c == 0 then [s[0]] else kept, e, pre)
  {
  }

  // ----- the list -----

  class SigList<T(==, 0)> {
    var head: DataStruct?<T>
    ghost var nodes: Nodes<T>
    ghost var entry: nat    // where the last node links to; |nodes| stands for null

    ghost predicate Valid()
      reads this, nodes
    {
      && entry <= |nodes|
      && head == NodeAt(nodes, 0, null)
      && Chain(nodes, NodeAt(nodes, entry, null))
    }

    /** The list ends in null. */
    ghost predicate Straight()
      reads this, nodes
    {
      Valid() && entry == |nodes|
    }

    constructor ()
      ensures Straight() && nodes == []
    {
      head := null;
      nodes := [];
      entry := 0;
    }

    /** Takes note of the nodes that hang on the head now. */
    ghost method Holds(s: Nodes<T>)
      requires Chain(s, null) && head == NodeAt(s, 0, null)
      modifies this`nodes, this`entry
      ensures Straight() && nodes == s
    {
      nodes, entry := s, |s|;
    }

    // ----- insertion -----

    /** Puts a new node in front, of cyclic lists too. */
    method InsertHead(value: T)
      requires Valid()
      modifies this
      ensures Valid() && entry == old(entry) + 1
      ensures nodes != [] && fresh(nodes[0]) && nodes[0].data == value && nodes[1..] == old(nodes)
    {
      var pNew := new DataStruct(value, null);
      ghost var s, m := nodes, entry;
      if head == null {
        head := pNew;
      } else {
        pNew.SetNext(head);
        head := pNew;
      }
      nodes, entry := [pNew] + s, m + 1;
      ChainInFront(pNew, s, m);
    }

    /** The loop of InsertTail. */
    static method LastNode(first: DataStruct<T>, ghost s: Nodes<T>) returns (last: DataStruct<T>)
      requires Chain(s, null) && s != [] && first == s[0]
      ensures last == s[|s| - 1]
    {
      last := first;
      ghost var i := 0;
      while last.Next() != null
        invariant i < |s| && last == s[i]
        decreases |s| - i
      {
        last := last.Next();
        i := i + 1;
      }
    }

    /** Puts a new node behind the last one, which it searches for from the head. */
    method InsertTail(value: T)
      requires Straight()
      modifies this, nodes
      ensures Straight() && |nodes| == |old(nodes)| + 1 && nodes[..|old(nodes)|] == old(nodes)
      ensures fresh(nodes[|old(nodes)|]) && nodes[|old(nodes)|].data == value
      ensures forall n :: n in old(nodes) ==> n.data == old(n.data)
    {
      var pNew := new DataStruct(value, null);
      ghost var s := nodes;
      if head == null {
        head := pNew;
        ChainInFront(pNew, s, 0);
        assert [pNew] + s == s + [pNew];
      } else {
        var pTmp := LastNode(head, nodes);
        assert pTmp in nodes;
        LinkBehind(pTmp, pNew, s);
      }
      Holds(s + [pNew]);
    }

    // ----- reversal -----

    /** One turn of the loop: p2 is linked back to p1, its old successor returned. */
    static method TurnLink(p1: DataStruct<T>, p2: DataStruct<T>, ghost s: Nodes<T>, ghost i: nat)
      returns (p3: DataStruct?<T>)
      requires HalfReversed(s, i) && i < |s| && p1 == s[i - 1] && p2 == s[i]
      modifies p2`next
      ensures HalfReversed(s, i + 1) && p3 == NodeAt(s, i + 1, null)
    {
      assert forall j :: 0 <= j < |s| && j != i ==> s[j] != p2;
      p3 := p2.Next();
      p2.SetNext(p1);
    }

    /** The loop that FanZhuan and Reverse1 share. */
    static method ReverseLinks(first: DataStruct<T>, ghost s: Nodes<T>) returns (p1: DataStruct<T>)
      requires Chain(s, null) && s != [] && first == s[0]
      modifies s
      ensures Chain(Reverse(s), null) && p1 == Reverse(s)[0]
      ensures forall n :: n in s ==> n.data == old(n.data)
    {
      p1 := first;
      var p2 := first.Next();
      first.SetNext(null);
      ghost var i := 1;
      while p2 != null
        invariant HalfReversed(s, i) && p1 == s[i - 1] && p2 == NodeAt(s, i, null)
        invariant forall n :: n in s ==> n.data == old(n.data)
        decreases |s| - i
      {
        var p3 := TurnLink(p1, p2, s, i);
        p1 := p2;
        p2 := p3;
        i := i + 1;
      }
      ReversedChain(s);
    }

    /** Relinks the same nodes in reverse order. Dereferences head at once. */
    method FanZhuan()
      requires Straight() && nodes != []
      modifies this, nodes
      ensures Straight() && nodes == Reverse(old(nodes))
      ensures forall n :: n in old(nodes) ==> n.data == old(n.data)
    {
      head := ReverseLinks(head, nodes);
      nodes := Reverse(nodes);
    }

    /** FanZhuan behind a guard for lists of fewer than two nodes. */
    method Reverse1()
      requires Straight()
      modifies this, nodes
      ensures Straight() && nodes == Reverse(old(nodes))
      ensures forall n :: n in old(nodes) ==> n.data == old(n.data)
    {
      if head == null || head.Next() == null {
        ShortIsReversed(nodes);
      } else {
        FanZhuan();
      }
    }

    /** Reversing twice restores the list, node by node. */
    method ReverseTwice()
      requires Straight()
      modifies this, nodes
      ensures Straight() && nodes == old(nodes)
      ensures forall n :: n in nodes ==> n.data == old(n.data)
    {
      Sequences.ReverseTwice(nodes);
      ReverseByPosition(nodes);
      Reverse1();
      Reverse1();
    }

    // ----- cycle detection -----

    /** CheckHuan's loop, entered with the slow pointer one link and the fast pointer two
        links from the head. */
    method Race(slow0: DataStruct?<T>, fast0: DataStruct?<T>) returns (r: Outcome<bool>, ghost advances: nat)
      requires Valid() && Racing(nodes, entry, slow0, fast0, 1, 2)
      ensures r == CycleVerdict(|nodes|, entry)
      ensures entry < |nodes| ==> advances + 1 == Meeting(entry, |nodes| - entry)
    {
      advances := 0;
      var slow, fast := slow0, fast0;
      ghost var s, d := 1, 2;
      while slow != null && fast != null
        invariant Racing(nodes, entry, slow, fast, s, d) && s == advances + 1
        decreases RoundsLeft(|nodes|, entry, s)
      {
        RaceVerdict(nodes, entry, slow, fast, s, d);
        if slow == fast {
          return Returned(true), advances;
        }
        ghost var behind := slow;
        slow := slow.Next();
        if fast.Next() == null {
          return NullDereference, advances;
        }
        RaceGoesOn(nodes, entry, behind, fast, s, d);
        fast := fast.Next().Next();
        advances, s, d := advances + 1, s + 1, d + 2;
      }
      RaceVerdict(nodes, entry, slow, fast, s, d);
      return Returned(false), advances;
    }

    /** Decides every cyclic list, where the two pointers meet at the first multiple of
        the cycle's length that reaches the end of the tail, and every null-ended list
        of even, non-zero length. */
    method CheckHuan() returns (r: Outcome<bool>, ghost advances: nat)
      requires Valid()
      ensures r == CycleVerdict(|nodes|, entry)
      ensures entry < |nodes| ==> r == Returned(true)
      ensures entry == |nodes| && |nodes| % 2 == 0 && nodes != [] ==> r == Returned(false)
      ensures entry == |nodes| && (|nodes| % 2 == 1 || nodes == []) ==> r == NullDereference
      ensures entry < |nodes| ==> advances + 1 == Meeting(entry, |nodes| - entry)
      ensures entry < |nodes| ==> advances < |nodes|
    {
      FirstRound(|nodes|, entry);
      var pos := head;
      if pos == null {
        return NullDereference, 0;
      }
      RaceStarts(nodes, entry);
      if pos.Next() == null {
        return NullDereference, 0;
      }
      r, advances := Race(pos.Next(), pos.Next().Next());
    }

    // ----- removal from the end -----

    static method UnlinkBehind(slow: DataStruct<T>, to: DataStruct?<T>,
                               ghost pHead: DataStruct<T>, ghost s: Nodes<T>, ghost k: nat)
      returns (ghost left: Nodes<T>)
      requires Chain([pHead] + s, null) && pHead !in s && k < |s| && slow == ([pHead] + s)[k]
      requires to == NodeAt([pHead] + s, k + 2, null)
      modifies slow`next
      ensures left == (if k > 0 then Without(s, k) else s) && Chain(left, null)
    {
      ghost var all := [pHead] + s;
      assert s[0..] == s;
      ChainTail([pHead], s, 0);
      LinkPast(slow, to, all, k, k + 2);
      left := s;
      if k > 0 {
        left := Without(s, k);
        assert all[..k + 1] + all[k + 2..] == [pHead] + left && left[0..] == left;
        ChainTail([pHead], left, 0);
      }
    }

    /** Lets the fast pointer lead by index + 1 links, then moves both until it falls
        off the end; the slow one starts at the temporary node and may stay there. */
    static method TwoPointers(pHead: DataStruct<T>, index: int, ghost all: Nodes<T>)
      returns (slow: DataStruct<T>, ghost s: nat)
      requires Chain(all, null) && all != [] && pHead == all[0] && index >= 0
      ensures s == (if index < |all| then |all| - 1 - index else 0) && slow == all[s]
    {
      var fast: DataStruct?<T>, left := pHead, index;
      slow, s := pHead, 0;
      ghost var f := 0;
      while fast != null && left >= 0
        invariant 0 <= f <= |all| && fast == NodeAt(all, f, null) && left == index - f >= -1
        decreases |all| - f
      {
        fast := fast.Next();
        left := left - 1;
        f := f + 1;
      }
      ghost var gap := f;
      while fast != null
        invariant gap <= f <= |all| && fast == NodeAt(all, f, null)
        invariant s == f - gap && slow == all[s]
        decreases |all| - f
      {
        fast := fast.Next();
        slow := slow.Next();
        f, s := f + 1, s + 1;
      }
    }

    static method DelBehind(pHead: DataStruct<T>, index: int, ghost s: Nodes<T>)
      returns (r: Outcome<()>, ghost left: Nodes<T>)
      requires Chain([pHead] + s, null) && pHead !in s && index >= 0
      modifies pHead`next, s`next
      ensures r == if index == 0 || s == [] then NullDereference else Returned(())
      ensures left == if r.Returned? then AfterDelIndex(s, index) else s
      ensures Chain(left, null) && NodeAt(left, 0, null) == NodeAt(s, 0, null)
    {
      ghost var all: Nodes<T> := [pHead] + s;
      ghost var k;
      var slow;
      slow, k := TwoPointers(pHead, index, all);
      left := s;
      assert s[0..] == s;
      ChainTail([pHead], s, 0);
      if slow.Next() == null {
        return NullDereference, s;
      }
      left := UnlinkBehind(slow, slow.Next().Next(), pHead, s, k);
      return Returned(()), left;
    }

    /** The body of DelIndexValue behind its guard; left are the nodes then on the list,
        whose head stays what it was. */
    static method DelFromEnd(head: DataStruct?<T>, index: int, ghost s: Nodes<T>)
      returns (r: Outcome<()>, ghost left: Nodes<T>)
      requires Chain(s, null) && head == NodeAt(s, 0, null) && index >= 0
      modifies s`next
      ensures r == if index == 0 || s == [] then NullDereference else Returned(())
      ensures left == if r.Returned? then AfterDelIndex(s, index) else s
      ensures Chain(left, null) && head == NodeAt(left, 0, null)
    {
      var filler: T := *;
      var pHead := new DataStruct(filler, head);
      ChainInFront(pHead, s, |s|);
      r, left := DelBehind(pHead, index, s);
      DeleteUnlinked(pHead, left);
    }

    /** Two pointers index nodes apart, starting from a temporary node before the head.
        Dereferences null when no node follows the one the slow pointer stops at; removes
        the index-th node from the end exactly when that is not the first node. */
    method DelIndexValue(index: int) returns (r: Outcome<()>)
      requires Straight()
      modifies this, nodes
      ensures r == if index >= 0 && (index == 0 || old(nodes) == []) then NullDereference else Returned(())
      ensures Straight() && nodes == if r.Returned? then AfterDelIndex(old(nodes), index) else old(nodes)
      ensures 1 <= index <= |old(nodes)| ==>
                (nodes == WithoutFromEnd(old(nodes), index) <==> index < |old(nodes)|)
      ensures 1 <= index < |old(nodes)| ==>
                var k := |old(nodes)| - index; nodes == old(nodes)[..k] + old(nodes)[k + 1..]
      ensures index < 1 || index >= |old(nodes)| ==> nodes == old(nodes)
      ensures forall n :: n in old(nodes) ==> n.live && n.data == old(n.data)
    {
      if 1 <= index <= |nodes| {
        DelIndexWorksIff(nodes, index);
      }
      if index < 0 {
        return Returned(());
      }
      ghost var left;
      r, left := DelFromEnd(head, index, nodes);
      Holds(left);
    }

    // ----- removal of repeated values -----

    /** Walks from the first to the last node of a run. */
    static method LastOfRun(first: DataStruct<T>, ghost s: Nodes<T>, ghost c: nat)
      returns (last: DataStruct<T>, ghost e: nat)
      requires Tail(s, c) && c < |s| && first == s[c]
      ensures e == RunEnd(Keys(s), c) && last == s[e - 1]
    {
      last, e := first, c + 1;
      var sameValue := first.Data();
      while last.Next() != null && last.Next().Data() == sameValue
        invariant c < e <= |s| && last == s[e - 1]
        invariant forall j :: c <= j < e ==> s[j].data == sameValue
        decreases |s| - e
      {
        last := last.Next();
        e := e + 1;
      }
      RunEndsAt(Keys(s), c, e);
    }

    /** A run of two or more nodes is unlinked. */
    static method SweepRun(cur0: DataStruct<T>, pre: DataStruct<T>,
                           ghost kept0: Nodes<T>, ghost s: Nodes<T>, ghost c: nat)
      returns (cur: DataStruct?<T>, ghost kept: Nodes<T>, ghost e: nat)
      requires c < |s| && cur0 == s[c] && Chain(kept0 + s[c..], null) && Sweeping(Keys(s), s, kept0, c, pre)
      requires c + 1 < |s| && s[c + 1].data == s[c].data
      modifies pre`next
      ensures c < e <= |s| && Sweeping(old(Keys(s)), s, kept, e, pre)
      ensures cur == NodeAt(s, e, null) && Chain(kept + s[e..], null)
    {
      ChainTail(kept0, s, c);
      ghost var keys := Keys(s);
      var last;
      last, e := LastOfRun(cur0, s, c);
      kept := if c == 0 then [s[0]] else kept0;
      SweepDrop(keys, s, kept0, c, e, pre);
      UnlinkRun(pre, last.Next(), kept0, s, c, e);
      cur := last.Next();
    }

    /** One round of DeleSameValue. */
    static method SweepStep(cur0: DataStruct<T>, pre0: DataStruct<T>,
                            ghost kept0: Nodes<T>, ghost s: Nodes<T>, ghost c: nat)
      returns (cur: DataStruct?<T>, pre: DataStruct<T>, ghost kept: Nodes<T>, ghost e: nat)
      requires c < |s| && cur0 == s[c] && Chain(kept0 + s[c..], null) && Sweeping(Keys(s), s, kept0, c, pre0)
      modifies pre0`next
      ensures c < e <= |s| && Sweeping(Keys(s), s, kept, e, pre) && (pre == pre0 || pre == cur0)
      ensures Keys(s) == old(Keys(s))
      ensures cur == NodeAt(s, e, null) && Chain(kept + s[e..], null)
    {
      ChainTail(kept0, s, c);
      if cur0.Next() != null && cur0.Data() == cur0.Next().Data() {
        ghost var keys := Keys(s);
        cur, kept, e := SweepRun(cur0, pre0, kept0, s, c);
        pre := pre0;
        assert Keys(s) == keys;
      } else {
        Shift(kept0, s, c);
        SweepSingle(Keys(s), s, kept0, c, pre0);
        pre, kept, cur, e := cur0, kept0 + [s[c]], cur0.Next(), c + 1;
      }
    }

    /** The loop of DeleSameValue; kept are the nodes that stay linked. */
    static method SweepAfterHead(first: DataStruct<T>, ghost s: Nodes<T>) returns (ghost kept: Nodes<T>)
      requires Chain(s, null) && s != [] && first == s[0]
      modifies s`next
      ensures Chain(kept, null) && kept == HeadAndSingles(old(Keys(s)), s)
      ensures Keys(s) == old(Keys(s))
    {
      ghost var keys, c := Keys(s), 0;
      var cur: DataStruct?<T>, pre: DataStruct<T> := first, first;
      kept := [];
      assert [] + s[0..] == s;
      while cur != null
        invariant c <= |s| && cur == NodeAt(s, c, null) && Chain(kept + s[c..], null)
        invariant pre in s && Sweeping(keys, s, kept, c, pre) && Keys(s) == keys
        decreases |s| - c
      {
        cur, pre, kept, c := SweepStep(cur, pre, kept, s, c);
      }
      SweepEnds(keys, s, kept, pre);
    }

    /** DeleSameValue behind its guard, and what is left in terms of the data. */
    static method SweepRuns(first: DataStruct<T>, ghost s: Nodes<T>) returns (ghost left: Nodes<T>)
      requires Chain(s, null) && s != [] && first == s[0]
      modifies s`next
      ensures Chain(left, null) && NodeAt(left, 0, null) == first
      ensures Keys(s) == old(Keys(s)) && left == HeadAndSingles(old(Keys(s)), s)
      ensures LeavesHeadAndSingles(old(Keys(s)), s, left) && Subsequence(left, s)
    {
      left := SweepAfterHead(first, s);
      HeadAndSinglesSpelledOut(Keys(s), s, left);
    }

    /** Keeps the head and the nodes of the later runs of length one; the nodes it
        drops are unlinked but not deleted. */
    method DeleSameValue()
      requires Straight()
      modifies this, nodes
      ensures Straight() && nodes == HeadAndSingles(old(Keys(nodes)), old(nodes))
      ensures Keys(old(nodes)) == old(Keys(nodes)) && forall n :: n in old(nodes) ==> n.live
      ensures LeavesHeadAndSingles(old(Keys(nodes)), old(nodes), nodes)
      ensures Subsequence(nodes, old(nodes))
    {
      if head == null {
        HeadAndSinglesSpelledOut(Keys(nodes), nodes, nodes);
        return;
      }
      ghost var left := SweepRuns(head, nodes);
      Holds(left);
    }

    static method DeleteOne(pre: DataStruct<T>, cur0: DataStruct<T>,
                            ghost kept: Nodes<T>, ghost s: Nodes<T>, ghost i: nat)
      returns (cur: DataStruct?<T>)
      requires i < |s| && cur0 == s[i]
      requires Chain(kept + s[i..], null) && Gone(s, kept, i) && kept != [] && pre == kept[|kept| - 1]
      modifies pre`next, cur0`live
      ensures cur == NodeAt(s, i + 1, null) && Chain(kept + s[i + 1..], null) && Gone(s, kept, i + 1)
    {
      ChainTail(kept, s, i);
      ghost var line, k := kept + s[i..], |kept| - 1;
      assert line[..k + 1] == kept && line[k + 2..] == s[i + 1..] && line[k] == pre && line[k + 1] == cur0;
      LinkPast(pre, cur0.Next(), line, k, k + 2);
      cur0.Delete();
      cur := pre.Next();
    }

    /** Deletes the nodes of a run one by one, each after it has been unlinked. */
    static method DeleteRun(pre: DataStruct<T>, cur0: DataStruct<T>, nxt: DataStruct?<T>,
                            ghost kept: Nodes<T>, ghost s: Nodes<T>, ghost c: nat, ghost e: nat)
      returns (cur: DataStruct?<T>)
      requires c < e <= |s| && cur0 == s[c] && nxt == NodeAt(s, e, null)
      requires Chain(kept + s[c..], null) && Gone(s, kept, c) && kept != [] && pre == kept[|kept| - 1]
      modifies pre`next, s`live
      ensures cur == nxt && Chain(kept + s[e..], null) && Gone(s, kept, e) && Tail(s, e)
    {
      cur := cur0;
      ghost var i := c;
      while cur != nxt
        invariant c <= i <= e && cur == NodeAt(s, i, null)
        invariant Chain(kept + s[i..], null) && Gone(s, kept, i)
        decreases e - i
      {
        cur := DeleteOne(pre, cur, kept, s, i);
        i := i + 1;
      }
      ChainSuffixDistinct(kept, s, i, i, e);
      ChainTail(kept, s, e);
    }

    /** A run of two or more nodes is deleted. */
    static method PruneRun(pre: DataStruct<T>, cur0: DataStruct<T>, nxt0: DataStruct?<T>,
                           ghost kept: Nodes<T>, ghost s: Nodes<T>, ghost c: nat, ghost e: nat)
      returns (cur: DataStruct?<T>, nxt: DataStruct?<T>)
      requires c < |s| && cur0 == s[c] && e == RunEnd(Keys(s), c) && c + 1 < e && nxt0 == NodeAt(s, e, null)
      requires Chain(kept + s[c..], null) && Gone(s, kept, c)
      requires Pruning(Keys(s), s, kept, c) && pre == kept[|kept| - 1]
      modifies pre`next, s`live
      ensures cur == NodeAt(s, e, null) && nxt == NodeAt(s, e + 1, null)
      ensures Chain(kept + s[e..], null) && Gone(s, kept, e) && Pruning(old(Keys(s)), s, kept, e)
      ensures Keys(s) == old(Keys(s))
    {
      PruneDrop(Keys(s), s, kept, c, e);
      cur := DeleteRun(pre, cur0, nxt0, kept, s, c, e);
      nxt := nxt0;
      if nxt != null {
        TailAt(s, e, e);
        nxt := nxt.Next();
      }
    }

    /** Walks to the first node after a run. */
    static method FirstOther(cur: DataStruct<T>, nxt0: DataStruct<T>, ghost s: Nodes<T>, ghost c: nat)
      returns (nxt: DataStruct?<T>, ghost e: nat)
      requires Tail(s, c) && c + 1 < |s| && cur == s[c] && nxt0 == s[c + 1]
      ensures e == RunEnd(Keys(s), c) && nxt == NodeAt(s, RunEnd(Keys(s), c), null)
    {
      nxt, e := nxt0, c + 1;
      while nxt != null && cur.Data() == nxt.Data()
        invariant c < e <= |s| && nxt == NodeAt(s, e, null)
        invariant forall j :: c <= j < e ==> s[j].data == cur.data
        decreases |s| - e
      {
        nxt := nxt.Next();
        e := e + 1;
      }
      RunEndsAt(Keys(s), c, e);
    }

    /** One round of DeleteSameValue1. */
    static method PruneStep(pre0: DataStruct<T>, cur0: DataStruct<T>, nxt0: DataStruct<T>,
                            ghost kept0: Nodes<T>, ghost s: Nodes<T>, ghost c: nat)
      returns (pre: DataStruct<T>, cur: DataStruct?<T>, nxt: DataStruct?<T>, ghost kept: Nodes<T>, ghost e: nat)
      requires c + 1 < |s| && cur0 == s[c] && nxt0 == s[c + 1]
      requires Chain(kept0 + s[c..], null) && Gone(s, kept0, c)
      requires Pruning(Keys(s), s, kept0, c) && pre0 == kept0[|kept0| - 1]
      modifies pre0`next, s`live
      ensures c < e <= |s| && cur == NodeAt(s, e, null) && nxt == NodeAt(s, e + 1, null)
      ensures Chain(kept + s[e..], null) && Gone(s, kept, e)
      ensures Pruning(old(Keys(s)), s, kept, e) && pre == kept[|kept| - 1] && kept[0] == kept0[0]
      ensures (pre == pre0 || pre == cur0) && Keys(s) == old(Keys(s))
    {
      ChainTail(kept0, s, c);
      nxt, e := FirstOther(cur0, nxt0, s, c);
      if cur0.Next() != nxt {
        cur, nxt := PruneRun(pre0, cur0, nxt, kept0, s, c, e);
        pre, kept := pre0, kept0;
      } else {
        ChainSuffixDistinct(kept0, s, c, c + 1, e);
        TailAt(s, c, e);
        PruneSingle(Keys(s), s, kept0, c);
        KeepNode(kept0, s, c);
        pre, kept := cur0, kept0 + [s[c]];
        cur := cur0.Next();
        nxt := nxt.Next();
      }
    }

    /** The loop of DeleteSameValue1, behind the temporary first node. */
    static method PruneLoop(pHead: DataStruct<T>, first: DataStruct<T>, ghost s: Nodes<T>)
      returns (ghost kept: Nodes<T>, ghost c: nat)
      requires s != [] && first == s[0] && pHead !in s && Chain([pHead] + s, null)
      modifies pHead`next, s`next, s`live
      ensures c <= |s| <= c + 1 && Chain(kept + s[c..], null) && Gone(s, kept, c)
      ensures Pruning(old(Keys(s)), s, kept, c) && kept[0] == pHead && pHead.live
      ensures Keys(s) == old(Keys(s))
    {
      ghost var keys := Keys(s);
      kept, c := [pHead], 0;
      assert [pHead] + s[0..] == [pHead] + s;
      ChainTail(kept, s, 0);
      var pre: DataStruct<T>, cur: DataStruct?<T>, nxt := pHead, first, first.Next();
      while nxt != null
        invariant c <= |s| && cur == NodeAt(s, c, null) && nxt == NodeAt(s, c + 1, null)
        invariant Chain(kept + s[c..], null) && Gone(s, kept, c) && Keys(s) == keys
        invariant Pruning(keys, s, kept, c) && pre == kept[|kept| - 1] && kept[0] == pHead
        invariant pre == pHead || pre in s
        decreases |s| - c
      {
        pre, cur, nxt, kept, c := PruneStep(pre, cur, nxt, kept, s, c);
      }
      assert (kept + s[c..])[0] == pHead;
    }

    /** The loop of DeleteSameValue1 between making and deleting the temporary node. */
    static method PruneAll(first: DataStruct<T>, ghost s: Nodes<T>)
      returns (newHead: DataStruct?<T>, ghost left: Nodes<T>)
      requires Chain(s, null) && s != [] && first == s[0]
      modifies s`next, s`live
      ensures Chain(left, null) && newHead == NodeAt(left, 0, null)
      ensures left == Singles(old(Keys(s)), s) && Gone(s, left, |s|) && Keys(s) == old(Keys(s))
    {
      var filler: T := *;
      var pHead := new DataStruct(filler, first);
      ChainInFront(pHead, s, |s|);
      ghost var keys := Keys(s);
      ghost var kept, c;
      kept, c := PruneLoop(pHead, first, s);
      PruneEnds(keys, s, kept, c);
      GoneAtEnd(s, kept, c);
      left := kept[1..] + s[c..];
      newHead := pHead.Next();
      DeleteUnlinked(pHead, left);
    }

    /** DeleteSameValue1 behind its guard, and what is left in terms of the data. */
    static method PruneRuns(first: DataStruct<T>, ghost s: Nodes<T>)
      returns (newHead: DataStruct?<T>, ghost left: Nodes<T>)
      requires Chain(s, null) && s != [] && first == s[0]
      modifies s`next, s`live
      ensures Chain(left, null) && newHead == NodeAt(left, 0, null)
      ensures left == Singles(old(Keys(s)), s) && Gone(s, left, |s|) && Keys(s) == old(Keys(s))
      ensures LeavesSingles(old(Keys(s)), s, left) && Subsequence(left, s)
    {
      newHead, left := PruneAll(first, s);
      SinglesSpelledOut(Keys(s), s, left);
    }

    /** Keeps exactly the nodes whose runs have length one, and deletes all others. */
    method DeleteSameValue1()
      requires Straight()
      modifies this, nodes
      ensures Straight() && nodes == Singles(old(Keys(nodes)), old(nodes))
      ensures forall j {:trigger old(nodes)[j].live} :: 0 <= j < |old(nodes)| ==>
                (old(nodes)[j].live <==> old(nodes)[j] in nodes)
      ensures Keys(old(nodes)) == old(Keys(nodes))
      ensures LeavesSingles(old(Keys(nodes)), old(nodes), nodes)
      ensures Subsequence(nodes, old(nodes))
    {
      if head == null {
        SinglesSpelledOut(Keys(nodes), nodes, nodes);
        return;
      }
      ghost var left;
      head, left := PruneRuns(head, nodes);
      Holds(left);
    }
  }
}

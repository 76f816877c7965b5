/** The linked binary tree: recursive and iterative traversals, breadth-first
    output, depth, size, the k-th largest search, and the reader that builds it. */
module BTree {
  import opened Sequences
  import opened Trees
  import opened TreeText

  class BTreeNode {
    var data: char
    var lChild: BTreeNode?
    var rChild: BTreeNode?

    constructor (data: char)
      ensures this.data == data && lChild == null && rChild == null
    {
      this.data := data;
      lChild := null;
      rChild := null;
    }
  }

  type Shape = Tree<BTreeNode>

  /** Following child links from p meets exactly the nodes of t, in their places,
      all of them in heap. */
  ghost predicate Links(p: BTreeNode?, t: Shape, heap: set<BTreeNode>)
    reads heap
    decreases t
  {
    match t
    case Empty => p == null
    case Fork(n, l, r) => p == n && n in heap && Links(n.lChild, l, heap) && Links(n.rChild, r, heap)
  }

  /** The characters stored in a sequence of nodes. */
  ghost function Data(nodes: seq<BTreeNode>): string
    reads nodes
  {
    if nodes == [] then "" else Data(nodes[..|nodes| - 1]) + [nodes[|nodes| - 1].data]
  }

  /** The tree of characters stored in a linked tree. */
  ghost function Labels(p: BTreeNode?, t: Shape, heap: set<BTreeNode>): Tree<char>
    requires Links(p, t, heap)
    reads heap
    decreases t
  {
    match t
    case Empty => Empty
    case Fork(n, l, r) => Fork(n.data, Labels(n.lChild, l, heap), Labels(n.rChild, r, heap))
  }

  lemma DataSnoc(nodes: seq<BTreeNode>, n: BTreeNode)
    ensures Data(nodes + [n]) == Data(nodes) + [n.data]
  {
    assert (nodes + [n])[..|nodes|] == nodes;
  }

  lemma {:induction false} DataAppend(a: seq<BTreeNode>, b: seq<BTreeNode>)
    ensures Data(a + b) == Data(a) + Data(b)
  {
    if b == [] {
      assert a + b == a;
    } else {
      var b', n := b[..|b| - 1], b[|b| - 1];
      assert b == b' + [n] && a + b == (a + b') + [n];
      DataSnoc(a + b', n);
      DataAppend(a, b');
    }
  }

  lemma DataOfOne(n: BTreeNode)
    ensures Data([n]) == [n.data]
  {
    DataSnoc([], n);
    assert [] + [n] == [n];
  }

  lemma {:induction false} DataLength(nodes: seq<BTreeNode>)
    ensures |Data(nodes)| == |nodes|
  {
    if nodes == [] {
    } else {
      DataLength(nodes[..|nodes| - 1]);
    }
  }

  lemma {:induction false} DataAt(nodes: seq<BTreeNode>, i: nat)
    requires i < |nodes|
    ensures |Data(nodes)| == |nodes| && Data(nodes)[i] == nodes[i].data
  {
    if i < |nodes| - 1 {
      DataAt(nodes[..|nodes| - 1], i);
    } else if i > 0 {
      DataAt(nodes[..|nodes| - 1], i - 1);
    }
  }

  lemma {:induction false} LabelsTraversals(p: BTreeNode?, t: Shape, heap: set<BTreeNode>)
    requires Links(p, t, heap)
    ensures Pre(Labels(p, t, heap)) == Data(Pre(t))
    ensures Mid(Labels(p, t, heap)) == Data(Mid(t))
    ensures Post(Labels(p, t, heap)) == Data(Post(t))
    ensures ReverseMid(Labels(p, t, heap)) == Data(ReverseMid(t))
    ensures Size(Labels(p, t, heap)) == Size(t)
    decreases t
  {
    if t.Empty? {
    } else {
      var n, l, r := t.value, t.left, t.right;
      LabelsTraversals(n.lChild, l, heap);
      LabelsTraversals(n.rChild, r, heap);
      DataOfOne(n);
      DataAppend([n] + Pre(l), Pre(r));
      DataAppend([n], Pre(l));
      DataAppend(Mid(l) + [n], Mid(r));
      DataAppend(Mid(l), [n]);
      DataAppend(ReverseMid(r) + [n], ReverseMid(l));
      DataAppend(ReverseMid(r), [n]);
      DataAppend(Post(l) + Post(r), [n]);
      DataAppend(Post(l), Post(r));
    }
  }

  // ----- the stacks of the iterative traversals -----

  /** A node on an explicit stack, with the tree below it; entered once its right
      subtree has been started while the node itself is still on the stack. */
  datatype Frame = Frame(tree: Shape, entered: bool)

  /** The walk stands at p, over the tree cur, with the frames' nodes stacked. */
  ghost predicate At(p: BTreeNode?, cur: Shape, stack: seq<BTreeNode>, frames: seq<Frame>, heap: set<BTreeNode>)
    reads heap
  {
    && Links(p, cur, heap)
    && |stack| == |frames|
    && forall i :: 0 <= i < |frames| ==> frames[i].tree.Fork? && Links(stack[i], frames[i].tree, heap)
  }

  ghost predicate NoneEntered(frames: seq<Frame>) {
    forall i :: 0 <= i < |frames| ==> !frames[i].entered
  }

  ghost function Push(cur: Shape, frames: seq<Frame>): seq<Frame> {
    frames + [Frame(cur, false)]
  }

  lemma Descend(p: BTreeNode, cur: Shape, stack: seq<BTreeNode>, frames: seq<Frame>, heap: set<BTreeNode>)
    requires At(p, cur, stack, frames, heap)
    ensures At(p.lChild, cur.left, stack + [p], Push(cur, frames), heap)
    ensures p == cur.value
  {
  }

  lemma Ascend(cur: Shape, stack: seq<BTreeNode>, frames: seq<Frame>, heap: set<BTreeNode>)
    requires At(null, cur, stack, frames, heap) && stack != []
    ensures var f, p := frames[|frames| - 1], stack[|stack| - 1];
      && cur == Empty && f.tree.Fork? && p == f.tree.value && p in heap
      && At(p.rChild, f.tree.right, stack[..|stack| - 1], frames[..|frames| - 1], heap)
      && At(null, Empty, stack[..|stack| - 1], frames[..|frames| - 1], heap)
      && At(p.rChild, f.tree.right, stack, frames, heap)
  {
  }

  /** The subtree a frame still has to walk. */
  ghost function Open(f: Frame): Shape {
    if f.tree.Empty? || f.entered then Empty else f.tree.right
  }

  ghost function Root(f: Frame): seq<BTreeNode> {
    if f.tree.Empty? then [] else [f.tree.value]
  }

  /** A bound on the steps left; it decides termination of every traversal. */
  ghost function Work(cur: Shape, frames: seq<Frame>): nat {
    if frames == [] then 2 * Size(cur)
    else
      var f := frames[|frames| - 1];
      Work(cur, frames[..|frames| - 1]) + 2 * Size(Open(f)) + (if f.entered then 1 else 2)
  }

  /** What each order still owes for the stacked nodes, top first. */
  ghost function PreRest(frames: seq<Frame>): seq<BTreeNode> {
    if frames == [] then []
    else Pre(Open(frames[|frames| - 1])) + PreRest(frames[..|frames| - 1])
  }

  ghost function MidRest(frames: seq<Frame>): seq<BTreeNode> {
    if frames == [] then []
    else
      var f := frames[|frames| - 1];
      Root(f) + Mid(Open(f)) + MidRest(frames[..|frames| - 1])
  }

  ghost function PostRest(frames: seq<Frame>): seq<BTreeNode> {
    if frames == [] then []
    else
      var f := frames[|frames| - 1];
      Post(Open(f)) + Root(f) + PostRest(frames[..|frames| - 1])
  }

  /** Nodes visited so far and nodes still owed make up the whole sequence. */
  ghost predicate PreOwes(visited: seq<BTreeNode>, cur: Shape, frames: seq<Frame>, t: Shape) {
    visited + (Pre(cur) + PreRest(frames)) == Pre(t)
  }

  ghost predicate MidOwes(visited: seq<BTreeNode>, cur: Shape, frames: seq<Frame>, t: Shape) {
    visited + (Mid(cur) + MidRest(frames)) == Mid(t)
  }

  ghost predicate PostOwes(visited: seq<BTreeNode>, cur: Shape, frames: seq<Frame>, t: Shape) {
    visited + (Post(cur) + PostRest(frames)) == Post(t)
  }

  lemma {:induction false} WorkOfCurrent(a: Shape, b: Shape, frames: seq<Frame>)
    ensures Work(a, frames) - 2 * Size(a) == Work(b, frames) - 2 * Size(b)
  {
    if frames == [] {
    } else {
      WorkOfCurrent(a, b, frames[..|frames| - 1]);
    }
  }

  lemma WorkOnPush(cur: Shape, frames: seq<Frame>)
    requires cur.Fork?
    ensures Work(cur.left, Push(cur, frames)) == Work(cur, frames)
  {
    assert Push(cur, frames)[..|frames|] == frames;
    WorkOfCurrent(cur, cur.left, frames);
  }

  lemma WorkOnPop(frames: seq<Frame>)
    requires frames != []
    ensures Work(Open(frames[|frames| - 1]), frames[..|frames| - 1]) < Work(Empty, frames)
  {
    WorkOfCurrent(Empty, Open(frames[|frames| - 1]), frames[..|frames| - 1]);
  }

  /** Of a walk that starts with x, x has been visited. */
  lemma FirstMoves<T>(visited: seq<T>, x: T, a: seq<T>, b: seq<T>, rest: seq<T>)
    ensures visited + (([x] + a + b) + rest) == visited + [x] + (a + (b + rest))
  {
  }

  /** Of a walk in three parts, all but the first are put off. */
  lemma RestMoves<T>(a: seq<T>, b: seq<T>, c: seq<T>, rest: seq<T>)
    ensures (a + b + c) + rest == a + (b + c + rest)
  {
  }

  lemma PreOnPush(visited: seq<BTreeNode>, cur: Shape, frames: seq<Frame>, t: Shape)
    requires cur.Fork? && PreOwes(visited, cur, frames, t)
    ensures PreOwes(visited + [cur.value], cur.left, Push(cur, frames), t)
  {
    assert Push(cur, frames)[..|frames|] == frames;
    FirstMoves(visited, cur.value, Pre(cur.left), Pre(cur.right), PreRest(frames));
  }

  lemma PreOnPop(visited: seq<BTreeNode>, frames: seq<Frame>, t: Shape)
    requires frames != [] && PreOwes(visited, Empty, frames, t)
    ensures PreOwes(visited, Open(frames[|frames| - 1]), frames[..|frames| - 1], t)
  {
    var f, rest := frames[|frames| - 1], frames[..|frames| - 1];
    assert [] + PreRest(frames) == Pre(Open(f)) + PreRest(rest);
  }

  lemma MidOnPush(visited: seq<BTreeNode>, cur: Shape, frames: seq<Frame>, t: Shape)
    requires cur.Fork? && MidOwes(visited, cur, frames, t)
    ensures MidOwes(visited, cur.left, Push(cur, frames), t)
  {
    assert Push(cur, frames)[..|frames|] == frames;
    RestMoves(Mid(cur.left), [cur.value], Mid(cur.right), MidRest(frames));
  }

  lemma MidOnPop(visited: seq<BTreeNode>, frames: seq<Frame>, t: Shape)
    requires frames != [] && frames[|frames| - 1].tree.Fork? && MidOwes(visited, Empty, frames, t)
    ensures var f := frames[|frames| - 1];
      MidOwes(visited + [f.tree.value], Open(f), frames[..|frames| - 1], t)
  {
    var f, rest := frames[|frames| - 1], frames[..|frames| - 1];
    assert MidRest(frames) == [f.tree.value] + Mid(Open(f)) + MidRest(rest);
  }

  ghost predicate PreWalk(p: BTreeNode?, cur: Shape, stack: seq<BTreeNode>, frames: seq<Frame>,
                          visited: seq<BTreeNode>, out: string, t: Shape, heap: set<BTreeNode>)
    reads heap, visited
  {
    && At(p, cur, stack, frames, heap) && NoneEntered(frames)
    && out == Data(visited) && PreOwes(visited, cur, frames, t)
  }

  lemma PreDescend(p: BTreeNode, cur: Shape, stack: seq<BTreeNode>, frames: seq<Frame>,
                          visited: seq<BTreeNode>, out: string, t: Shape, heap: set<BTreeNode>)
    requires PreWalk(p, cur, stack, frames, visited, out, t, heap)
    ensures PreWalk(p.lChild, cur.left, stack + [p], Push(cur, frames), visited + [p], out + [p.data], t, heap)
    ensures Work(cur.left, Push(cur, frames)) == Work(cur, frames) && cur.left < cur
  {
    DataSnoc(visited, p);
    Descend(p, cur, stack, frames, heap);
    WorkOnPush(cur, frames);
    PreOnPush(visited, cur, frames, t);
  }

  lemma PreAscend(cur: Shape, stack: seq<BTreeNode>, frames: seq<Frame>,
                          visited: seq<BTreeNode>, out: string, t: Shape, heap: set<BTreeNode>)
    requires PreWalk(null, cur, stack, frames, visited, out, t, heap) && stack != []
    ensures var q, f := stack[|stack| - 1], frames[|frames| - 1];
      && PreWalk(q.rChild, Open(f), stack[..|stack| - 1], frames[..|frames| - 1], visited, out, t, heap)
      && Work(Open(f), frames[..|frames| - 1]) < Work(cur, frames)
  {
    Ascend(cur, stack, frames, heap);
    WorkOnPop(frames);
    PreOnPop(visited, frames, t);
  }

  ghost predicate MidWalk(p: BTreeNode?, cur: Shape, stack: seq<BTreeNode>, frames: seq<Frame>,
                          visited: seq<BTreeNode>, out: string, t: Shape, heap: set<BTreeNode>)
    reads heap, visited
  {
    && At(p, cur, stack, frames, heap) && NoneEntered(frames)
    && out == Data(visited) && MidOwes(visited, cur, frames, t)
  }

  lemma MidDescend(p: BTreeNode, cur: Shape, stack: seq<BTreeNode>, frames: seq<Frame>,
                          visited: seq<BTreeNode>, out: string, t: Shape, heap: set<BTreeNode>)
    requires MidWalk(p, cur, stack, frames, visited, out, t, heap)
    ensures MidWalk(p.lChild, cur.left, stack + [p], Push(cur, frames), visited, out, t, heap)
    ensures Work(cur.left, Push(cur, frames)) == Work(cur, frames) && cur.left < cur
  {
    Descend(p, cur, stack, frames, heap);
    WorkOnPush(cur, frames);
    MidOnPush(visited, cur, frames, t);
  }

  lemma MidAscend(cur: Shape, stack: seq<BTreeNode>, frames: seq<Frame>,
                          visited: seq<BTreeNode>, out: string, t: Shape, heap: set<BTreeNode>)
    requires MidWalk(null, cur, stack, frames, visited, out, t, heap) && stack != []
    ensures var q, f := stack[|stack| - 1], frames[|frames| - 1];
      && MidWalk(q.rChild, Open(f), stack[..|stack| - 1], frames[..|frames| - 1],
                  visited + [q], out + [q.data], t, heap)
      && Work(Open(f), frames[..|frames| - 1]) < Work(cur, frames)
  {
    DataSnoc(visited, stack[|stack| - 1]);
    Ascend(cur, stack, frames, heap);
    WorkOnPop(frames);
    MidOnPop(visited, frames, t);
  }

  // ----- postorder: telling a first from a second return to a node -----

  ghost function Child(f: Frame): Shape
    requires f.tree.Fork?
  {
    if f.entered then f.tree.right else f.tree.left
  }

  /** Each stacked node is the child its predecessor has entered, and so is cur; a
      node whose right subtree is done has just seen that subtree's root printed. */
  ghost predicate Chained(cur: Shape, frames: seq<Frame>, last: BTreeNode?) {
    && (forall i :: 0 <= i < |frames| ==> frames[i].tree.Fork?)
    && (forall i :: 0 < i < |frames| ==> frames[i].tree == Child(frames[i - 1]))
    && (forall i :: 0 <= i < |frames| && frames[i].entered ==> frames[i].tree.right.Fork?)
    && (frames != [] ==>
          var top := frames[|frames| - 1];
          && (cur.Fork? ==> cur == Child(top))
          && (cur.Empty? && top.entered ==> last == top.tree.right.value))
  }

  ghost predicate PostWalk(p: BTreeNode?, last: BTreeNode?, cur: Shape, stack: seq<BTreeNode>, frames: seq<Frame>,
                           visited: seq<BTreeNode>, out: string, t: Shape, heap: set<BTreeNode>)
    reads heap, visited
  {
    && At(p, cur, stack, frames, heap) && Chained(cur, frames, last)
    && last == (if visited == [] then null else visited[|visited| - 1])
    && out == Data(visited) && PostOwes(visited, cur, frames, t)
  }

  lemma PostOnPush(visited: seq<BTreeNode>, cur: Shape, frames: seq<Frame>, t: Shape)
    requires cur.Fork? && PostOwes(visited, cur, frames, t)
    ensures PostOwes(visited, cur.left, Push(cur, frames), t)
  {
    assert Push(cur, frames)[..|frames|] == frames;
    RestMoves(Post(cur.left), Post(cur.right), [cur.value], PostRest(frames));
  }

  lemma PostDescend(p: BTreeNode, last: BTreeNode?, cur: Shape, stack: seq<BTreeNode>, frames: seq<Frame>,
                    visited: seq<BTreeNode>, out: string, t: Shape, heap: set<BTreeNode>)
    requires PostWalk(p, last, cur, stack, frames, visited, out, t, heap)
    ensures PostWalk(p.lChild, last, cur.left, stack + [p], Push(cur, frames), visited, out, t, heap)
    ensures Work(cur.left, Push(cur, frames)) == Work(cur, frames) && cur.left < cur
  {
    Descend(p, cur, stack, frames, heap);
    WorkOnPush(cur, frames);
    PostOnPush(visited, cur, frames, t);
  }

  /** The top frame once its right subtree has been started. */
  ghost function Enter(frames: seq<Frame>): seq<Frame>
    requires frames != []
  {
    frames[..|frames| - 1] + [Frame(frames[|frames| - 1].tree, true)]
  }

  lemma PostOnEnter(visited: seq<BTreeNode>, frames: seq<Frame>, t: Shape)
    requires frames != [] && !frames[|frames| - 1].entered
    requires frames[|frames| - 1].tree.Fork? && PostOwes(visited, Empty, frames, t)
    ensures PostOwes(visited, Open(frames[|frames| - 1]), Enter(frames), t)
  {
    var f, rest := frames[|frames| - 1], frames[..|frames| - 1];
    assert Enter(frames)[..|rest|] == rest;
    assert PostRest(Enter(frames)) == [f.tree.value] + PostRest(rest);
    ConcatAssociates(Post(Open(f)), [f.tree.value], PostRest(rest));
    assert [] + PostRest(frames) == PostRest(frames);
  }

  lemma PostOnPop(visited: seq<BTreeNode>, frames: seq<Frame>, t: Shape)
    requires frames != [] && frames[|frames| - 1].tree.Fork? && Open(frames[|frames| - 1]).Empty?
    requires PostOwes(visited, Empty, frames, t)
    ensures PostOwes(visited + [frames[|frames| - 1].tree.value], Empty, frames[..|frames| - 1], t)
  {
    var f, rest := frames[|frames| - 1], frames[..|frames| - 1];
    assert PostRest(frames) == [f.tree.value] + PostRest(rest);
  }

  lemma WorkOnEnter(frames: seq<Frame>)
    requires frames != [] && !frames[|frames| - 1].entered
    ensures Work(Open(frames[|frames| - 1]), Enter(frames)) < Work(Empty, frames)
  {
    var f, rest := frames[|frames| - 1], frames[..|frames| - 1];
    assert Enter(frames)[..|rest|] == rest;
    WorkOfCurrent(Empty, Open(f), rest);
  }

  /** Before the right subtree is walked, its root is not the node printed last:
      every node is printed once only. */
  lemma UnvisitedRight(visited: seq<BTreeNode>, frames: seq<Frame>, t: Shape)
    requires Distinct(t) && PostOwes(visited, Empty, frames, t)
    requires frames != [] && Open(frames[|frames| - 1]).Fork? && visited != []
    ensures visited[|visited| - 1] != Open(frames[|frames| - 1]).value
  {
    var right := Open(frames[|frames| - 1]);
    PostLists(t);
    var i := |visited| + |Post(right)| - 1;
    assert PostRest(frames)[..|Post(right)|] == Post(right);
    assert Post(right)[|Post(right)| - 1] == right.value;
    assert Post(t)[i] == right.value && Post(t)[|visited| - 1] == visited[|visited| - 1];
  }

  /** What the test on the last printed node decides. */
  lemma SecondReturnIff(last: BTreeNode?, cur: Shape, stack: seq<BTreeNode>, frames: seq<Frame>,
                        visited: seq<BTreeNode>, out: string, t: Shape, heap: set<BTreeNode>)
    requires PostWalk(null, last, cur, stack, frames, visited, out, t, heap) && stack != [] && Distinct(t)
    ensures var q, f := stack[|stack| - 1], frames[|frames| - 1];
      (q.rChild == null || last == q.rChild) <==> Open(f).Empty?
  {
    Ascend(cur, stack, frames, heap);
    if Open(frames[|frames| - 1]).Fork? && visited != [] {
      UnvisitedRight(visited, frames, t);
    }
  }

  lemma PostAscend(last: BTreeNode?, cur: Shape, stack: seq<BTreeNode>, frames: seq<Frame>,
                   visited: seq<BTreeNode>, out: string, t: Shape, heap: set<BTreeNode>)
    requires PostWalk(null, last, cur, stack, frames, visited, out, t, heap) && stack != []
    requires Open(frames[|frames| - 1]).Empty?
    ensures var q, rest := stack[|stack| - 1], frames[..|frames| - 1];
      && PostWalk(null, q, Empty, stack[..|stack| - 1], rest, visited + [q], out + [q.data], t, heap)
      && Work(Empty, rest) < Work(cur, frames)
  {
    DataSnoc(visited, stack[|stack| - 1]);
    Ascend(cur, stack, frames, heap);
    WorkOnPop(frames);
    PostOnPop(visited, frames, t);
  }

  lemma ChainedOnEnter(frames: seq<Frame>, last: BTreeNode?)
    requires Chained(Empty, frames, last) && frames != [] && Open(frames[|frames| - 1]).Fork?
    ensures Chained(Open(frames[|frames| - 1]), Enter(frames), last)
  {
  }

  lemma AtOnEnter(stack: seq<BTreeNode>, frames: seq<Frame>, heap: set<BTreeNode>)
    requires At(null, Empty, stack, frames, heap) && stack != []
    requires frames[|frames| - 1].tree.Fork? && !frames[|frames| - 1].entered
    ensures var q, f := stack[|stack| - 1], frames[|frames| - 1];
      q in heap && At(q.rChild, Open(f), stack, Enter(frames), heap)
  {
  }

  lemma PostEnter(last: BTreeNode?, cur: Shape, stack: seq<BTreeNode>, frames: seq<Frame>,
                  visited: seq<BTreeNode>, out: string, t: Shape, heap: set<BTreeNode>)
    requires PostWalk(null, last, cur, stack, frames, visited, out, t, heap) && stack != []
    requires Open(frames[|frames| - 1]).Fork?
    ensures var q, f := stack[|stack| - 1], frames[|frames| - 1];
      && PostWalk(q.rChild, last, Open(f), stack, Enter(frames), visited, out, t, heap)
      && Work(Open(f), Enter(frames)) < Work(cur, frames)
  {
    assert cur == Empty;
    AtOnEnter(stack, frames, heap);
    ChainedOnEnter(frames, last);
    WorkOnEnter(frames);
    PostOnEnter(visited, frames, t);
  }

  // ----- breadth first -----

  ghost predicate Queued(queue: seq<BTreeNode>, forest: seq<Shape>, heap: set<BTreeNode>)
    reads heap
  {
    && |queue| == |forest|
    && forall i :: 0 <= i < |queue| ==> forest[i].Fork? && Links(queue[i], forest[i], heap)
  }

  ghost predicate LayerWalk(queue: seq<BTreeNode>, forest: seq<Shape>, visited: seq<BTreeNode>, out: string,
                            t: Shape, heap: set<BTreeNode>)
    reads heap, visited
  {
    && Queued(queue, forest, heap) && out == Data(visited)
    && visited + BreadthFirst(forest) == BreadthFirst([t])
  }

  /** The queue after its front has been taken off and its children put in. */
  ghost function NextQueue(queue: seq<BTreeNode>): seq<BTreeNode>
    requires queue != []
    reads queue
  {
    queue[1..] + (if queue[0].lChild != null then [queue[0].lChild] else [])
               + (if queue[0].rChild != null then [queue[0].rChild] else [])
  }

  lemma QueuedAppend(a: seq<BTreeNode>, fa: seq<Shape>, b: seq<BTreeNode>, fb: seq<Shape>, heap: set<BTreeNode>)
    requires Queued(a, fa, heap) && Queued(b, fb, heap)
    ensures Queued(a + b, fa + fb, heap)
  {
  }

  lemma NextQueued(queue: seq<BTreeNode>, forest: seq<Shape>, heap: set<BTreeNode>)
    requires Queued(queue, forest, heap) && queue != []
    ensures Queued(NextQueue(queue), forest[1..] + Children(forest[0]), heap)
  {
    var q, t := queue[0], forest[0];
    var l, r := if q.lChild != null then [q.lChild] else [], if q.rChild != null then [q.rChild] else [];
    var fl, fr := if t.left.Fork? then [t.left] else [], if t.right.Fork? then [t.right] else [];
    assert Links(q.lChild, t.left, heap) && Links(q.rChild, t.right, heap);
    assert Queued(l, fl, heap) && Queued(r, fr, heap) && Queued(queue[1..], forest[1..], heap);
    QueuedAppend(queue[1..], forest[1..], l, fl, heap);
    QueuedAppend(queue[1..] + l, forest[1..] + fl, r, fr, heap);
    assert forest[1..] + Children(t) == forest[1..] + fl + fr;
  }

  lemma LayerStep(queue: seq<BTreeNode>, forest: seq<Shape>, visited: seq<BTreeNode>, out: string,
                  t: Shape, heap: set<BTreeNode>)
    requires LayerWalk(queue, forest, visited, out, t, heap) && queue != []
    ensures var q, rest := queue[0], forest[1..] + Children(forest[0]);
      && LayerWalk(NextQueue(queue), rest, visited + [q], out + [q.data], t, heap)
      && TotalSize(rest) < TotalSize(forest)
  {
    DataSnoc(visited, queue[0]);
    QueueShrinks(forest);
    NextQueued(queue, forest, heap);
    var rest := BreadthFirst(forest[1..] + Children(forest[0]));
    assert BreadthFirst(forest) == [queue[0]] + rest;
    ConcatAssociates(visited, [queue[0]], rest);
  }

  /** The levels of a tree hold each of its nodes exactly once. */
  lemma LayersListAll(t: Shape)
    ensures multiset(Levels(t, Depth(t))) == multiset(Pre(t))
    ensures |Levels(t, Depth(t))| == |Pre(t)|
    ensures Distinct(t) ==> NoRepeats(Levels(t, Depth(t)))
  {
    var all := Levels(t, Depth(t));
    LevelsListAll(t, Depth(t));
    TraversalsPermute(t);
    assert |multiset(all)| == |all| && |multiset(Pre(t))| == |Pre(t)|;
    if Distinct(t) {
      PostLists(t);
      NoRepeatsPermutes(Post(t), all);
    }
  }

  lemma LayerText(t: Shape)
    ensures BreadthFirst([t]) == Levels(t, Depth(t))
    ensures |Data(Levels(t, Depth(t)))| == Size(t) && (t.Empty? ==> Levels(t, Depth(t)) == [])
  {
    BreadthFirstListsLevels(t);
    LayersListAll(t);
    PostLists(t);
    TraversalsPermute(t);
    assert |multiset(Pre(t))| == |Pre(t)| && |multiset(Post(t))| == |Post(t)|;
    DataLength(Levels(t, Depth(t)));
  }

  lemma SameOneLevelDown(u: Tree<char>, t: Shape, d: nat)
    requires u.Fork? && t.Fork?
    requires Level(u.left, d) == Data(Level(t.left, d)) && Level(u.right, d) == Data(Level(t.right, d))
    ensures Level(u, d + 1) == Data(Level(t, d + 1))
  {
    DataAppend(Level(t.left, d), Level(t.right, d));
  }

  lemma {:induction false} LabelsLevel(p: BTreeNode?, t: Shape, heap: set<BTreeNode>, d: nat)
    requires Links(p, t, heap)
    ensures Level(Labels(p, t, heap), d) == Data(Level(t, d))
    decreases t
  {
    if t.Empty? {
    } else if d == 0 {
      DataOfOne(t.value);
    } else {
      var e := d - 1;
      LabelsLevel(p.lChild, t.left, heap, e);
      LabelsLevel(p.rChild, t.right, heap, e);
      SameOneLevelDown(Labels(p, t, heap), t, e);
    }
  }

  lemma NextLevel<T>(t: Tree<T>, n: nat)
    ensures Levels(t, n + 1) == Levels(t, n) + Level(t, n)
  {
  }

  lemma SameOneLevelMore(u: Tree<char>, t: Shape, n: nat)
    requires Levels(u, n) == Data(Levels(t, n)) && Level(u, n) == Data(Level(t, n))
    ensures Levels(u, n + 1) == Data(Levels(t, n + 1))
  {
    NextLevel(u, n);
    NextLevel(t, n);
    DataAppend(Levels(t, n), Level(t, n));
  }

  lemma {:induction false} SameLevels(u: Tree<char>, t: Shape, n: nat)
    requires forall d: nat :: d < n ==> Level(u, d) == Data(Level(t, d))
    ensures Levels(u, n) == Data(Levels(t, n))
  {
    if n == 0 {
    } else {
      var m := n - 1;
      SameLevels(u, t, m);
      SameOneLevelMore(u, t, m);
    }
  }

  lemma LabelsLevels(p: BTreeNode?, t: Shape, heap: set<BTreeNode>, n: nat)
    requires Links(p, t, heap)
    ensures Levels(Labels(p, t, heap), n) == Data(Levels(t, n))
  {
    forall d: nat | d < n
      ensures Level(Labels(p, t, heap), d) == Data(Level(t, d))
    {
      LabelsLevel(p, t, heap, d);
    }
    SameLevels(Labels(p, t, heap), t, n);
  }

  // ----- the k-th largest search: reverse inorder, left subtrees still open -----

  ghost function ReverseRest(frames: seq<Shape>): seq<BTreeNode> {
    if frames == [] then []
    else
      var f := frames[|frames| - 1];
      (if f.Empty? then [] else [f.value] + ReverseMid(f.left)) + ReverseRest(frames[..|frames| - 1])
  }

  ghost function SearchWork(cur: Shape, frames: seq<Shape>): nat {
    if frames == [] then 2 * Size(cur)
    else
      var f := frames[|frames| - 1];
      SearchWork(cur, frames[..|frames| - 1]) + 1 + (if f.Empty? then 0 else 2 * Size(f.left))
  }

  ghost predicate ReverseOwes(visited: seq<BTreeNode>, cur: Shape, frames: seq<Shape>, t: Shape) {
    visited + (ReverseMid(cur) + ReverseRest(frames)) == ReverseMid(t)
  }

  lemma {:induction false} SearchWorkOfCurrent(a: Shape, b: Shape, frames: seq<Shape>)
    ensures SearchWork(a, frames) - 2 * Size(a) == SearchWork(b, frames) - 2 * Size(b)
  {
    if frames == [] {
    } else {
      SearchWorkOfCurrent(a, b, frames[..|frames| - 1]);
    }
  }

  lemma SearchPush(visited: seq<BTreeNode>, cur: Shape, frames: seq<Shape>, t: Shape)
    requires cur.Fork? && ReverseOwes(visited, cur, frames, t)
    ensures ReverseOwes(visited, cur.right, frames + [cur], t)
    ensures SearchWork(cur.right, frames + [cur]) < SearchWork(cur, frames)
  {
    assert (frames + [cur])[..|frames|] == frames;
    RestMoves(ReverseMid(cur.right), [cur.value], ReverseMid(cur.left), ReverseRest(frames));
    SearchWorkOfCurrent(cur, cur.right, frames);
  }

  lemma OwesNext<T>(visited: seq<T>, x: T, a: seq<T>, b: seq<T>, all: seq<T>)
    requires visited + ([] + ([x] + a + b)) == all
    ensures visited + [x] + (a + b) == all
    ensures |visited| < |all| && all[|visited|] == x
  {
    assert all == visited + [x] + (a + b);
  }

  lemma SearchPop(visited: seq<BTreeNode>, frames: seq<Shape>, t: Shape)
    requires frames != [] && frames[|frames| - 1].Fork? && ReverseOwes(visited, Empty, frames, t)
    ensures var f, rest := frames[|frames| - 1], frames[..|frames| - 1];
      && ReverseOwes(visited + [f.value], f.left, rest, t)
      && SearchWork(f.left, rest) < SearchWork(Empty, frames)
      && |visited| < |ReverseMid(t)| && ReverseMid(t)[|visited|] == f.value
  {
    var f, rest := frames[|frames| - 1], frames[..|frames| - 1];
    SearchWorkOfCurrent(Empty, f.left, rest);
    assert ReverseRest(frames) == [f.value] + ReverseMid(f.left) + ReverseRest(rest);
    OwesNext(visited, f.value, ReverseMid(f.left), ReverseRest(rest), ReverseMid(t));
  }

  ghost predicate SearchWalk(p: BTreeNode?, cur: Shape, stack: seq<BTreeNode>, frames: seq<Shape>,
                             visited: seq<BTreeNode>, t: Shape, heap: set<BTreeNode>)
    reads heap
  {
    Links(p, cur, heap) && Queued(stack, frames, heap) && ReverseOwes(visited, cur, frames, t)
  }

  lemma SearchDescend(p: BTreeNode, cur: Shape, stack: seq<BTreeNode>, frames: seq<Shape>,
                      visited: seq<BTreeNode>, t: Shape, heap: set<BTreeNode>)
    requires SearchWalk(p, cur, stack, frames, visited, t, heap)
    ensures SearchWalk(p.rChild, cur.right, stack + [p], frames + [cur], visited, t, heap)
    ensures SearchWork(cur.right, frames + [cur]) < SearchWork(cur, frames)
  {
    SearchPush(visited, cur, frames, t);
  }

  lemma SearchAscend(cur: Shape, stack: seq<BTreeNode>, frames: seq<Shape>,
                     visited: seq<BTreeNode>, t: Shape, heap: set<BTreeNode>)
    requires SearchWalk(null, cur, stack, frames, visited, t, heap) && stack != []
    ensures var q, f, rest := stack[|stack| - 1], frames[|frames| - 1], frames[..|frames| - 1];
      && SearchWalk(q.lChild, f.left, stack[..|stack| - 1], rest, visited + [q], t, heap)
      && SearchWork(f.left, rest) < SearchWork(cur, frames)
      && |visited| < |ReverseMid(t)| && ReverseMid(t)[|visited|] == q
  {
    SearchPop(visited, frames, t);
  }

  lemma SearchEnds(cur: Shape, visited: seq<BTreeNode>, t: Shape, heap: set<BTreeNode>)
    requires SearchWalk(null, cur, [], [], visited, t, heap)
    ensures |visited| == Size(t)
  {
    ReverseMidIsMidReversed(t);
  }

  // ----- building a tree from its text -----

  /** The characters still to be read from standard input. */
  class Input {
    var rest: string

    method Get() returns (c: char)
      requires rest != ""
      modifies this
      ensures [c] + rest == old(rest)
    {
      c := rest[0];
      rest := rest[1..];
    }
  }

  lemma {:induction false} LinksInLarger(p: BTreeNode?, t: Shape, small: set<BTreeNode>, large: set<BTreeNode>)
    requires Links(p, t, small) && small <= large
    ensures Links(p, t, large) && Labels(p, t, large) == Labels(p, t, small)
    ensures Elements(t) <= small
    decreases t
  {
    if t.Empty? {
    } else {
      LinksInLarger(p.lChild, t.left, small, large);
      LinksInLarger(p.rChild, t.right, small, large);
    }
  }

  /** The nodes made are exactly linked into a tree that stores d. */
  ghost predicate Built(p: BTreeNode?, t: Shape, made: set<BTreeNode>, d: Tree<char>)
    reads made
  {
    Links(p, t, made) && Distinct(t) && Labels(p, t, made) == d
  }

  lemma NewRoot(node: BTreeNode, tl: Shape, ml: set<BTreeNode>, dl: Tree<char>,
                tr: Shape, mr: set<BTreeNode>, dr: Tree<char>)
    requires Built(node.lChild, tl, ml, dl) && Built(node.rChild, tr, mr, dr)
    requires node !in ml && node !in mr && ml !! mr
    ensures Built(node, Fork(node, tl, tr), {node} + (ml + mr), Fork(node.data, dl, dr))
  {
    LinksInLarger(node.lChild, tl, ml, {node} + (ml + mr));
    LinksInLarger(node.rChild, tr, mr, {node} + (ml + mr));
  }

  /** Reads one tree. An empty tree leaves the link as it was; any other is built
      from new nodes only and stored in the link. */
  method Create(link: BTreeNode?, input: Input) returns (result: BTreeNode?, ghost t: Shape, ghost made: set<BTreeNode>)
    requires Decode(input.rest).Some?
    modifies input
    ensures input.rest == Decode(old(input.rest)).value.1 && fresh(made)
    ensures var d := Decode(old(input.rest)).value.0;
      if d.Empty? then result == link && t == Empty && made == {} else Built(result, t, made, d)
    ensures link == null ==> Built(result, t, made, Decode(old(input.rest)).value.0)
    ensures old(input.rest) == Pre(Extended(Decode(old(input.rest)).value.0)) + input.rest
    decreases |input.rest|, 0
  {
    DecodeReadsPreorder(input.rest);
    result, t, made := link, Empty, {};
    ghost var before := input.rest;
    var ch := input.Get();
    assert before[1..] == input.rest;
    if ch != '#' {
      var node := new BTreeNode(ch);
      ghost var below;
      t, below := CreateChildren(node, input);
      made := {node} + below;
      result := node;
    }
  }

  /** The two recursive reads of Create, each into a child link that is still null. */
  method CreateChildren(node: BTreeNode, input: Input) returns (ghost t: Shape, ghost below: set<BTreeNode>)
    requires node.lChild == null && node.rChild == null
    requires Decode(input.rest).Some? && Decode(Decode(input.rest).value.1).Some?
    modifies node, input
    ensures var l := Decode(old(input.rest)).value;
      var r := Decode(l.1).value;
      && input.rest == r.1 && Built(node, t, {node} + below, Fork(node.data, l.0, r.0))
    ensures fresh(below) && node.data == old(node.data)
    decreases |input.rest|, 1
  {
    ghost var dl := Decode(input.rest).value;
    ghost var dr := Decode(dl.1).value;
    ghost var tl, ml, tr, mr;
    var l, r;
    l, tl, ml := Create(node.lChild, input);
    node.lChild := l;
    r, tr, mr := Create(node.rChild, input);
    node.rChild := r;
    assert Built(l, tl, ml, dl.0) && Built(r, tr, mr, dr.0);
    NewRoot(node, tl, ml, dl.0, tr, mr, dr.0);
    t, below := Fork(node, tl, tr), ml + mr;
  }

  /** The child that the text names first hangs on the left link. */
  lemma ReadsLeftFirst(p: BTreeNode, t: Shape, heap: set<BTreeNode>, s: string)
    requires Links(p, t, heap) && Decode(s).Some? && Labels(p, t, heap) == Decode(s).value.0
    ensures |s| >= 7 && s[0] != '#' && s[1] != '#' && s[2..4] == "##" && s[4] != '#' && s[5..7] == "##" ==>
              p.data == s[0] && p.lChild != null && p.lChild.data == s[1]
              && p.rChild != null && p.rChild.data == s[4]
    ensures |s| >= 5 && s[0] != '#' && s[1] != '#' && s[2..5] == "###" ==>
              p.data == s[0] && p.lChild != null && p.lChild.data == s[1] && p.rChild == null
  {
    if |s| >= 7 && s[0] != '#' && s[1] != '#' && s[2..4] == "##" && s[4] != '#' && s[5..7] == "##" {
      assert s == [s[0], s[1]] + s[2..4] + [s[4]] + s[5..7] + s[7..];
      assert s == [s[0], s[1], '#', '#', s[4], '#', '#'] + s[7..];
      ChildrenSpelledOut(s[0], s[1], s[4], s[7..]);
    }
    if |s| >= 5 && s[0] != '#' && s[1] != '#' && s[2..5] == "###" {
      assert s == [s[0], s[1]] + s[2..5] + s[5..];
      assert s == [s[0], s[1], '#', '#', '#'] + s[5..];
      LoneChildSpelledOut(s[0], s[1], s[5..]);
    }
  }

  // ----- the tree -----

  class BTree {
    var root: BTreeNode?
    ghost var shape: Shape
    ghost var nodes: set<BTreeNode>

    ghost predicate Valid()
      reads this, nodes
    {
      Links(root, shape, nodes) && Distinct(shape)
    }

    /** The characters of the tree, in their places. */
    ghost function Text(): Tree<char>
      requires Valid()
      reads this, nodes
    {
      Labels(root, shape, nodes)
    }

    constructor ()
      ensures Valid() && shape == Empty
    {
      root := null;
      shape := Empty;
      nodes := {};
    }

    // ----- recursive traversals, as the text they print -----

    function PreOrderOutput(node: BTreeNode?, ghost t: Shape): (out: string)
      requires Links(node, t, nodes)
      reads this, nodes
      ensures out == Pre(Labels(node, t, nodes))
      decreases t
    {
      if node == null then ""
      else [node.data] + PreOrderOutput(node.lChild, t.left) + PreOrderOutput(node.rChild, t.right)
    }

    function MidOrderOutput(node: BTreeNode?, ghost t: Shape): (out: string)
      requires Links(node, t, nodes)
      reads this, nodes
      ensures out == Mid(Labels(node, t, nodes))
      decreases t
    {
      if node == null then ""
      else MidOrderOutput(node.lChild, t.left) + [node.data] + MidOrderOutput(node.rChild, t.right)
    }

    function PostOrderOutput(node: BTreeNode?, ghost t: Shape): (out: string)
      requires Links(node, t, nodes)
      reads this, nodes
      ensures out == Post(Labels(node, t, nodes))
      decreases t
    {
      if node == null then ""
      else PostOrderOutput(node.lChild, t.left) + PostOrderOutput(node.rChild, t.right) + [node.data]
    }

    // ----- size and depth -----

    function GetBtreeDepth(node: BTreeNode?, ghost t: Shape): (depth: nat)
      requires Links(node, t, nodes)
      reads this, nodes
      ensures forall d: nat :: Level(t, d) != [] <==> d < depth
      ensures depth == Depth(t)
      decreases t
    {
      LevelsByDepth(t);
      if node != null then
        var leftDepth := GetBtreeDepth(node.lChild, t.left);
        var rightDepth := GetBtreeDepth(node.rChild, t.right);
        (if leftDepth > rightDepth then leftDepth else rightDepth) + 1
      else 0
    }

    function GetNodeNum(node: BTreeNode?, ghost t: Shape): (n: nat)
      requires Links(node, t, nodes)
      reads this, nodes
      ensures n == Size(t) == |Pre(t)|
      decreases t
    {
      if node == null then 0
      else 1 + GetNodeNum(node.lChild, t.left) + GetNodeNum(node.rChild, t.right)
    }

    // ----- iterative traversals -----

    /** The inner loop of PreOrder: the left spine below p is printed and goes onto the
        stack. */
    method PrintLeft(p0: BTreeNode?, stack0: seq<BTreeNode>, out0: string,
                     ghost cur0: Shape, ghost frames0: seq<Frame>, ghost visited0: seq<BTreeNode>)
      returns (stack: seq<BTreeNode>, out: string,
               ghost cur: Shape, ghost frames: seq<Frame>, ghost visited: seq<BTreeNode>)
      requires PreWalk(p0, cur0, stack0, frames0, visited0, out0, shape, nodes)
      requires p0 != null || stack0 != []
      ensures PreWalk(null, cur, stack, frames, visited, out, shape, nodes)
      ensures Work(cur, frames) == Work(cur0, frames0) && stack != []
    {
      var p := p0;
      stack, out, cur, frames, visited := stack0, out0, cur0, frames0, visited0;
      while p != null
        invariant PreWalk(p, cur, stack, frames, visited, out, shape, nodes)
        invariant Work(cur, frames) == Work(cur0, frames0) && (p == null ==> stack != [])
        decreases cur
      {
        PreDescend(p, cur, stack, frames, visited, out, shape, nodes);
        out := out + [p.data];
        visited := visited + [p];
        stack := stack + [p];
        p := p.lChild;
        cur, frames := cur.left, Push(cur, frames);
      }
    }

    method PreOrder() returns (out: string)
      requires Valid()
      ensures out == PreOrderOutput(root, shape)
    {
      out := "";
      var p := root;
      var stack: seq<BTreeNode> := [];
      ghost var cur, frames: seq<Frame> := shape, [];
      ghost var visited: seq<BTreeNode> := [];
      assert visited + (Pre(cur) + PreRest(frames)) == Pre(shape);
      while p != null || stack != []
        invariant PreWalk(p, cur, stack, frames, visited, out, shape, nodes)
        decreases Work(cur, frames)
      {
        stack, out, cur, frames, visited := PrintLeft(p, stack, out, cur, frames, visited);
        PreAscend(cur, stack, frames, visited, out, shape, nodes);
        p := stack[|stack| - 1];
        stack := stack[..|stack| - 1];
        p := p.rChild;
        cur, frames := Open(frames[|frames| - 1]), frames[..|frames| - 1];
      }
      assert visited == Pre(shape);
      LabelsTraversals(root, shape, nodes);
    }

    /** The inner loop of MidOrder: the left spine below p goes onto the stack. */
    method StackLeft(p0: BTreeNode?, stack0: seq<BTreeNode>, ghost cur0: Shape, ghost frames0: seq<Frame>,
                     ghost visited: seq<BTreeNode>, ghost out: string)
      returns (stack: seq<BTreeNode>, ghost cur: Shape, ghost frames: seq<Frame>)
      requires MidWalk(p0, cur0, stack0, frames0, visited, out, shape, nodes)
      requires p0 != null || stack0 != []
      ensures MidWalk(null, cur, stack, frames, visited, out, shape, nodes)
      ensures Work(cur, frames) == Work(cur0, frames0) && stack != []
    {
      var p := p0;
      stack, cur, frames := stack0, cur0, frames0;
      while p != null
        invariant MidWalk(p, cur, stack, frames, visited, out, shape, nodes)
        invariant Work(cur, frames) == Work(cur0, frames0) && (p == null ==> stack != [])
        decreases cur
      {
        MidDescend(p, cur, stack, frames, visited, out, shape, nodes);
        stack := stack + [p];
        p := p.lChild;
        cur, frames := cur.left, Push(cur, frames);
      }
    }

    method MidOrder() returns (out: string)
      requires Valid()
      ensures out == MidOrderOutput(root, shape)
    {
      out := "";
      var p := root;
      var stack: seq<BTreeNode> := [];
      ghost var cur, frames: seq<Frame> := shape, [];
      ghost var visited: seq<BTreeNode> := [];
      assert visited + (Mid(cur) + MidRest(frames)) == Mid(shape);
      while p != null || stack != []
        invariant MidWalk(p, cur, stack, frames, visited, out, shape, nodes)
        decreases Work(cur, frames)
      {
        stack, cur, frames := StackLeft(p, stack, cur, frames, visited, out);
        MidAscend(cur, stack, frames, visited, out, shape, nodes);
        p := stack[|stack| - 1];
        out := out + [p.data];
        visited := visited + [p];
        stack := stack[..|stack| - 1];
        p := p.rChild;
        cur, frames := Open(frames[|frames| - 1]), frames[..|frames| - 1];
      }
      assert visited == Mid(shape);
      LabelsTraversals(root, shape, nodes);
    }

    /** The inner loop of PostOrder: the left spine below p goes onto the stack. */
    method PushLeft(p0: BTreeNode?, ghost last: BTreeNode?, stack0: seq<BTreeNode>, ghost cur0: Shape,
                    ghost frames0: seq<Frame>, ghost visited: seq<BTreeNode>, ghost out: string)
      returns (stack: seq<BTreeNode>, ghost cur: Shape, ghost frames: seq<Frame>)
      requires PostWalk(p0, last, cur0, stack0, frames0, visited, out, shape, nodes)
      requires p0 != null || stack0 != []
      ensures PostWalk(null, last, cur, stack, frames, visited, out, shape, nodes)
      ensures Work(cur, frames) == Work(cur0, frames0) && stack != []
    {
      var p := p0;
      stack, cur, frames := stack0, cur0, frames0;
      while p != null
        invariant PostWalk(p, last, cur, stack, frames, visited, out, shape, nodes)
        invariant Work(cur, frames) == Work(cur0, frames0) && (p == null ==> stack != [])
        decreases cur
      {
        PostDescend(p, last, cur, stack, frames, visited, out, shape, nodes);
        stack := stack + [p];
        p := p.lChild;
        cur, frames := cur.left, Push(cur, frames);
      }
    }

    /** The rest of a round of PostOrder: the top node is printed and taken off if its right
        subtree is done, which the node printed last tells; otherwise that is walked. */
    method PrintOrEnter(last0: BTreeNode?, stack0: seq<BTreeNode>, out0: string,
                        ghost cur0: Shape, ghost frames0: seq<Frame>, ghost visited0: seq<BTreeNode>)
      returns (p: BTreeNode?, last: BTreeNode?, stack: seq<BTreeNode>, out: string,
               ghost cur: Shape, ghost frames: seq<Frame>, ghost visited: seq<BTreeNode>)
      requires PostWalk(null, last0, cur0, stack0, frames0, visited0, out0, shape, nodes)
      requires stack0 != [] && Distinct(shape)
      ensures PostWalk(p, last, cur, stack, frames, visited, out, shape, nodes)
      ensures Work(cur, frames) < Work(cur0, frames0)
    {
      last, stack, out, frames, visited := last0, stack0, out0, frames0, visited0;
      SecondReturnIff(last, cur0, stack, frames, visited, out, shape, nodes);
      p := stack[|stack| - 1];
      if p.rChild == null || last == p.rChild {
        PostAscend(last, cur0, stack, frames, visited, out, shape, nodes);
        out := out + [p.data];
        visited := visited + [p];
        last := p;
        stack := stack[..|stack| - 1];
        p := null;
        cur, frames := Empty, frames[..|frames| - 1];
      } else {
        PostEnter(last, cur0, stack, frames, visited, out, shape, nodes);
        p := p.rChild;
        cur, frames := Open(frames[|frames| - 1]), Enter(frames);
      }
    }

    method PostOrder() returns (out: string)
      requires Valid()
      ensures out == PostOrderOutput(root, shape)
    {
      out := "";
      var p := root;
      var last: BTreeNode? := null;
      var stack: seq<BTreeNode> := [];
      ghost var cur, frames: seq<Frame> := shape, [];
      ghost var visited: seq<BTreeNode> := [];
      assert visited + (Post(cur) + PostRest(frames)) == Post(shape);
      while p != null || stack != []
        invariant PostWalk(p, last, cur, stack, frames, visited, out, shape, nodes)
        decreases Work(cur, frames)
      {
        stack, cur, frames := PushLeft(p, last, stack, cur, frames, visited, out);
        p := null;
        if stack != [] {
          p, last, stack, out, cur, frames, visited := PrintOrEnter(last, stack, out, cur, frames, visited);
        }
      }
      assert visited == Post(shape);
      LabelsTraversals(root, shape, nodes);
    }

    /** Queues the children of the front node and takes it off. */
    static method Advance(queue: seq<BTreeNode>) returns (next: seq<BTreeNode>)
      requires queue != []
      ensures next == NextQueue(queue)
    {
      next := queue;
      var temp := next[0];
      if temp.lChild != null {
        next := next + [temp.lChild];
      }
      if temp.rChild != null {
        next := next + [temp.rChild];
      }
      next := next[1..];
    }

    /** The loop of LayerOrder. */
    method PrintQueue() returns (out: string)
      requires Valid() && root != null
      ensures out == Data(BreadthFirst([shape]))
    {
      out := "";
      ghost var visited: seq<BTreeNode> := [];
      var queue: seq<BTreeNode> := [root];
      ghost var forest := [shape];
      while queue != []
        invariant LayerWalk(queue, forest, visited, out, shape, nodes)
        decreases TotalSize(forest)
      {
        LayerStep(queue, forest, visited, out, shape, nodes);
        var temp := queue[0];
        out := out + [temp.data];
        queue := Advance(queue);
        visited := visited + [temp];
        forest := forest[1..] + Children(forest[0]);
      }
      assert visited == BreadthFirst([shape]);
    }

    /** Prints the levels one after the other, the root first, each level from left to
        right: in the order of its characters in the inorder output. */
    method LayerOrder() returns (out: string)
      requires Valid()
      ensures out == Data(Levels(shape, GetBtreeDepth(root, shape)))
      ensures |out| == GetNodeNum(root, shape)
      ensures out == Levels(Text(), GetBtreeDepth(root, shape))
      ensures root != null ==> out != "" && out[0] == root.data
      ensures forall d: nat :: Subsequence(Level(Text(), d), MidOrderOutput(root, shape))
    {
      if root == null {
        out := "";
      } else {
        out := PrintQueue();
      }
      LayerText(shape);
      LabelsLevels(root, shape, nodes, GetBtreeDepth(root, shape));
      LevelsFromTop(Text(), 0, GetBtreeDepth(root, shape));
      forall d: nat
        ensures Subsequence(Level(Text(), d), MidOrderOutput(root, shape))
      {
        LevelFollowsMid(Text(), d);
      }
    }

    ghost predicate IsKthFromEnd(r: BTreeNode?, k: int)
      reads this
    {
      r != null && 1 <= k <= |Mid(shape)| && r == Mid(shape)[|Mid(shape)| - k]
    }

    lemma KthNode(k: int, p: BTreeNode)
      requires Valid() && 1 <= k <= |ReverseMid(shape)| && p == ReverseMid(shape)[k - 1]
      ensures IsKthFromEnd(p, k)
      ensures SearchTree(Text()) ==> IsKthLargest(Pre(Text()), k, p.data)
    {
      ReverseMidIsMidReversed(shape);
      if SearchTree(Text()) {
        LabelsTraversals(root, shape, nodes);
        KthLargestOfSearchTree(Text(), k);
        DataAt(ReverseMid(shape), k - 1);
      }
    }

    /** The k-th node from the far end of the inorder sequence; in a search tree the
        k-th largest. Other values of k make the C++ code run off its end. */
    method GetMaxKValue(k: int) returns (r: BTreeNode?)
      requires Valid()
      requires root != null ==> 1 <= k <= GetNodeNum(root, shape)
      ensures root == null ==> r == null
      ensures root != null ==> IsKthFromEnd(r, k)
      ensures root != null && SearchTree(Text()) ==> IsKthLargest(Pre(Text()), k, r.data)
    {
      var p := root;
      if p == null {
        return null;
      }
      var value := k;
      var stack: seq<BTreeNode> := [];
      ghost var cur, frames: seq<Shape> := shape, [];
      ghost var visited: seq<BTreeNode> := [];
      assert visited + (ReverseMid(cur) + ReverseRest(frames)) == ReverseMid(shape);
      while stack != [] || p != null
        invariant SearchWalk(p, cur, stack, frames, visited, shape, nodes)
        invariant value == k - |visited| >= 1
        decreases SearchWork(cur, frames)
      {
        if p != null {
          SearchDescend(p, cur, stack, frames, visited, shape, nodes);
          stack := stack + [p];
          p := p.rChild;
          cur, frames := cur.right, frames + [cur];
        } else {
          SearchAscend(cur, stack, frames, visited, shape, nodes);
          p := stack[|stack| - 1];
          value := value - 1;
          if value == 0 {
            KthNode(k, p);
            return p;
          }
          visited := visited + [p];
          p := p.lChild;
          stack := stack[..|stack| - 1];
          cur, frames := frames[|frames| - 1].left, frames[..|frames| - 1];
        }
      }
      SearchEnds(cur, visited, shape, nodes);
      assert false;
      return null;
    }

    /** Reads a tree from the input into the root; reading the empty tree keeps the
        old one. */
    method CreateBTree(input: Input)
      requires Valid() && Decode(input.rest).Some?
      modifies this, input
      ensures Valid()
      ensures input.rest == Decode(old(input.rest)).value.1
      ensures Decode(old(input.rest)).value.0.Fork? ==> fresh(nodes) && Text() == Decode(old(input.rest)).value.0
      ensures Decode(old(input.rest)).value.0.Empty? ==>
                root == old(root) && shape == old(shape) && nodes == old(nodes)
      ensures old(input.rest) != ""
      ensures old(input.rest)[0] != '#' ==> fresh(nodes) && old(input.rest) == Pre(Extended(Text())) + input.rest
      ensures old(input.rest)[0] == '#' ==> root == old(root) && old(input.rest) == "#" + input.rest
      ensures var s := old(input.rest);
        |s| >= 7 && s[0] != '#' && s[1] != '#' && s[2..4] == "##" && s[4] != '#' && s[5..7] == "##" ==>
          root != null && root.data == s[0]
          && root.lChild != null && root.lChild.data == s[1]
          && root.rChild != null && root.rChild.data == s[4]
      ensures var s := old(input.rest);
        |s| >= 5 && s[0] != '#' && s[1] != '#' && s[2..5] == "###" ==>
          root != null && root.data == s[0]
          && root.lChild != null && root.lChild.data == s[1] && root.rChild == null
    {
      ghost var t, made;
      var r;
      r, t, made := Create(root, input);
      root := r;
      if t.Fork? {
        shape, nodes := t, made;
        ReadsLeftFirst(root, shape, nodes, old(input.rest));
      }
    }
  }
}

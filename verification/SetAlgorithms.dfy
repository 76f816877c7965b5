/** Set operations on sorted ranges with duplicates (ISO/IEC 14882:2011, section
    25.4.5). Items are compared by key only; the tag stands for everything else, so
    that it shows which range an item was copied from. */
module SetAlgorithms {

  datatype Item = Item(key: int, tag: int)

  predicate SortedByKey(s: seq<Item>) {
    forall i, j :: 0 <= i < j < |s| ==> s[i].key <= s[j].key
  }

  /** What an operation copies: items found in the first range only, in the second
      only, and the first range's item of an equal pair. */
  datatype Mode = Mode(fromFirst: bool, fromSecond: bool, fromBoth: bool)

  const UNION := Mode(true, true, true)
  const INTERSECTION := Mode(false, false, true)
  const DIFFERENCE := Mode(true, false, false)
  const SYMMETRIC := Mode(true, true, false)

  function Emit(yes: bool, x: Item, s: seq<Item>): seq<Item> {
    if yes then [x] + s else s
  }

  /** The output on a from i on and b from j on. */
  function Combine(a: seq<Item>, i: nat, b: seq<Item>, j: nat, m: Mode): seq<Item>
    requires i <= |a| && j <= |b|
    decreases |a| - i + |b| - j
  {
    if i == |a| && j == |b| then []
    else if j == |b| || (i < |a| && a[i].key < b[j].key) then Emit(m.fromFirst, a[i], Combine(a, i + 1, b, j, m))
    else if i == |a| || b[j].key < a[i].key then Emit(m.fromSecond, b[j], Combine(a, i, b, j + 1, m))
    else Emit(m.fromBoth, a[i], Combine(a, i + 1, b, j + 1, m))
  }

  // ----- the standard's promise, key by key -----

  /** From i on, the items with key k, in order. */
  function Of(k: int, s: seq<Item>, i: nat): seq<Item>
    requires i <= |s|
    decreases |s| - i
  {
    if i == |s| then [] else Emit(s[i].key == k, s[i], Of(k, s, i + 1))
  }

  function Take(s: seq<Item>, n: nat): seq<Item> {
    if n < |s| then s[..n] else s
  }

  function Drop(s: seq<Item>, n: nat): seq<Item> {
    if n < |s| then s[n..] else []
  }

  lemma {:induction false} OfShift(k: int, a: seq<Item>, s: seq<Item>, i: nat)
    requires i <= |s|
    ensures Of(k, a + s, |a| + i) == Of(k, s, i)
    decreases |s| - i
  {
    if i == |s| {
    } else {
      OfShift(k, a, s, i + 1);
    }
  }

  lemma OfEmit(k: int, yes: bool, x: Item, s: seq<Item>)
    ensures Of(k, Emit(yes, x, s), 0) == Emit(yes && x.key == k, x, Of(k, s, 0))
  {
    if yes {
      OfShift(k, [x], s, 0);
    }
  }

  lemma {:induction false} NoneAhead(k: int, s: seq<Item>, i: nat)
    requires SortedByKey(s) && i <= |s| && (i < |s| ==> s[i].key > k)
    ensures Of(k, s, i) == []
    decreases |s| - i
  {
    if i == |s| {
    } else {
      assert i + 1 < |s| ==> s[i].key <= s[i + 1].key;
      NoneAhead(k, s, i + 1);
    }
  }

  /** Of the p items with key k in the first range and the q in the second: as a pair
      the first min(p, q) of the first range, alone the last p - q of the first range
      or the last q - p of the second. */
  function Promise(p: seq<Item>, q: seq<Item>, m: Mode): seq<Item> {
    (if m.fromBoth then Take(p, |q|) else [])
    + (if m.fromFirst then Drop(p, |q|) else [])
    + (if m.fromSecond then Drop(q, |p|) else [])
  }

  /** Against no items of the other range. */
  lemma PromiseAgainstNone(s: seq<Item>, m: Mode)
    ensures Promise(s, [], m) == if m.fromFirst then s else []
    ensures Promise([], s, m) == if m.fromSecond then s else []
  {
    assert Take(s, 0) == [] && Drop(s, 0) == s;
    assert Take([], |s|) == [] && Drop([], |s|) == [];
  }

  lemma PromiseAlone(x: Item, s: seq<Item>, m: Mode)
    ensures Promise([x] + s, [], m) == Emit(m.fromFirst, x, Promise(s, [], m))
    ensures Promise([], [x] + s, m) == Emit(m.fromSecond, x, Promise([], s, m))
  {
    PromiseAgainstNone(s, m);
    PromiseAgainstNone([x] + s, m);
  }

  lemma TakeAndDropPair(x: Item, p: seq<Item>, y: Item, q: seq<Item>)
    ensures Take([x] + p, |[y] + q|) == [x] + Take(p, |q|)
    ensures Drop([x] + p, |[y] + q|) == Drop(p, |q|) && Drop([y] + q, |[x] + p|) == Drop(q, |p|)
  {
  }

  lemma EmitAssociates(yes: bool, x: Item, a: seq<Item>, b: seq<Item>, c: seq<Item>)
    ensures (if yes then [x] + a else []) + b + c == Emit(yes, x, (if yes then a else []) + b + c)
  {
  }

  lemma PromisePair(x: Item, p: seq<Item>, y: Item, q: seq<Item>, m: Mode)
    ensures Promise([x] + p, [y] + q, m) == Emit(m.fromBoth, x, Promise(p, q, m))
  {
    TakeAndDropPair(x, p, y, q);
    EmitAssociates(m.fromBoth, x, Take(p, |q|), if m.fromFirst then Drop(p, |q|) else [],
                   if m.fromSecond then Drop(q, |p|) else []);
  }

  /** An item of the first range that is smaller than all that is left of the second. */
  lemma PromiseFirst(a: seq<Item>, i: nat, b: seq<Item>, j: nat, m: Mode, k: int, rest: seq<Item>)
    requires SortedByKey(b) && i < |a| && j <= |b| && (j < |b| ==> a[i].key < b[j].key)
    requires Of(k, rest, 0) == Promise(Of(k, a, i + 1), Of(k, b, j), m)
    ensures Of(k, Emit(m.fromFirst, a[i], rest), 0) == Promise(Of(k, a, i), Of(k, b, j), m)
  {
    OfEmit(k, m.fromFirst, a[i], rest);
    if a[i].key == k {
      NoneAhead(k, b, j);
      PromiseAlone(a[i], Of(k, a, i + 1), m);
    }
  }

  lemma PromiseSecond(a: seq<Item>, i: nat, b: seq<Item>, j: nat, m: Mode, k: int, rest: seq<Item>)
    requires SortedByKey(a) && i <= |a| && j < |b| && (i < |a| ==> b[j].key < a[i].key)
    requires Of(k, rest, 0) == Promise(Of(k, a, i), Of(k, b, j + 1), m)
    ensures Of(k, Emit(m.fromSecond, b[j], rest), 0) == Promise(Of(k, a, i), Of(k, b, j), m)
  {
    OfEmit(k, m.fromSecond, b[j], rest);
    if b[j].key == k {
      NoneAhead(k, a, i);
      PromiseAlone(b[j], Of(k, b, j + 1), m);
    }
  }

  lemma PromiseBoth(a: seq<Item>, i: nat, b: seq<Item>, j: nat, m: Mode, k: int, rest: seq<Item>)
    requires i < |a| && j < |b| && a[i].key == b[j].key
    requires Of(k, rest, 0) == Promise(Of(k, a, i + 1), Of(k, b, j + 1), m)
    ensures Of(k, Emit(m.fromBoth, a[i], rest), 0) == Promise(Of(k, a, i), Of(k, b, j), m)
  {
    OfEmit(k, m.fromBoth, a[i], rest);
    if a[i].key == k {
      PromisePair(a[i], Of(k, a, i + 1), b[j], Of(k, b, j + 1), m);
    }
  }

  lemma {:induction false} KeepsPromise(a: seq<Item>, i: nat, b: seq<Item>, j: nat, m: Mode, k: int)
    requires SortedByKey(a) && SortedByKey(b) && i <= |a| && j <= |b|
    ensures Of(k, Combine(a, i, b, j, m), 0) == Promise(Of(k, a, i), Of(k, b, j), m)
    decreases |a| - i + |b| - j
  {
    if i == |a| && j == |b| {
    } else if j == |b| || (i < |a| && a[i].key < b[j].key) {
      KeepsPromise(a, i + 1, b, j, m, k);
      PromiseFirst(a, i, b, j, m, k, Combine(a, i + 1, b, j, m));
    } else if i == |a| || b[j].key < a[i].key {
      KeepsPromise(a, i, b, j + 1, m, k);
      PromiseSecond(a, i, b, j, m, k, Combine(a, i, b, j + 1, m));
    } else {
      KeepsPromise(a, i + 1, b, j + 1, m, k);
      PromiseBoth(a, i, b, j, m, k, Combine(a, i + 1, b, j + 1, m));
    }
  }

  /** How often a key occurs. */
  function Multiplicity(k: int, s: seq<Item>): nat {
    |Of(k, s, 0)|
  }

  /** Of lists the items with the key as often as they occur, and no others. */
  lemma {:induction false} OfListsAll(k: int, s: seq<Item>, i: nat, x: Item)
    requires i <= |s|
    ensures multiset(Of(k, s, i))[x] == if x.key == k then multiset(s[i..])[x] else 0
    decreases |s| - i
  {
    if i == |s| {
    } else {
      OfListsAll(k, s, i + 1, x);
      assert s[i..] == [s[i]] + s[i + 1..];
    }
  }

  lemma PromiseOfModes(p: seq<Item>, q: seq<Item>)
    ensures Promise(p, q, UNION) == p + (if |p| < |q| then q[|p|..] else [])
    ensures Promise(p, q, INTERSECTION) == if |q| < |p| then p[..|q|] else p
    ensures Promise(p, q, DIFFERENCE) == if |q| < |p| then p[|q|..] else []
    ensures Promise(p, q, SYMMETRIC) == if |q| < |p| then p[|q|..] else q[|p|..]
  {
    assert Take(p, |q|) + Drop(p, |q|) == p;
    assert |p| == |q| ==> q[|p|..] == [];
  }

  /** With p items of the key in the first range and q in the second, items of a pair come
      from the first range, and those left over are the last ones of the longer list. */
  lemma PromisesSpelledOut(a: seq<Item>, b: seq<Item>, k: int)
    requires SortedByKey(a) && SortedByKey(b)
    ensures var p, q := Of(k, a, 0), Of(k, b, 0);
      && Of(k, Combine(a, 0, b, 0, UNION), 0) == p + (if |p| < |q| then q[|p|..] else [])
      && Of(k, Combine(a, 0, b, 0, INTERSECTION), 0) == (if |q| < |p| then p[..|q|] else p)
      && Of(k, Combine(a, 0, b, 0, DIFFERENCE), 0) == (if |q| < |p| then p[|q|..] else [])
      && Of(k, Combine(a, 0, b, 0, SYMMETRIC), 0) == (if |q| < |p| then p[|q|..] else q[|p|..])
  {
    KeepsPromise(a, 0, b, 0, UNION, k);
    KeepsPromise(a, 0, b, 0, INTERSECTION, k);
    KeepsPromise(a, 0, b, 0, DIFFERENCE, k);
    KeepsPromise(a, 0, b, 0, SYMMETRIC, k);
    PromiseOfModes(Of(k, a, 0), Of(k, b, 0));
  }

  /** The multiplicities of the four results: the larger, the smaller, the difference cut
      off at zero, and the distance of the two. */
  lemma Multiplicities(a: seq<Item>, b: seq<Item>, k: int)
    requires SortedByKey(a) && SortedByKey(b)
    ensures var p, q := Multiplicity(k, a), Multiplicity(k, b);
      && Multiplicity(k, Combine(a, 0, b, 0, UNION)) == (if p < q then q else p)
      && Multiplicity(k, Combine(a, 0, b, 0, INTERSECTION)) == (if p < q then p else q)
      && Multiplicity(k, Combine(a, 0, b, 0, DIFFERENCE)) == (if p < q then 0 else p - q)
      && Multiplicity(k, Combine(a, 0, b, 0, SYMMETRIC)) == (if p < q then q - p else p - q)
  {
    PromisesSpelledOut(a, b, k);
  }

  // ----- sortedness and length -----

  lemma {:induction false} OfHead(s: seq<Item>, k: int, i: nat)
    requires SortedByKey(s) && i <= |s| && Of(k, s, i) != []
    ensures s[i].key <= k
    ensures s[i].key == k ==> Of(k, s, i)[0] == s[i]
    decreases |s| - i
  {
    if s[i].key == k {
    } else {
      OfHead(s, k, i + 1);
      assert s[i].key <= s[i + 1].key;
    }
  }

  ghost predicate SameOf(s: seq<Item>, i: nat, t: seq<Item>, j: nat)
    requires i <= |s| && j <= |t|
  {
    forall k: int {:trigger Of(k, s, i)} {:trigger Of(k, t, j)} :: Of(k, s, i) == Of(k, t, j)
  }

  /** Order and the promise for every key leave no choice: they determine the result. */
  lemma {:induction false} ResultIsUnique(s: seq<Item>, i: nat, t: seq<Item>, j: nat)
    requires SortedByKey(s) && SortedByKey(t) && i <= |s| && j <= |t|
    requires SameOf(s, i, t, j)
    ensures s[i..] == t[j..]
    decreases |s| - i + |t| - j
  {
    if i < |s| {
      OfHead(t, s[i].key, j);
    }
    if j < |t| {
      OfHead(s, t[j].key, i);
    }
    if i < |s| && j < |t| {
      assert s[i] == t[j];
      var i', j' := i + 1, j + 1;
      forall k: int {:trigger Of(k, s, i')}
        ensures Of(k, s, i') == Of(k, t, j')
      {
        assert Of(k, s, i) == Of(k, t, j);
        if s[i].key == k {
          assert Of(k, s, i)[1..] == Of(k, s, i') && Of(k, t, j)[1..] == Of(k, t, j');
        }
      }
      ResultIsUnique(s, i', t, j');
    }
  }

  predicate AtLeast(s: seq<Item>, i: nat, k: int) {
    forall t :: i <= t < |s| ==> k <= s[t].key
  }

  lemma {:induction false} CombineAtLeast(a: seq<Item>, i: nat, b: seq<Item>, j: nat, m: Mode, k: int)
    requires i <= |a| && j <= |b| && AtLeast(a, i, k) && AtLeast(b, j, k)
    ensures AtLeast(Combine(a, i, b, j, m), 0, k)
    decreases |a| - i + |b| - j
  {
    if i == |a| && j == |b| {
    } else if j == |b| || (i < |a| && a[i].key < b[j].key) {
      CombineAtLeast(a, i + 1, b, j, m, k);
    } else if i == |a| || b[j].key < a[i].key {
      CombineAtLeast(a, i, b, j + 1, m, k);
    } else {
      CombineAtLeast(a, i + 1, b, j + 1, m, k);
    }
  }

  lemma EmitSorted(yes: bool, x: Item, s: seq<Item>)
    requires SortedByKey(s) && AtLeast(s, 0, x.key)
    ensures SortedByKey(Emit(yes, x, s))
  {
  }

  lemma SuffixAtLeast(s: seq<Item>, i: nat, k: int)
    requires SortedByKey(s) && i <= |s| && (i < |s| ==> k <= s[i].key)
    ensures AtLeast(s, i, k)
    ensures i < |s| ==> AtLeast(s, i + 1, k)
  {
  }

  /** All four operations keep the order. */
  lemma {:induction false} CombineIsSorted(a: seq<Item>, i: nat, b: seq<Item>, j: nat, m: Mode)
    requires SortedByKey(a) && SortedByKey(b) && i <= |a| && j <= |b|
    ensures SortedByKey(Combine(a, i, b, j, m))
    decreases |a| - i + |b| - j
  {
    if i == |a| && j == |b| {
    } else if j == |b| || (i < |a| && a[i].key < b[j].key) {
      CombineIsSorted(a, i + 1, b, j, m);
      SuffixAtLeast(a, i, a[i].key);
      SuffixAtLeast(b, j, a[i].key);
      CombineAtLeast(a, i + 1, b, j, m, a[i].key);
      EmitSorted(m.fromFirst, a[i], Combine(a, i + 1, b, j, m));
    } else if i == |a| || b[j].key < a[i].key {
      CombineIsSorted(a, i, b, j + 1, m);
      SuffixAtLeast(a, i, b[j].key);
      SuffixAtLeast(b, j, b[j].key);
      CombineAtLeast(a, i, b, j + 1, m, b[j].key);
      EmitSorted(m.fromSecond, b[j], Combine(a, i, b, j + 1, m));
    } else {
      CombineIsSorted(a, i + 1, b, j + 1, m);
      SuffixAtLeast(a, i, a[i].key);
      SuffixAtLeast(b, j, a[i].key);
      CombineAtLeast(a, i + 1, b, j + 1, m, a[i].key);
      EmitSorted(m.fromBoth, a[i], Combine(a, i + 1, b, j + 1, m));
    }
  }

  /** How many equal pairs the walk along both ranges meets. */
  function Pairs(a: seq<Item>, i: nat, b: seq<Item>, j: nat): nat
    requires i <= |a| && j <= |b|
    decreases |a| - i + |b| - j
  {
    if i == |a| || j == |b| then 0
    else if a[i].key < b[j].key then Pairs(a, i + 1, b, j)
    else if b[j].key < a[i].key then Pairs(a, i, b, j + 1)
    else 1 + Pairs(a, i + 1, b, j + 1)
  }

  lemma {:induction false} CombineLength(a: seq<Item>, i: nat, b: seq<Item>, j: nat, m: Mode)
    requires i <= |a| && j <= |b|
    ensures var n := Pairs(a, i, b, j);
      |Combine(a, i, b, j, m)| ==
      (if m.fromFirst then |a| - i - n else 0) + (if m.fromSecond then |b| - j - n else 0)
      + (if m.fromBoth then n else 0)
    decreases |a| - i + |b| - j
  {
    if i == |a| && j == |b| {
    } else if j == |b| || (i < |a| && a[i].key < b[j].key) {
      CombineLength(a, i + 1, b, j, m);
    } else if i == |a| || b[j].key < a[i].key {
      CombineLength(a, i, b, j + 1, m);
    } else {
      CombineLength(a, i + 1, b, j + 1, m);
    }
  }

  /** Conservation of length, on sorted ranges and unsorted ones alike. */
  lemma Lengths(a: seq<Item>, b: seq<Item>)
    ensures |Combine(a, 0, b, 0, UNION)| + |Combine(a, 0, b, 0, INTERSECTION)| == |a| + |b|
    ensures |Combine(a, 0, b, 0, DIFFERENCE)| + |Combine(a, 0, b, 0, INTERSECTION)| == |a|
    ensures |Combine(a, 0, b, 0, SYMMETRIC)| + |Combine(a, 0, b, 0, INTERSECTION)| ==
            |Combine(a, 0, b, 0, UNION)|
  {
    CombineLength(a, 0, b, 0, UNION);
    CombineLength(a, 0, b, 0, INTERSECTION);
    CombineLength(a, 0, b, 0, DIFFERENCE);
    CombineLength(a, 0, b, 0, SYMMETRIC);
  }

  // ----- the four algorithms -----

  /** An output iterator together with everything written through it. */
  class Output {
    var written: seq<Item>

    method Put(x: Item)
      modifies this
      ensures written == old(written) + [x]
    {
      written := written + [x];
    }
  }

  /** std::copy of s[first..]. */
  method Copy(s: seq<Item>, first: nat, result: Output)
    requires first <= |s|
    modifies result
    ensures result.written == old(result.written) + s[first..]
  {
    for i := first to |s|
      invariant result.written == old(result.written) + s[first..i]
    {
      result.Put(s[i]);
      assert s[first..i + 1] == s[first..i] + [s[i]];
    }
    assert s[first..|s|] == s[first..];
  }

  /** Once one range is used up the rest of the other is copied or skipped. */
  lemma {:induction false} CombineEnds(a: seq<Item>, i: nat, b: seq<Item>, j: nat, m: Mode)
    requires i <= |a| && j <= |b| && (i == |a| || j == |b|)
    ensures Combine(a, i, b, j, m) == (if m.fromFirst then a[i..] else []) + (if m.fromSecond then b[j..] else [])
    decreases |a| - i + |b| - j
  {
    if i < |a| {
      CombineEnds(a, i + 1, b, j, m);
    } else if j < |b| {
      CombineEnds(a, i, b, j + 1, m);
    }
  }

  /** What is written and what is still to come make up the whole result. */
  ghost predicate Owes(before: seq<Item>, written: seq<Item>, a: seq<Item>, i: nat, b: seq<Item>, j: nat, m: Mode) {
    i <= |a| && j <= |b| && written + Combine(a, i, b, j, m) == before + Combine(a, 0, b, 0, m)
  }

  function Written(written: seq<Item>, yes: bool, x: Item): seq<Item> {
    if yes then written + [x] else written
  }

  lemma WrittenEmit(written: seq<Item>, yes: bool, x: Item, s: seq<Item>)
    ensures written + Emit(yes, x, s) == Written(written, yes, x) + s
  {
  }

  lemma OwesStep(before: seq<Item>, written: seq<Item>, a: seq<Item>, i: nat, b: seq<Item>, j: nat, m: Mode)
    requires Owes(before, written, a, i, b, j, m) && i < |a| && j < |b|
    ensures a[i].key < b[j].key ==> Owes(before, Written(written, m.fromFirst, a[i]), a, i + 1, b, j, m)
    ensures b[j].key < a[i].key ==> Owes(before, Written(written, m.fromSecond, b[j]), a, i, b, j + 1, m)
    ensures a[i].key == b[j].key ==> Owes(before, Written(written, m.fromBoth, a[i]), a, i + 1, b, j + 1, m)
  {
    if a[i].key < b[j].key {
      WrittenEmit(written, m.fromFirst, a[i], Combine(a, i + 1, b, j, m));
    } else if b[j].key < a[i].key {
      WrittenEmit(written, m.fromSecond, b[j], Combine(a, i, b, j + 1, m));
    } else {
      WrittenEmit(written, m.fromBoth, a[i], Combine(a, i + 1, b, j + 1, m));
    }
  }

  lemma EitherOrder(w: seq<Item>, p: seq<Item>, q: seq<Item>)
    requires p == [] || q == []
    ensures w + p + q == w + (p + q) && w + q + p == w + (p + q)
  {
  }

  /** What is left to copy, in either order, since one of the two ranges is used up. */
  lemma OwesEnds(before: seq<Item>, written: seq<Item>, a: seq<Item>, i: nat, b: seq<Item>, j: nat, m: Mode)
    requires Owes(before, written, a, i, b, j, m) && (i == |a| || j == |b|)
    ensures var p, q := if m.fromFirst then a[i..] else [], if m.fromSecond then b[j..] else [];
      && written + p + q == before + Combine(a, 0, b, 0, m)
      && written + q + p == before + Combine(a, 0, b, 0, m)
  {
    var p, q := if m.fromFirst then a[i..] else [], if m.fromSecond then b[j..] else [];
    CombineEnds(a, i, b, j, m);
    EitherOrder(written, p, q);
  }

  method SetUnion(a: seq<Item>, b: seq<Item>, result: Output)
    modifies result
    ensures result.written == old(result.written) + Combine(a, 0, b, 0, UNION)
  {
    var first1, first2 := 0, 0;
    while first1 != |a| && first2 != |b|
      invariant Owes(old(result.written), result.written, a, first1, b, first2, UNION)
      decreases |a| - first1 + |b| - first2
    {
      OwesStep(old(result.written), result.written, a, first1, b, first2, UNION);
      if a[first1].key < b[first2].key {
        result.Put(a[first1]);
        first1 := first1 + 1;
      } else if b[first2].key < a[first1].key {
        result.Put(b[first2]);
        first2 := first2 + 1;
      } else {
        result.Put(a[first1]);
        first1, first2 := first1 + 1, first2 + 1;
      }
    }
    OwesEnds(old(result.written), result.written, a, first1, b, first2, UNION);
    Copy(a, first1, result);
    Copy(b, first2, result);
  }

  method SetIntersection(a: seq<Item>, b: seq<Item>, result: Output)
    modifies result
    ensures result.written == old(result.written) + Combine(a, 0, b, 0, INTERSECTION)
  {
    var first1, first2 := 0, 0;
    while first1 != |a| && first2 != |b|
      invariant Owes(old(result.written), result.written, a, first1, b, first2, INTERSECTION)
      decreases |a| - first1 + |b| - first2
    {
      OwesStep(old(result.written), result.written, a, first1, b, first2, INTERSECTION);
      if a[first1].key < b[first2].key {
        first1 := first1 + 1;
      } else if b[first2].key < a[first1].key {
        first2 := first2 + 1;
      } else {
        result.Put(a[first1]);
        first1, first2 := first1 + 1, first2 + 1;
      }
    }
    OwesEnds(old(result.written), result.written, a, first1, b, first2, INTERSECTION);
  }

  method SetDifference(a: seq<Item>, b: seq<Item>, result: Output)
    modifies result
    ensures result.written == old(result.written) + Combine(a, 0, b, 0, DIFFERENCE)
  {
    var first1, first2 := 0, 0;
    while first1 != |a| && first2 != |b|
      invariant Owes(old(result.written), result.written, a, first1, b, first2, DIFFERENCE)
      decreases |a| - first1 + |b| - first2
    {
      OwesStep(old(result.written), result.written, a, first1, b, first2, DIFFERENCE);
      if a[first1].key < b[first2].key {
        result.Put(a[first1]);
        first1 := first1 + 1;
      } else if b[first2].key < a[first1].key {
        first2 := first2 + 1;
      } else {
        first1, first2 := first1 + 1, first2 + 1;
      }
    }
    OwesEnds(old(result.written), result.written, a, first1, b, first2, DIFFERENCE);
    Copy(a, first1, result);
  }

  method SetSymmetricDifference(a: seq<Item>, b: seq<Item>, result: Output)
    modifies result
    ensures result.written == old(result.written) + Combine(a, 0, b, 0, SYMMETRIC)
  {
    var first1, first2 := 0, 0;
    while first1 != |a| && first2 != |b|
      invariant Owes(old(result.written), result.written, a, first1, b, first2, SYMMETRIC)
      decreases |a| - first1 + |b| - first2
    {
      OwesStep(old(result.written), result.written, a, first1, b, first2, SYMMETRIC);
      if a[first1].key < b[first2].key {
        result.Put(a[first1]);
        first1 := first1 + 1;
      } else if b[first2].key < a[first1].key {
        result.Put(b[first2]);
        first2 := first2 + 1;
      } else {
        first1, first2 := first1 + 1, first2 + 1;
      }
    }
    OwesEnds(old(result.written), result.written, a, first1, b, first2, SYMMETRIC);
    Copy(b, first2, result);
    Copy(a, first1, result);
  }
}

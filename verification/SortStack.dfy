/** Sorting a stack with one temporary stack. */
module SortStack {
  import opened Containers
  import opened Ordering
  import opened Sequences

  /** The input stack holds base, the part of the original stack not taken off yet,
      and above it the items put back, smallest on top; the temporary stack holds the
      rest, largest on top and no larger than what was put back. */
  ghost predicate Halfway(original: seq<int>, base: seq<int>, back: seq<int>, temp: seq<int>) {
    && base <= original && Descending(back) && Sorted(temp)
    && (back != [] && temp != [] ==> Last(temp) <= Last(back))
    && multiset(original) == multiset(base) + multiset(back) + multiset(temp)
  }

  /** The same while cur is out of both stacks. */
  ghost predicate Inserting(original: seq<int>, base: seq<int>, back: seq<int>, temp: seq<int>, cur: int) {
    && base <= original && Descending(back) && Sorted(temp)
    && (back != [] ==> cur <= Last(back) && (temp != [] ==> Last(temp) <= Last(back)))
    && multiset(original) == multiset(base) + multiset(back) + multiset(temp) + multiset{cur}
  }

  lemma TakeApart(b: multiset<int>, k: multiset<int>, t: multiset<int>, x: multiset<int>)
    ensures b + (k + x) + t == b + k + t + x
  {
  }

  lemma MoveAcross(b: multiset<int>, k: multiset<int>, t: multiset<int>, x: multiset<int>, y: multiset<int>)
    ensures b + k + (t + y) + x == b + (k + y) + t + x
  {
  }

  lemma FrontDescends(s: seq<int>)
    requires Descending(s) && s != []
    ensures Descending(Front(s)) && (Front(s) != [] ==> Last(s) <= Last(Front(s)))
  {
  }

  lemma DescendingSnoc(s: seq<int>, x: int)
    requires Descending(s) && (s != [] ==> x <= Last(s))
    ensures Descending(s + [x])
  {
  }

  lemma TakeFromBack(original: seq<int>, base: seq<int>, back: seq<int>, temp: seq<int>)
    requires Halfway(original, base, back, temp) && back != []
    ensures Inserting(original, base, Front(back), temp, Last(back))
  {
    FrontAndLast(back);
    FrontDescends(back);
    TakeApart(multiset(base), multiset(Front(back)), multiset(temp), multiset{Last(back)});
  }

  lemma TakeFromBase(original: seq<int>, base: seq<int>, temp: seq<int>)
    requires Halfway(original, base, [], temp) && base != []
    ensures Inserting(original, Front(base), [], temp, Last(base))
  {
    FrontAndLast(base);
  }

  lemma PutBack(original: seq<int>, base: seq<int>, back: seq<int>, temp: seq<int>, cur: int)
    requires Inserting(original, base, back, temp, cur) && temp != [] && cur < Last(temp)
    ensures Inserting(original, base, back + [Last(temp)], Front(temp), cur)
  {
    FrontAndLast(temp);
    MultisetSnoc(back, Last(temp));
    DescendingSnoc(back, Last(temp));
    MoveAcross(multiset(base), multiset(back), multiset(Front(temp)), multiset{cur}, multiset{Last(temp)});
    assert Last(back + [Last(temp)]) == Last(temp);
  }

  lemma PutIn(original: seq<int>, base: seq<int>, back: seq<int>, temp: seq<int>, cur: int)
    requires Inserting(original, base, back, temp, cur) && (temp != [] ==> Last(temp) <= cur)
    ensures Halfway(original, base, back, temp + [cur])
  {
    MultisetSnoc(temp, cur);
    SortedSnoc(temp, cur);
  }

  lemma Pour(original: seq<int>, back: seq<int>, temp: seq<int>)
    requires Halfway(original, [], back, temp) && temp != []
    ensures Halfway(original, [], back + [Last(temp)], Front(temp))
  {
    FrontAndLast(temp);
    MultisetSnoc(back, Last(temp));
    DescendingSnoc(back, Last(temp));
    MoveAcross(multiset{}, multiset(back), multiset(Front(temp)), multiset{}, multiset{Last(temp)});
  }

  lemma FrontOfConcat(base: seq<int>, back: seq<int>)
    requires base + back != []
    ensures back == [] ==> base != [] && Front(base + back) == Front(base) + back && Last(base + back) == Last(base)
    ensures back != [] ==> Front(base + back) == base + Front(back) && Last(base + back) == Last(back)
  {
  }

  /** From temp0 on, the items above temp have been put back, the last of them on top,
      and all of them are larger than cur. */
  ghost predicate MovedBack(temp0: seq<int>, temp: seq<int>, back0: seq<int>, back: seq<int>, cur: int) {
    && temp <= temp0
    && (forall i :: |temp| <= i < |temp0| ==> cur < temp0[i])
    && back == back0 + Reverse(temp0[|temp|..])
  }

  lemma NothingMovedBack(temp: seq<int>, back: seq<int>, cur: int)
    ensures MovedBack(temp, temp, back, back, cur)
  {
    assert temp[|temp|..] == [];
  }

  lemma MoveBackOne(temp0: seq<int>, temp: seq<int>, back0: seq<int>, back: seq<int>, cur: int)
    requires MovedBack(temp0, temp, back0, back, cur) && temp != [] && cur < Last(temp)
    ensures MovedBack(temp0, Front(temp), back0, back + [Last(temp)], cur)
  {
    var n := |temp|;
    assert temp0[n - 1] == Last(temp) && temp0[n - 1..] == [Last(temp)] + temp0[n..];
    ReverseCons(Last(temp), temp0[n..]);
    ConcatAssociates(back0, Reverse(temp0[n..]), [Last(temp)]);
  }

  /** Nothing moves when the temporary stack already ends in a value that is not larger. */
  lemma MovesOnlyLarger(temp0: seq<int>, temp: seq<int>, back0: seq<int>, back: seq<int>, cur: int)
    requires MovedBack(temp0, temp, back0, back, cur)
    requires temp0 != [] ==> Last(temp0) <= cur
    ensures temp == temp0 && back == back0
  {
    assert |temp| == |temp0|;
    assert temp0[|temp|..] == [];
  }

  /** The top item of one stack goes onto another. */
  method MoveTop(from: Stack<int>, to: Stack<int>)
    requires from != to && !from.Empty()
    modifies from, to
    ensures to.items == old(to.items) + [Last(old(from.items))]
    ensures from.items == Front(old(from.items))
  {
    to.Push(from.Top());
    from.Pop();
    assert from.items == Front(old(from.items));
  }

  /** The inner loop: exactly the larger items on top of the temporary stack go back onto
      the input, one above the other. */
  method MakeRoom(curValue: int, input: Stack<int>, temp: Stack<int>,
                  ghost original: seq<int>, ghost base: seq<int>, ghost back0: seq<int>)
    returns (ghost back: seq<int>)
    requires input != temp && input.items == base + back0
    requires Inserting(original, base, back0, temp.items, curValue)
    modifies input, temp
    ensures input.items == base + back
    ensures Inserting(original, base, back, temp.items, curValue)
    ensures MovedBack(old(temp.items), temp.items, back0, back, curValue)
    ensures temp.items != [] ==> Last(temp.items) <= curValue
    ensures (old(temp.items) != [] ==> Last(old(temp.items)) <= curValue) ==> back == back0
  {
    back := back0;
    ghost var temp0 := temp.items;
    NothingMovedBack(temp0, back0, curValue);
    while !temp.Empty() && curValue < temp.Top()
      invariant input.items == base + back
      invariant Inserting(original, base, back, temp.items, curValue)
      invariant MovedBack(temp0, temp.items, back0, back, curValue)
      decreases |temp.items|
    {
      PutBack(original, base, back, temp.items, curValue);
      MoveBackOne(temp0, temp.items, back0, back, curValue);
      ghost var top := temp.Top();
      MoveTop(temp, input);
      ConcatAssociates(base, back, [top]);
      back := back + [top];
    }
    if temp0 != [] ==> Last(temp0) <= curValue {
      MovesOnlyLarger(temp0, temp.items, back0, back, curValue);
    }
  }

  /** The final loop, which turns the temporary stack over. */
  method MoveAll(temp: Stack<int>, input: Stack<int>, ghost original: seq<int>)
    requires input != temp && input.items == [] && Halfway(original, [], [], temp.items)
    modifies input, temp
    ensures temp.items == [] && Halfway(original, [], input.items, [])
  {
    while !temp.Empty()
      invariant Halfway(original, [], input.items, temp.items)
      decreases |temp.items|
    {
      Pour(original, input.items, temp.items);
      MoveTop(temp, input);
    }
  }

  /** Sorts the stack: smallest on top, never decreasing downwards. Items go back onto
      the input, but only when an item of the original stack has been taken off. */
  method SortStack(input: Stack<int>)
    modifies input
    ensures Descending(input.items)
    ensures multiset(input.items) == multiset(old(input.items))
  {
    var temp := new Stack<int>();
    ghost var original, base, back: seq<int> := input.items, input.items, [];
    while !input.Empty()
      invariant fresh(temp) && input.items == base + back
      invariant Halfway(original, base, back, temp.items)
      decreases |base|, |back|
    {
      FrontOfConcat(base, back);
      ghost var before := input.items;
      var curValue := input.Top();
      input.Pop();
      assert input.items == Front(before);
      if back == [] {
        TakeFromBase(original, base, temp.items);
        base := Front(base);
      } else {
        TakeFromBack(original, base, back, temp.items);
        back := Front(back);
      }
      back := MakeRoom(curValue, input, temp, original, base, back);
      PutIn(original, base, back, temp.items, curValue);
      temp.Push(curValue);
    }
    MoveAll(temp, input, original);
  }

  lemma ReverseOfDescending(s: seq<int>)
    requires Descending(s)
    ensures Sorted(Reverse(s)) && multiset(Reverse(s)) == multiset(s)
  {
    ReverseByPosition(s);
    ReversePermutes(s);
  }

  /** The sorted stack is determined by what was on it. */
  lemma {:induction false} SortedStackIsUnique(a: seq<int>, b: seq<int>)
    requires Descending(a) && Descending(b) && multiset(a) == multiset(b)
    ensures a == b
  {
    ReverseOfDescending(a);
    ReverseOfDescending(b);
    SortedIsUnique(Reverse(a), Reverse(b));
    ReverseTwice(a);
    ReverseTwice(b);
  }
}

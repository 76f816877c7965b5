/** The mutable containers that the modelled code passes by reference. */
module Containers {

  /** std::stack; the top is the last item. */
  class Stack<T> {
    var items: seq<T>

    constructor ()
      ensures items == []
    {
      items := [];
    }

    predicate Empty()
      reads this
    {
      items == []
    }

    /** Undefined behaviour on an empty std::stack, hence the precondition. */
    function Top(): T
      requires !Empty()
      reads this
    {
      items[|items| - 1]
    }

    method Push(x: T)
      modifies this
      ensures items == old(items) + [x]
    {
      items := items + [x];
    }

    method Pop()
      requires !Empty()
      modifies this
      ensures items + [old(Top())] == old(items)
    {
      items := items[..|items| - 1];
    }
  }

  /** A std::string that is appended to through a reference. */
  class Text {
    var chars: string

    constructor ()
      ensures chars == ""
    {
      chars := "";
    }

    method Append(c: char)
      modifies this
      ensures chars == old(chars) + [c]
    {
      chars := chars + [c];
    }
  }
}

/** The stack machine that evaluates a postfix text. */
module PostfixEvaluator {
  import opened Division
  import opened Expressions
  import opened Options

  function Abs(x: int): nat {
    if x < 0 then -x else x
  }

  /** C++ integer division: the quotient is truncated toward zero. */
  function TruncDiv(a: int, b: int): int
    requires b != 0
  {
    if (a < 0) == (b < 0) then Abs(a) / Abs(b) else -(Abs(a) / Abs(b))
  }

  lemma DivisionBounds(a: nat, b: nat)
    requires b > 0
    ensures a / b * b <= a < a / b * b + b
  {
    assert a == a / b * b + a % b;
  }

  lemma NegatedFactors(k: int, b: int)
    ensures -k * b == -(k * b) && k * -b == -(k * b) && -k * -b == k * b
  {
  }

  /** The quotient is the one whose remainder has the sign of a and is smaller than b in
      size. */
  lemma QuotientIsTruncated(a: int, b: int)
    requires b != 0
    ensures var r := a - TruncDiv(a, b) * b;
      (a >= 0 ==> r >= 0) && (a <= 0 ==> r <= 0) && (b > 0 ==> -b < r < b) && (b < 0 ==> b < r < -b)
  {
    var k := Abs(a) / Abs(b);
    DivisionBounds(Abs(a), Abs(b));
    NegatedFactors(k, Abs(b));
    assert TruncDiv(a, b) == k || TruncDiv(a, b) == -k;
  }

  /** The same by size and sign. */
  lemma QuotientBySize(a: int, b: int)
    requires b != 0
    ensures var q := TruncDiv(a, b);
      Abs(q) * Abs(b) <= Abs(a) < (Abs(q) + 1) * Abs(b) && (q != 0 ==> (q < 0 <==> (a < 0) != (b < 0)))
  {
    var k := Abs(a) / Abs(b);
    DivisionBounds(Abs(a), Abs(b));
    assert Abs(TruncDiv(a, b)) == k;
    assert (k + 1) * Abs(b) == k * Abs(b) + Abs(b);
  }

  /** The result the calculator pushes; first is the operand popped first. A zero
      divisor is replaced by one, and any other symbol gives zero. */
  function Combine(op: char, first: int, second: int): int {
    if op == '+' then first + second
    else if op == '-' then first - second
    else if op == '*' then first * second
    else if op == '/' then TruncDiv(first, if second == 0 then 1 else second)
    else 0
  }

  lemma CombineSpelledOut(op: char, first: int, second: int)
    ensures var c := Combine(op, first, second);
      && (op == '+' ==> c == first + second)
      && (op == '-' ==> c == first - second)
      && (op == '*' ==> c == first * second)
      && (op == '/' && second == 0 ==> c == first)
      && (op == '/' && second != 0 ==>
            var r := first - c * second;
            && (first >= 0 ==> r >= 0) && (first <= 0 ==> r <= 0)
            && (second > 0 ==> -second < r < second) && (second < 0 ==> second < r < -second))
      && (op !in "+-*/" ==> c == 0)
  {
    if op == '/' {
      QuotientIsTruncated(first, if second == 0 then 1 else second);
    }
  }

  /** One operator on a value stack: an empty stack is left alone, and None stands
      for the pop from an empty stack that a single value leads to. */
  function Calc(op: char, values: seq<int>): Option<seq<int>> {
    var n := |values|;
    if n == 0 then Some(values)
    else if n == 1 then None
    else Some(values[..n - 2] + [Combine(op, values[n - 1], values[n - 2])])
  }

  function EvalStep(c: char, values: seq<int>): Option<seq<int>> {
    if IsSymbol(c) then Calc(c, values) else Some(values + [c as int - '0' as int])
  }

  function Eval(suffix: string, values: seq<int>): Option<seq<int>> {
    if suffix == "" then Some(values)
    else
      var next := EvalStep(suffix[0], values);
      if next.None? then None else Eval(suffix[1..], next.value)
  }

  /** The value of a tree under the calculator's operand order: right before left. */
  function Value(t: Expr): int {
    match t
    case Leaf(c) => c as int - '0' as int
    case Branch(op, l, r) => Combine(Symbol(op), Value(r), Value(l))
  }

  lemma {:induction false} EvalPostorder(t: Expr, rest: string, values: seq<int>)
    ensures Eval(Postorder(t) + rest, values) == Eval(rest, values + [Value(t)])
  {
    match t
    case Leaf(c) =>
      assert (Postorder(t) + rest)[1..] == rest;
    case Branch(op, l, r) =>
      var tail := [Symbol(op)] + rest;
      assert Postorder(t) + rest == Postorder(l) + (Postorder(r) + tail);
      EvalPostorder(l, Postorder(r) + tail, values);
      EvalPostorder(r, tail, values + [Value(l)]);
      var full := values + [Value(l)] + [Value(r)];
      assert tail[1..] == rest;
      assert full[..|full| - 2] == values;
  }

  // ----- postfix texts determine their trees -----

  function OpOf(c: char): Op {
    if c == '+' then Add else if c == '-' then Sub else if c == '*' then Mul else Div
  }

  /** Rebuilds trees from a postfix text of binary operators. */
  function Rebuild(suffix: string, trees: seq<Expr>): seq<Expr> {
    if suffix == "" then trees
    else
      var c := suffix[0];
      var n := |trees|;
      if IsSymbol(c) then
        if n < 2 || !Binds(c) then []
        else Rebuild(suffix[1..], trees[..n - 2] + [Branch(OpOf(c), trees[n - 2], trees[n - 1])])
      else if c == ' ' then []
      else Rebuild(suffix[1..], trees + [Leaf(c)])
  }

  lemma {:induction false} RebuildPostorder(t: Expr, rest: string, trees: seq<Expr>)
    ensures Rebuild(Postorder(t) + rest, trees) == Rebuild(rest, trees + [t])
  {
    match t
    case Leaf(c) =>
      assert (Postorder(t) + rest)[1..] == rest;
    case Branch(op, l, r) =>
      var tail := [Symbol(op)] + rest;
      assert Postorder(t) + rest == Postorder(l) + (Postorder(r) + tail);
      RebuildPostorder(l, Postorder(r) + tail, trees);
      RebuildPostorder(r, tail, trees + [l]);
      var full := trees + [l] + [r];
      assert tail[1..] == rest;
      assert full[..|full| - 2] == trees;
  }

  lemma PostorderInjective(t: Expr, u: Expr)
    requires Postorder(t) == Postorder(u)
    ensures t == u
  {
    RebuildPostorder(t, "", []);
    RebuildPostorder(u, "", []);
    assert Postorder(t) + "" == Postorder(u) + "";
    assert Rebuild("", [] + [t]) == Rebuild("", [] + [u]);
    assert ([] + [t])[0] == ([] + [u])[0];
  }

  // ----- the calculator against ordinary arithmetic -----

  /** Ordinary arithmetic on integers: left operand first, no division by zero. */
  function Ordinary(t: Expr): Option<int> {
    match t
    case Leaf(c) => Some(c as int - '0' as int)
    case Branch(op, l, r) =>
      if Ordinary(l).None? || Ordinary(r).None? then None
      else
        var a, b := Ordinary(l).value, Ordinary(r).value;
        match op
        case Add => Some(a + b)
        case Sub => Some(a - b)
        case Mul => Some(a * b)
        case Div => if b == 0 then None else Some(TruncDiv(a, b))
  }

  /** The calculator's value is the ordinary one on the tree and all its subtrees. */
  predicate OrdinaryThroughout(t: Expr) {
    && Ordinary(t) == Some(Value(t))
    && (t.Branch? ==> OrdinaryThroughout(t.left) && OrdinaryThroughout(t.right))
  }

  /** Subtractions are between equal numbers, divisions between non-zero numbers of
      equal size. */
  predicate OrderFree(t: Expr) {
    t.Branch? ==>
      && OrderFree(t.left) && OrderFree(t.right)
      && (t.op.Sub? ==> Ordinary(t.left) == Ordinary(t.right))
      && (t.op.Div? ==>
            && Ordinary(t.left).Some? && Ordinary(t.right).Some?
            && Abs(Ordinary(t.left).value) == Abs(Ordinary(t.right).value) != 0)
  }

  lemma QuotientBelow(a: nat, b: nat)
    requires 0 < a < b
    ensures a / b == 0 && b / a != 0
  {
    ModUnique(a, b, 0, a);
    assert b == b / a * a + b % a;
  }

  lemma SwappedQuotients(a: int, b: int)
    requires a != 0 && b != 0
    ensures TruncDiv(a, b) == TruncDiv(b, a) <==> Abs(a) == Abs(b)
  {
    if Abs(a) < Abs(b) {
      QuotientBelow(Abs(a), Abs(b));
    } else if Abs(b) < Abs(a) {
      QuotientBelow(Abs(b), Abs(a));
    }
  }

  lemma ByOneIsIdentity(b: int)
    ensures TruncDiv(b, 1) == b
    ensures b != 0 ==> TruncDiv(0, b) == 0
  {
  }

  /** Popping the right operand first is harmless exactly on order-free trees. */
  lemma {:induction false} OrdinaryIffOrderFree(t: Expr)
    ensures OrdinaryThroughout(t) <==> OrderFree(t)
  {
    if t.Leaf? {
    } else {
      OrdinaryIffOrderFree(t.left);
      OrdinaryIffOrderFree(t.right);
      if OrdinaryThroughout(t.left) && OrdinaryThroughout(t.right) {
        var a, b := Value(t.left), Value(t.right);
        ByOneIsIdentity(b);
        if a != 0 && b != 0 {
          SwappedQuotients(a, b);
        }
      }
    }
  }

  /** Not so at the root alone: in (5-3)-(3-5) three swapped subtractions cancel out, so
      the value of the whole tree is the ordinary one though the tree is not order-free. */
  lemma SwapsCanCancel()
    ensures var t := Branch(Sub, Branch(Sub, Leaf('5'), Leaf('3')), Branch(Sub, Leaf('3'), Leaf('5')));
      Ordinary(t) == Some(Value(t)) == Some(4) && !OrderFree(t)
  {
    var l, r := Branch(Sub, Leaf('5'), Leaf('3')), Branch(Sub, Leaf('3'), Leaf('5'));
    assert Value(l) == -2 && Value(r) == 2;
    assert Ordinary(l) == Some(2) && Ordinary(r) == Some(-2);
  }
}

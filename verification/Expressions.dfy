/** Arithmetic expressions: abstract trees, their postfix text, and every way of
    writing them in infix with or without parentheses. */
module Expressions {

  datatype Op = Add | Sub | Mul | Div

  function Symbol(op: Op): char {
    match op
    case Add => '+'
    case Sub => '-'
    case Mul => '*'
    case Div => '/'
  }

  function Precedence(op: Op): nat {
    if op.Add? || op.Sub? then 1 else 2
  }

  predicate Binds(c: char) {
    c == '+' || c == '-' || c == '*' || c == '/'
  }

  /** The characters the calculator handles as operators. */
  predicate IsSymbol(c: char) {
    Binds(c) || c == '(' || c == ')'
  }

  /** Every character the calculator does not treat as operator, parenthesis or
      blank is an operand of its own. */
  type Operand = c: char | !IsSymbol(c) && c != ' ' witness '0'

  datatype Expr = Leaf(c: Operand) | Branch(op: Op, left: Expr, right: Expr)

  function Postorder(t: Expr): string {
    match t
    case Leaf(c) => [c]
    case Branch(op, l, r) => Postorder(l) + Postorder(r) + [Symbol(op)]
  }

  function Leaves(t: Expr): nat {
    match t
    case Leaf(_) => 1
    case Branch(_, l, r) => Leaves(l) + Leaves(r)
  }

  lemma {:induction false} LeavesPositive(t: Expr)
    ensures Leaves(t) >= 1
  {
    if t.Leaf? {
    } else {
      LeavesPositive(t.left);
      LeavesPositive(t.right);
    }
  }

  // ----- infix texts -----

  /** The structure of an infix text: where it has parentheses and which operands
      its writer meant each operator to have. */
  datatype Infix = Atom(c: Operand) | Paren(inner: Infix) | Binary(l: Infix, op: Op, r: Infix)

  function Write(e: Infix): string {
    match e
    case Atom(c) => [c]
    case Paren(x) => "(" + Write(x) + ")"
    case Binary(l, op, r) => Write(l) + [Symbol(op)] + Write(r)
  }

  function Meaning(e: Infix): Expr {
    match e
    case Atom(c) => Leaf(c)
    case Paren(x) => Meaning(x)
    case Binary(l, op, r) => Branch(op, Meaning(l), Meaning(r))
  }

  /** The lowest precedence that stands outside parentheses; 3 when none does. */
  function Level(e: Infix): nat {
    if e.Binary? then Precedence(e.op) else 3
  }

  /** There are enough parentheses for the usual precedence and left associativity. */
  predicate Bracketed(e: Infix) {
    match e
    case Atom(_) => true
    case Paren(x) => Bracketed(x)
    case Binary(l, op, r) =>
      Bracketed(l) && Bracketed(r) && Level(l) >= Precedence(op) && Level(r) > Precedence(op)
  }

  /** A fully parenthesised text of a tree. */
  function Parenthesised(t: Expr): Infix {
    match t
    case Leaf(c) => Atom(c)
    case Branch(op, l, r) => Paren(Binary(Parenthesised(l), op, Parenthesised(r)))
  }

  lemma {:induction false} EveryTreeIsWritable(t: Expr)
    ensures Bracketed(Parenthesised(t)) && Level(Parenthesised(t)) == 3
    ensures Meaning(Parenthesised(t)) == t
  {
    if t.Leaf? {
    } else {
      EveryTreeIsWritable(t.left);
      EveryTreeIsWritable(t.right);
    }
  }

  // ----- reading an arbitrary infix text by precedence -----

  function Size(e: Infix): nat {
    match e
    case Atom(_) => 1
    case Paren(x) => 1 + Size(x)
    case Binary(l, _, r) => 1 + Size(l) + Size(r)
  }

  /** The lowest operator of r binds no tighter than op and than everything in l, so it
      comes out on top of "l op r". */
  predicate RightOnTop(l: Infix, op: Op, r: Infix) {
    r.Binary? && Precedence(r.op) <= Precedence(op) && Precedence(r.op) <= Level(l)
  }

  /** The lowest operator of l binds less tightly than op. */
  predicate LeftOnTop(l: Infix, op: Op) {
    l.Binary? && Precedence(l.op) < Precedence(op)
  }

  /** The bracketed structure of the text "l op r": the rightmost operator of the
      lowest precedence outside parentheses comes out on top. */
  function Join(l: Infix, op: Op, r: Infix): Infix
    decreases Size(l) + Size(r)
  {
    if RightOnTop(l, op, r) then Binary(Join(l, op, r.l), r.op, r.r)
    else if LeftOnTop(l, op) then Binary(l.l, l.op, Join(l.r, op, r))
    else Binary(l, op, r)
  }

  /** The structure that precedence and left associativity give to the text of e. */
  function Reading(e: Infix): Infix {
    match e
    case Atom(_) => e
    case Paren(x) => Paren(Reading(x))
    case Binary(l, op, r) => Join(Reading(l), op, Reading(r))
  }

  lemma Regroup<T>(a: seq<T>, b: seq<T>, c: seq<T>, d: seq<T>, e: seq<T>)
    ensures (a + b + c) + d + e == a + b + (c + d + e)
  {
  }

  lemma {:induction false} JoinKeepsText(l: Infix, op: Op, r: Infix)
    ensures Write(Join(l, op, r)) == Write(l) + [Symbol(op)] + Write(r)
    decreases Size(l) + Size(r)
  {
    if RightOnTop(l, op, r) {
      JoinKeepsText(l, op, r.l);
      Regroup(Write(l), [Symbol(op)], Write(r.l), [Symbol(r.op)], Write(r.r));
    } else if LeftOnTop(l, op) {
      JoinKeepsText(l.r, op, r);
      Regroup(Write(l.l), [Symbol(l.op)], Write(l.r), [Symbol(op)], Write(r));
    }
  }

  function Lower(a: nat, b: nat): nat {
    if a < b then a else b
  }

  lemma JoinLevel(l: Infix, op: Op, r: Infix)
    ensures Level(Join(l, op, r)) == Lower(Level(l), Lower(Precedence(op), Level(r)))
  {
  }

  lemma {:induction false} JoinIsBracketed(l: Infix, op: Op, r: Infix)
    requires Bracketed(l) && Bracketed(r)
    ensures Bracketed(Join(l, op, r))
    decreases Size(l) + Size(r)
  {
    if RightOnTop(l, op, r) {
      JoinIsBracketed(l, op, r.l);
      JoinLevel(l, op, r.l);
    } else if LeftOnTop(l, op) {
      JoinIsBracketed(l.r, op, r);
      JoinLevel(l.r, op, r);
    }
  }

  /** Every infix text, however it was meant, has a bracketed structure. */
  lemma {:induction false} ReadingIsBracketed(e: Infix)
    ensures Write(Reading(e)) == Write(e)
    ensures Bracketed(Reading(e))
  {
    match e
    case Atom(_) =>
    case Paren(x) => ReadingIsBracketed(x);
    case Binary(l, op, r) =>
      ReadingIsBracketed(l);
      ReadingIsBracketed(r);
      JoinKeepsText(Reading(l), op, Reading(r));
      JoinIsBracketed(Reading(l), op, Reading(r));
  }

  /** Join keeps the number of operands and, when it rotates, moves the split. */
  lemma {:induction false} JoinLeaves(l: Infix, op: Op, r: Infix)
    ensures Leaves(Meaning(Join(l, op, r))) == Leaves(Meaning(l)) + Leaves(Meaning(r))
    ensures Join(l, op, r) != Binary(l, op, r) ==>
              Leaves(Meaning(Join(l, op, r).l)) != Leaves(Meaning(l))
    decreases Size(l) + Size(r)
  {
    if RightOnTop(l, op, r) {
      JoinLeaves(l, op, r.l);
      LeavesPositive(Meaning(r.l));
    } else if LeftOnTop(l, op) {
      JoinLeaves(l.r, op, r);
      LeavesPositive(Meaning(l.r));
    }
  }

  lemma {:induction false} ReadingLeaves(e: Infix)
    ensures Leaves(Meaning(Reading(e))) == Leaves(Meaning(e))
  {
    match e
    case Atom(_) =>
    case Paren(x) => ReadingLeaves(x);
    case Binary(l, op, r) =>
      ReadingLeaves(l);
      ReadingLeaves(r);
      JoinLeaves(Reading(l), op, Reading(r));
  }

  /** A text is read as it was meant exactly when it is bracketed. */
  lemma {:induction false} ReadAsMeantIff(e: Infix)
    ensures Bracketed(e) <==> Meaning(Reading(e)) == Meaning(e)
    ensures Bracketed(e) ==> Reading(e) == e
  {
    match e
    case Atom(_) =>
    case Paren(x) => ReadAsMeantIff(x);
    case Binary(l, op, r) =>
      ReadAsMeantIff(l);
      ReadAsMeantIff(r);
      var j := Join(Reading(l), op, Reading(r));
      if Meaning(j) == Meaning(e) {
        ReadingLeaves(l);
        JoinLeaves(Reading(l), op, Reading(r));
        assert j == Binary(Reading(l), op, Reading(r));
        ReadingIsBracketed(e);
      }
  }
}

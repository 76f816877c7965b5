/** Infix text to postfix text: the operator-stack compiler. */
module ShuntingYard {
  import opened Expressions
  import opened Options
  import opened Sequences

  /** What the compiler has written and what it still holds back; the top of the
      operator stack is the last character of ops. */
  datatype Machine = Machine(suffix: string, ops: string)

  /** Precedence of a stacked character; parentheses rank below every operator. */
  function Rank(c: char): nat {
    if c == '+' || c == '-' then 1 else if c == '*' || c == '/' then 2 else 0
  }

  function TopRank(ops: string): nat {
    if ops == "" then 0 else Rank(ops[|ops| - 1])
  }

  // ----- the machine's steps -----

  /** The machine after its top operator has moved to the text. */
  function MoveTop(m: Machine): Machine
    requires m.ops != ""
  {
    Machine(m.suffix + [m.ops[|m.ops| - 1]], m.ops[..|m.ops| - 1])
  }

  /** Moves stacked operators that bind at least as tightly as the operator oper to the
      text; nothing moves for any other character. */
  function PopTighter(oper: char, m: Machine): Machine
    decreases |m.ops|
  {
    if m.ops != "" && Binds(oper) && TopRank(m.ops) >= Rank(oper) then PopTighter(oper, MoveTop(m)) else m
  }

  /** Moves stacked operators to the text down to the nearest '('. */
  function PopToParen(m: Machine): Machine
    decreases |m.ops|
  {
    if m.ops != "" && m.ops[|m.ops| - 1] != '(' then PopToParen(MoveTop(m)) else m
  }

  /** One symbol; None where the C++ code pops an empty stack. Other characters change
      nothing. */
  function Handle(oper: char, m: Machine): Option<Machine> {
    if oper == '(' then Some(m.(ops := m.ops + "("))
    else if oper == ')' then
      var p := PopToParen(m);
      if p.ops == "" then None else Some(p.(ops := p.ops[..|p.ops| - 1]))
    else if Binds(oper) then
      var p := PopTighter(oper, m);
      Some(p.(ops := p.ops + [oper]))
    else Some(m)
  }

  function Step(c: char, m: Machine): Option<Machine> {
    if c == ' ' then Some(m)
    else if IsSymbol(c) then Handle(c, m)
    else Some(m.(suffix := m.suffix + [c]))
  }

  function Run(text: string, m: Machine): Option<Machine> {
    if text == "" then Some(m)
    else
      var n := Step(text[0], m);
      if n.None? then None else Run(text[1..], n.value)
  }

  const START := Machine("", "")

  /** The final flush happens only when some text was written. */
  function Finish(m: Machine): Machine {
    if m.suffix == "" then m else Machine(m.suffix + Reverse(m.ops), "")
  }

  lemma {:induction false} RunAppend(a: string, b: string, m: Machine)
    ensures Run(a + b, m) == if Run(a, m).None? then None else Run(b, Run(a, m).value)
  {
    if a == "" {
      assert a + b == b;
    } else {
      assert (a + b)[1..] == a[1..] + b;
      var n := Step(a[0], m);
      if n.Some? {
        RunAppend(a[1..], b, n.value);
      }
    }
  }

  // ----- when the compiler is safe -----

  /** Unclosed '(' after reading text; only meaningful on balanced prefixes. */
  function Depth(text: string): int {
    if text == "" then 0
    else
      var c := text[|text| - 1];
      Depth(text[..|text| - 1]) + (if c == '(' then 1 else if c == ')' then -1 else 0)
  }

  /** No prefix of the text closes more parentheses than it opens. */
  predicate NeverOverCloses(text: string) {
    forall k :: 0 <= k <= |text| ==> Depth(text[..k]) >= 0
  }

  lemma {:induction false} PopTighterParens(oper: char, m: Machine)
    requires Binds(oper)
    ensures Count('(', PopTighter(oper, m).ops) == Count('(', m.ops)
    decreases |m.ops|
  {
    if m.ops == "" || TopRank(m.ops) < Rank(oper) {
    } else {
      PopTighterParens(oper, MoveTop(m));
    }
  }

  lemma {:induction false} PopToParenParens(m: Machine)
    ensures var p := PopToParen(m);
      && Count('(', p.ops) == Count('(', m.ops)
      && (p.ops == "" <==> Count('(', m.ops) == 0)
      && (p.ops != "" ==> p.ops[|p.ops| - 1] == '(')
    decreases |m.ops|
  {
    if m.ops == "" || m.ops[|m.ops| - 1] == '(' {
    } else {
      PopToParenParens(MoveTop(m));
    }
  }

  /** The step on an operator. */
  lemma StepBinds(x: char, m: Machine)
    requires Binds(x)
    ensures Step(x, m) == Some(Machine(PopTighter(x, m).suffix, PopTighter(x, m).ops + [x]))
  {
  }

  lemma StepParens(c: char, m: Machine)
    ensures Step(c, m).None? <==> c == ')' && Count('(', m.ops) == 0
    ensures Step(c, m).Some? ==>
              Count('(', Step(c, m).value.ops) ==
              Count('(', m.ops) + (if c == '(' then 1 else if c == ')' then -1 else 0)
  {
    if c == ')' {
      PopToParenParens(m);
    } else if Binds(c) {
      PopTighterParens(c, m);
      StepBinds(c, m);
      CountSnoc('(', PopTighter(c, m).ops, c);
    } else {
      CountSnoc('(', m.ops, c);
    }
  }

  lemma RunSnoc(text: string, c: char, m: Machine)
    ensures Run(text + [c], m) == if Run(text, m).None? then None else Step(c, Run(text, m).value)
  {
    RunAppend(text, [c], m);
    if Run(text, m).Some? {
      var n := Step(c, Run(text, m).value);
      assert [c][1..] == "";
    }
  }

  lemma NeverOverClosesSnoc(front: string, c: char)
    ensures NeverOverCloses(front + [c]) <==> NeverOverCloses(front) && Depth(front + [c]) >= 0
    ensures Depth(front + [c]) == Depth(front) + (if c == '(' then 1 else if c == ')' then -1 else 0)
  {
    var text := front + [c];
    assert text[..|text|] == text && text[..|front|] == front;
    assert forall k :: 0 <= k <= |front| ==> front[..k] == text[..k];
    if NeverOverCloses(text) {
      assert forall k :: 0 <= k <= |front| ==> Depth(text[..k]) >= 0;
    }
  }

  lemma DepthOfSafe(text: string)
    requires NeverOverCloses(text)
    ensures Depth(text) >= 0
  {
    assert text[..|text|] == text;
  }

  /** The compiler never pops an empty stack exactly on these texts. */
  lemma {:induction false} SafeIffNeverOverCloses(text: string, written: string)
    ensures Run(text, Machine(written, "")).Some? <==> NeverOverCloses(text)
    ensures Run(text, Machine(written, "")).Some? ==>
              Count('(', Run(text, Machine(written, "")).value.ops) == Depth(text)
  {
    if text == "" {
    } else {
      var front, c := text[..|text| - 1], text[|text| - 1];
      assert text == front + [c];
      SafeIffNeverOverCloses(front, written);
      NeverOverClosesSnoc(front, c);
      RunSnoc(front, c, Machine(written, ""));
      if NeverOverCloses(front) {
        DepthOfSafe(front);
        StepParens(c, Run(front, Machine(written, "")).value);
      }
    }
  }

  // ----- the operator stack's discipline, on every safe text -----

  /** Precedence strictly rises from bottom to top between '(' entries. */
  predicate Rising(ops: string) {
    && (forall i :: 0 <= i < |ops| ==> ops[i] == '(' || Binds(ops[i]))
    && forall i :: 0 < i < |ops| ==> ops[i] == '(' || Rank(ops[i - 1]) < Rank(ops[i])
  }

  lemma {:induction false} RisingIsShallow(ops: string)
    requires Rising(ops)
    ensures |ops| <= 3 * Count('(', ops) + TopRank(ops)
  {
    if ops == "" {
    } else {
      RisingIsShallow(ops[..|ops| - 1]);
    }
  }

  function Operands(s: string): string {
    if s == "" then ""
    else
      var c := s[|s| - 1];
      Operands(s[..|s| - 1]) + (if IsSymbol(c) || c == ' ' then "" else [c])
  }

  /** Characters that reach the postfix text: neither parentheses nor blanks. */
  predicate Counted(c: char) {
    c != '(' && c != ')' && c != ' '
  }

  /** Going from m to n on reading the text read: no occurrence of the character c
      is lost or invented, and operands are written in the order they are read. */
  predicate Conserves(m: Machine, n: Machine, read: string, c: char) {
    && Count(c, n.suffix) + Count(c, n.ops) == Count(c, m.suffix) + Count(c, m.ops) + Count(c, read)
    && Operands(n.suffix) == Operands(m.suffix) + Operands(read)
  }

  /** The same when nothing is read. */
  predicate Keeps(m: Machine, n: Machine, c: char) {
    && Count(c, n.suffix) + Count(c, n.ops) == Count(c, m.suffix) + Count(c, m.ops)
    && Operands(n.suffix) == Operands(m.suffix)
  }

  lemma Snoc(s: string, x: char, c: char)
    ensures Count(c, s + [x]) == Count(c, s) + (if x == c then 1 else 0)
    ensures Operands(s + [x]) == Operands(s) + (if IsSymbol(x) || x == ' ' then "" else [x])
  {
    assert (s + [x])[..|s|] == s;
  }

  lemma Single(x: char, c: char)
    ensures Count(c, [x]) == if x == c then 1 else 0
    ensures Operands([x]) == if IsSymbol(x) || x == ' ' then "" else [x]
  {
    Snoc("", x, c);
    assert "" + [x] == [x];
  }

  lemma MoveTopKeeps(m: Machine, c: char)
    requires m.ops != "" && Rising(m.ops) && m.ops[|m.ops| - 1] != '('
    ensures Rising(MoveTop(m).ops) && Keeps(m, MoveTop(m), c)
  {
    Snoc(m.suffix, m.ops[|m.ops| - 1], c);
  }

  lemma {:induction false} PopTighterInvariant(oper: char, m: Machine, c: char)
    requires Binds(oper) && Rising(m.ops)
    ensures var p := PopTighter(oper, m);
      Rising(p.ops) && TopRank(p.ops) < Rank(oper) && Keeps(m, p, c)
    decreases |m.ops|
  {
    if m.ops == "" || TopRank(m.ops) < Rank(oper) {
    } else {
      MoveTopKeeps(m, c);
      PopTighterInvariant(oper, MoveTop(m), c);
    }
  }

  lemma {:induction false} PopToParenInvariant(m: Machine, c: char)
    requires Rising(m.ops)
    ensures var p := PopToParen(m); Rising(p.ops) && Keeps(m, p, c)
    decreases |m.ops|
  {
    if m.ops == "" || m.ops[|m.ops| - 1] == '(' {
    } else {
      MoveTopKeeps(m, c);
      PopToParenInvariant(MoveTop(m), c);
    }
  }

  lemma RisingPush(ops: string, x: char)
    requires Rising(ops) && Binds(x) && TopRank(ops) < Rank(x)
    ensures Rising(ops + [x])
  {
  }

  lemma PushConserves(m: Machine, x: char, c: char)
    requires Binds(x)
    ensures Conserves(m, Machine(m.suffix, m.ops + [x]), [x], c)
  {
    Snoc(m.ops, x, c);
    Single(x, c);
  }

  lemma OperatorInvariant(x: char, m: Machine, c: char)
    requires Rising(m.ops) && Binds(x)
    ensures Rising(Step(x, m).value.ops) && Conserves(m, Step(x, m).value, [x], c)
  {
    var p := PopTighter(x, m);
    PopTighterInvariant(x, m, c);
    RisingPush(p.ops, x);
    StepBinds(x, m);
    PushConserves(p, x, c);
  }

  lemma CloseInvariant(m: Machine, c: char)
    requires Rising(m.ops) && Step(')', m).Some? && Counted(c)
    ensures Rising(Step(')', m).value.ops) && Conserves(m, Step(')', m).value, ")", c)
  {
    var p := PopToParen(m);
    PopToParenParens(m);
    PopToParenInvariant(m, c);
    assert Step(')', m).value == Machine(p.suffix, p.ops[..|p.ops| - 1]);
    Single(')', c);
  }

  lemma StepInvariant(x: char, m: Machine, c: char)
    requires Rising(m.ops) && Step(x, m).Some? && Counted(c)
    ensures Rising(Step(x, m).value.ops) && Conserves(m, Step(x, m).value, [x], c)
  {
    Single(x, c);
    if x == ')' {
      CloseInvariant(m, c);
    } else if Binds(x) {
      OperatorInvariant(x, m, c);
    } else {
      Snoc(m.ops, x, c);
      Snoc(m.suffix, x, c);
    }
  }

  lemma {:induction false} RunInvariant(text: string, c: char)
    requires Run(text, START).Some? && Counted(c)
    ensures var n := Run(text, START).value;
      && Rising(n.ops) && Operands(n.suffix) == Operands(text)
      && Count(c, n.suffix) + Count(c, n.ops) == Count(c, text)
  {
    if text == "" {
    } else {
      var front, x := text[..|text| - 1], text[|text| - 1];
      assert text == front + [x];
      RunSnoc(front, x, START);
      RunInvariant(front, c);
      StepInvariant(x, Run(front, START).value, c);
      Snoc(front, x, c);
      Single(x, c);
    }
  }

  /** After every prefix of every safe text the stack rises between parentheses,
      is at most 3d + 2 deep under d open parentheses, and together with the
      output holds each operand and operator as often as it was read, operands in
      reading order. */
  lemma PrefixInvariant(text: string, k: nat)
    requires NeverOverCloses(text) && k <= |text|
    ensures Run(text[..k], START).Some?
    ensures var m := Run(text[..k], START).value;
      && Rising(m.ops)
      && Count('(', m.ops) == Depth(text[..k])
      && |m.ops| <= 3 * Depth(text[..k]) + 2
      && Operands(m.suffix) == Operands(text[..k])
      && forall c :: Counted(c) ==> Count(c, m.suffix) + Count(c, m.ops) == Count(c, text[..k])
  {
    var read := text[..k];
    assert NeverOverCloses(read) by {
      assert forall i :: 0 <= i <= k ==> read[..i] == text[..i];
    }
    SafeIffNeverOverCloses(read, "");
    var m := Run(read, START).value;
    RunInvariant(read, '+');
    RisingIsShallow(m.ops);
    forall c | Counted(c)
      ensures Count(c, m.suffix) + Count(c, m.ops) == Count(c, read)
    {
      RunInvariant(read, c);
    }
  }

  // ----- correctness on bracketed infix texts -----

  /** What compiling a bracketed text writes at once. */
  function Emitted(e: Infix): string {
    match e
    case Atom(c) => [c]
    case Paren(x) => Postorder(Meaning(x))
    case Binary(l, _, r) => Postorder(Meaning(l)) + Emitted(r)
  }

  /** What compiling a bracketed text leaves on the stack. */
  function Pending(e: Infix): string {
    match e
    case Atom(_) => ""
    case Paren(_) => ""
    case Binary(_, op, r) => [Symbol(op)] + Pending(r)
  }

  lemma RegroupFour<T>(a: seq<T>, b: seq<T>, c: seq<T>, d: seq<T>)
    ensures (a + b) + (c + d) == a + (b + c) + d
  {
  }

  lemma {:induction false} EmittedPending(e: Infix)
    requires Bracketed(e)
    ensures Emitted(e) + Reverse(Pending(e)) == Postorder(Meaning(e))
    ensures forall i :: 0 <= i < |Pending(e)| ==> Binds(Pending(e)[i]) && Rank(Pending(e)[i]) >= Level(e)
  {
    if !e.Binary? {
    } else {
      EmittedPending(e.r);
      ReverseCons(Symbol(e.op), Pending(e.r));
      RegroupFour(Postorder(Meaning(e.l)), Emitted(e.r), Reverse(Pending(e.r)), [Symbol(e.op)]);
    }
  }

  /** The topmost character of q moves to the text. */
  lemma MoveTopOf(suffix: string, ops: string, q: string)
    requires q != ""
    ensures MoveTop(Machine(suffix, ops + q)) == Machine(suffix + [q[|q| - 1]], ops + q[..|q| - 1])
  {
    assert (ops + q)[..|ops + q| - 1] == ops + q[..|q| - 1];
  }

  lemma ReleaseTop(suffix: string, q: string)
    requires q != ""
    ensures suffix + [q[|q| - 1]] + Reverse(q[..|q| - 1]) == suffix + Reverse(q)
  {
    ConcatAssociates(suffix, [q[|q| - 1]], Reverse(q[..|q| - 1]));
  }

  lemma {:induction false} PopTighterTakes(oper: char, suffix: string, ops: string, q: string)
    requires Binds(oper) && TopRank(ops) < Rank(oper)
    requires forall i :: 0 <= i < |q| ==> Rank(q[i]) >= Rank(oper)
    ensures PopTighter(oper, Machine(suffix, ops + q)) == Machine(suffix + Reverse(q), ops)
    decreases |q|
  {
    if q == "" {
      assert ops + q == ops && suffix + Reverse(q) == suffix;
    } else {
      MoveTopOf(suffix, ops, q);
      PopTighterTakes(oper, suffix + [q[|q| - 1]], ops, q[..|q| - 1]);
      ReleaseTop(suffix, q);
    }
  }

  lemma {:induction false} PopToParenTakes(suffix: string, ops: string, q: string)
    requires ops != "" && ops[|ops| - 1] == '('
    requires forall i :: 0 <= i < |q| ==> Binds(q[i])
    ensures PopToParen(Machine(suffix, ops + q)) == Machine(suffix + Reverse(q), ops)
    decreases |q|
  {
    if q == "" {
      assert ops + q == ops && suffix + Reverse(q) == suffix;
    } else {
      MoveTopOf(suffix, ops, q);
      PopToParenTakes(suffix + [q[|q| - 1]], ops, q[..|q| - 1]);
      ReleaseTop(suffix, q);
    }
  }

  lemma SymbolBinds(op: Op)
    ensures Binds(Symbol(op)) && Rank(Symbol(op)) == Precedence(op)
  {
  }

  /** An operator of lower rank than everything in q releases all of q. */
  lemma StepOperator(op: Op, suffix: string, ops: string, q: string)
    requires TopRank(ops) < Precedence(op)
    requires forall i :: 0 <= i < |q| ==> Rank(q[i]) >= Precedence(op)
    ensures Step(Symbol(op), Machine(suffix, ops + q)) ==
            Some(Machine(suffix + Reverse(q), ops + [Symbol(op)]))
  {
    SymbolBinds(op);
    StepBinds(Symbol(op), Machine(suffix, ops + q));
    PopTighterTakes(Symbol(op), suffix, ops, q);
  }

  lemma StepClose(suffix: string, ops: string, q: string)
    requires forall i :: 0 <= i < |q| ==> Binds(q[i])
    ensures Step(')', Machine(suffix, ops + "(" + q)) == Some(Machine(suffix + Reverse(q), ops))
  {
    PopToParenTakes(suffix, ops + "(", q);
    assert (ops + "(")[..|ops|] == ops;
  }

  /** Emitted and released operators together are the whole postfix text. */
  lemma ReleasePending(e: Infix, suffix: string)
    requires Bracketed(e)
    ensures suffix + Emitted(e) + Reverse(Pending(e)) == suffix + Postorder(Meaning(e))
    ensures forall i :: 0 <= i < |Pending(e)| ==> Binds(Pending(e)[i]) && Rank(Pending(e)[i]) >= Level(e)
  {
    EmittedPending(e);
    ConcatAssociates(suffix, Emitted(e), Reverse(Pending(e)));
  }

  /** The step on ')' behind a bracketed text. */
  lemma CloseAfter(x: Infix, suffix: string, ops: string)
    requires Bracketed(x)
    ensures Step(')', Machine(suffix + Emitted(x), ops + "(" + Pending(x))) ==
            Some(Machine(suffix + Postorder(Meaning(x)), ops))
  {
    ReleasePending(x, suffix);
    StepClose(suffix + Emitted(x), ops, Pending(x));
  }

  /** The step on an operator behind its left operand. */
  lemma OperatorAfter(l: Infix, op: Op, suffix: string, ops: string)
    requires Bracketed(l) && TopRank(ops) < Precedence(op) <= Level(l)
    ensures Step(Symbol(op), Machine(suffix + Emitted(l), ops + Pending(l))) ==
            Some(Machine(suffix + Postorder(Meaning(l)), ops + [Symbol(op)]))
  {
    ReleasePending(l, suffix);
    StepOperator(op, suffix + Emitted(l), ops, Pending(l));
  }

  lemma RunOpen(text: string, suffix: string, ops: string)
    ensures Run("(" + text, Machine(suffix, ops)) == Run(text, Machine(suffix, ops + "("))
  {
    assert ("(" + text)[1..] == text;
  }

  lemma {:induction false} RunLeft(l: Infix, op: Op, suffix: string, ops: string)
    requires Bracketed(l) && TopRank(ops) < Precedence(op) <= Level(l)
    ensures Run(Write(l) + [Symbol(op)], Machine(suffix, ops)) ==
            Some(Machine(suffix + Postorder(Meaning(l)), ops + [Symbol(op)]))
    decreases l, 2
  {
    RunInfix(l, suffix, ops);
    RunSnoc(Write(l), Symbol(op), Machine(suffix, ops));
    OperatorAfter(l, op, suffix, ops);
  }

  lemma {:induction false} RunBinary(l: Infix, op: Op, r: Infix, suffix: string, ops: string)
    requires Bracketed(Binary(l, op, r)) && TopRank(ops) < Precedence(op)
    ensures var e := Binary(l, op, r);
      Run(Write(e), Machine(suffix, ops)) == Some(Machine(suffix + Emitted(e), ops + Pending(e)))
    decreases Binary(l, op, r), 0
  {
    RunLeft(l, op, suffix, ops);
    RunAppend(Write(l) + [Symbol(op)], Write(r), Machine(suffix, ops));
    RunInfix(r, suffix + Postorder(Meaning(l)), ops + [Symbol(op)]);
    ConcatAssociates(suffix, Postorder(Meaning(l)), Emitted(r));
    ConcatAssociates(ops, [Symbol(op)], Pending(r));
  }

  lemma {:induction false} RunInfix(e: Infix, suffix: string, ops: string)
    requires Bracketed(e) && TopRank(ops) < Level(e)
    ensures Run(Write(e), Machine(suffix, ops)) == Some(Machine(suffix + Emitted(e), ops + Pending(e)))
    decreases e, 1
  {
    match e
    case Atom(c) =>
      RunSnoc("", c, Machine(suffix, ops));
      assert "" + [c] == [c];
      assert ops + "" == ops;
    case Paren(x) =>
      RunParen(x, suffix, ops);
      assert ops + "" == ops;
    case Binary(l, op, r) =>
      RunBinary(l, op, r, suffix, ops);
  }

  lemma {:induction false} RunParen(x: Infix, suffix: string, ops: string)
    requires Bracketed(x)
    ensures Run("(" + Write(x) + ")", Machine(suffix, ops)) ==
            Some(Machine(suffix + Postorder(Meaning(x)), ops))
    decreases Paren(x), 0
  {
    RunOpen(Write(x), suffix, ops);
    RunInfix(x, suffix, ops + "(");
    RunSnoc("(" + Write(x), ')', Machine(suffix, ops));
    CloseAfter(x, suffix, ops);
  }

  /** The text without its blanks. */
  function StripBlanks(text: string): string {
    if text == "" then "" else (if text[0] == ' ' then "" else [text[0]]) + StripBlanks(text[1..])
  }

  lemma {:induction false} StripAppend(a: string, b: string)
    ensures StripBlanks(a + b) == StripBlanks(a) + StripBlanks(b)
  {
    if a == "" {
      assert a + b == b;
    } else {
      assert (a + b)[1..] == a[1..] + b;
      StripAppend(a[1..], b);
    }
  }

  /** What is left are exactly the other characters, in their order. */
  lemma {:induction false} StripBlanksDropsBlanks(text: string, c: char)
    ensures Count(c, StripBlanks(text)) == if c == ' ' then 0 else Count(c, text)
    ensures Subsequence(StripBlanks(text), text)
  {
    if text == "" {
      NothingIsSubsequence("");
    } else {
      var first, rest := [text[0]], text[1..];
      assert text == first + rest;
      StripBlanksDropsBlanks(rest, c);
      CountAppend(c, first, rest);
      CountAppend(c, if text[0] == ' ' then "" else first, StripBlanks(rest));
      NothingIsSubsequence(first);
      AllIsSubsequence(first);
      SubsequenceAppend(if text[0] == ' ' then "" else first, first, StripBlanks(rest), rest);
    }
  }

  lemma StripOne(c: char)
    requires c != ' '
    ensures StripBlanks([c]) == [c]
  {
    assert [c][1..] == "";
  }

  lemma StripThree(a: string, b: string, c: string)
    requires StripBlanks(a) == a && StripBlanks(b) == b && StripBlanks(c) == c
    ensures StripBlanks(a + b + c) == a + b + c
  {
    StripAppend(a + b, c);
    StripAppend(a, b);
  }

  lemma {:induction false} WriteHasNoBlanks(e: Infix)
    ensures StripBlanks(Write(e)) == Write(e)
  {
    match e
    case Atom(c) =>
      StripOne(c);
    case Paren(x) =>
      WriteHasNoBlanks(x);
      StripOne('(');
      StripOne(')');
      StripThree("(", Write(x), ")");
    case Binary(l, op, r) =>
      WriteHasNoBlanks(l);
      WriteHasNoBlanks(r);
      StripOne(Symbol(op));
      StripThree(Write(l), [Symbol(op)], Write(r));
  }

  lemma {:induction false} BlanksDoNotMatter(text: string, m: Machine)
    ensures Run(StripBlanks(text), m) == Run(text, m)
  {
    if text == "" {
    } else {
      var rest := StripBlanks(text[1..]);
      if text[0] == ' ' {
        assert StripBlanks(text) == rest;
        BlanksDoNotMatter(text[1..], m);
      } else {
        assert StripBlanks(text)[1..] == rest;
        if Step(text[0], m).Some? {
          BlanksDoNotMatter(text[1..], Step(text[0], m).value);
        }
      }
    }
  }

  /** The postfix text of an infix text, when the compiler is safe on it. */
  function Compile(text: string): (r: string)
    requires NeverOverCloses(text)
  {
    SafeIffNeverOverCloses(text, "");
    Finish(Run(text, START).value).suffix
  }

  lemma {:induction false} PostorderNonEmpty(t: Expr)
    ensures Postorder(t) != ""
  {
  }

  lemma {:induction false} EmittedNonEmpty(e: Infix)
    ensures Emitted(e) != ""
  {
    match e
    case Atom(_) =>
    case Paren(x) => PostorderNonEmpty(Meaning(x));
    case Binary(l, _, r) => PostorderNonEmpty(Meaning(l));
  }

  lemma RunBracketed(e: Infix, text: string)
    requires Bracketed(e) && StripBlanks(text) == Write(e)
    ensures Run(text, START) == Some(Machine(Emitted(e), Pending(e)))
  {
    BlanksDoNotMatter(text, START);
    RunInfix(e, "", "");
    assert "" + Emitted(e) == Emitted(e) && "" + Pending(e) == Pending(e);
  }

  lemma CompileBracketed(e: Infix, text: string)
    requires Bracketed(e) && StripBlanks(text) == Write(e)
    ensures NeverOverCloses(text) && Compile(text) == Postorder(Meaning(e))
    ensures Run(text, START).Some? && Finish(Run(text, START).value).ops == ""
  {
    RunBracketed(e, text);
    SafeIffNeverOverCloses(text, "");
    EmittedPending(e);
    EmittedNonEmpty(e);
  }
}

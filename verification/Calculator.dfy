/** The infix calculator: compile to postfix, then evaluate. */
module Calculator {
  import opened Containers
  import opened Expressions
  import opened Options
  import opened PostfixEvaluator
  import opened Sequences
  import opened ShuntingYard

  // ----- the compiler -----

  /** Despite its name in the C++ class, true of operators and parentheses. */
  method IsNumber(c: char) returns (r: bool)
    ensures r <==> c in "+-*/()"
    ensures r <==> IsSymbol(c)
  {
    var s := "+-*/()";
    for i := 0 to |s|
      invariant c !in s[..i]
    {
      if c == s[i] {
        return true;
      }
    }
    assert s[0] == '+' && s[1] == '-' && s[2] == '*' && s[3] == '/' && s[4] == '(' && s[5] == ')';
    return false;
  }

  /** An incoming operator must wait for the stack top exactly when the top binds at
      least as tightly; this is what makes equal precedence associate to the left. */
  predicate CheckOperatorPriority(current: char, top: char): (waits: bool)
    ensures waits <==> Binds(current) && Rank(current) <= Rank(top)
    ensures waits ==> current in "+-*/" && top in "+-*/"
    ensures current in "*/" && top in "+-" ==> !waits
    ensures current in "+-" && top in "+-*/" ==> waits
    ensures current in "*/" && top in "*/" ==> waits
  {
    if (current == '+' || current == '-') && (top == '*' || top == '/' || top == '+' || top == '-') then true
    else if (current == '*' || current == '/') && (top == '*' || top == '/') then true
    else false
  }

  method LoopPushOperInStack(oper: char, suffix: Text, operators: Stack<char>)
    modifies suffix, operators
    ensures Machine(suffix.chars, operators.items) ==
            PopTighter(oper, Machine(old(suffix.chars), old(operators.items)))
    decreases |operators.items|
  {
    if !operators.Empty() && CheckOperatorPriority(oper, operators.Top()) {
      suffix.Append(operators.Top());
      operators.Pop();
      assert operators.items == old(operators.items[..|operators.items| - 1]);
      LoopPushOperInStack(oper, suffix, operators);
    }
  }

  method HandleOperator(oper: char, suffix: Text, operators: Stack<char>)
    requires Handle(oper, Machine(suffix.chars, operators.items)).Some?
    modifies suffix, operators
    ensures Some(Machine(suffix.chars, operators.items)) ==
            Handle(oper, Machine(old(suffix.chars), old(operators.items)))
  {
    if Binds(oper) {
      if operators.Empty() {
        operators.Push(oper);
      } else if CheckOperatorPriority(oper, operators.Top()) {
        LoopPushOperInStack(oper, suffix, operators);
        operators.Push(oper);
      } else {
        operators.Push(oper);
      }
    } else if oper == '(' {
      operators.Push(oper);
    } else if oper == ')' {
      ghost var start := Machine(suffix.chars, operators.items);
      while !operators.Empty() && operators.Top() != '('
        invariant PopToParen(Machine(suffix.chars, operators.items)) == PopToParen(start)
        decreases |operators.items|
      {
        ghost var before := operators.items;
        suffix.Append(operators.Top());
        operators.Pop();
        assert operators.items == before[..|before| - 1];
      }
      ghost var before := operators.items;
      operators.Pop();
      assert operators.items == before[..|before| - 1];
    }
  }

  /** Appends the postfix form of infix to suffix. */
  method InfixToSuffix(infix: string, suffix: Text)
    requires NeverOverCloses(infix)
    modifies suffix
    ensures Run(infix, Machine(old(suffix.chars), "")).Some?
    ensures suffix.chars == Finish(Run(infix, Machine(old(suffix.chars), "")).value).suffix
    ensures old(suffix.chars) == "" ==> suffix.chars == Compile(infix)
  {
    ghost var start := Machine(suffix.chars, "");
    SafeIffNeverOverCloses(infix, suffix.chars);
    var operators := new Stack<char>();
    for i := 0 to |infix|
      invariant fresh(operators)
      invariant Run(infix, start) == Run(infix[i..], Machine(suffix.chars, operators.items))
    {
      if infix[i] == ' ' {
        continue;
      }
      var symbol := IsNumber(infix[i]);
      if !symbol {
        suffix.Append(infix[i]);
      } else {
        HandleOperator(infix[i], suffix, operators);
      }
    }
    if |suffix.chars| > 0 {
      ghost var m := Machine(suffix.chars, operators.items);
      while !operators.Empty()
        invariant suffix.chars + Reverse(operators.items) == m.suffix + Reverse(m.ops)
        decreases |operators.items|
      {
        ghost var before := operators.items;
        suffix.Append(operators.Top());
        operators.Pop();
        assert operators.items == before[..|before| - 1];
      }
    }
  }

  // ----- the evaluator -----

  method CalcResult(op: char, values: Stack<int>)
    requires Calc(op, values.items).Some?
    modifies values
    ensures Some(values.items) == Calc(op, old(values.items))
    ensures old(values.items) == [] ==> values.items == []
    ensures old(values.items) != [] ==>
              var n := |old(values.items)|;
              && n >= 2 && |values.items| == n - 1 && values.items[..n - 2] == old(values.items)[..n - 2]
              && var value1, value2, result := old(values.items)[n - 1], old(values.items)[n - 2], values.items[n - 2];
                 && (op == '+' ==> result == value1 + value2)
                 && (op == '-' ==> result == value1 - value2)
                 && (op == '*' ==> result == value1 * value2)
                 && (op == '/' && value2 == 0 ==> result == value1)
                 && (op == '/' && value2 != 0 ==>
                       var r := value1 - result * value2;
                       && (value1 >= 0 ==> r >= 0) && (value1 <= 0 ==> r <= 0)
                       && (value2 > 0 ==> -value2 < r < value2) && (value2 < 0 ==> value2 < r < -value2))
                 && (op !in "+-*/" ==> result == 0)
  {
    if values.Empty() {
      return;
    }
    ghost var before := values.items;
    var value1 := values.Top();
    values.Pop();
    var value2 := values.Top();
    values.Pop();
    assert values.items == before[..|before| - 2];
    CombineSpelledOut(op, value1, value2);
    var result := 0;
    if op == '+' {
      result := value1 + value2;
    } else if op == '-' {
      result := value1 - value2;
    } else if op == '*' {
      result := value1 * value2;
    } else if op == '/' {
      value2 := if value2 == 0 then 1 else value2;
      result := TruncDiv(value1, value2);
    }
    values.Push(result);
  }

  method BySuffixGetResult(suffix: string) returns (result: int)
    requires Eval(suffix, []).Some? && Eval(suffix, []).value != []
    ensures var values := Eval(suffix, []).value; result == values[|values| - 1]
  {
    var values := new Stack<int>();
    for i := 0 to |suffix|
      invariant fresh(values)
      invariant Eval(suffix, []) == Eval(suffix[i..], values.items)
    {
      var symbol := IsNumber(suffix[i]);
      if !symbol {
        values.Push(suffix[i] as int - '0' as int);
      } else {
        CalcResult(suffix[i], values);
      }
    }
    return values.Top();
  }

  /** The text can be compiled and evaluated without popping an empty stack. */
  predicate Calculable(text: string) {
    && NeverOverCloses(text)
    && Eval(Compile(text), []).Some?
    && Eval(Compile(text), []).value != []
  }

  // ----- main theorems -----

  /** Whatever parentheses a text has and wherever its blanks stand, it compiles to
      the postorder of its reading by precedence; so to the tree its writer meant
      exactly when there are enough parentheses. */
  lemma CompilerIsCorrect(e: Infix, text: string)
    requires StripBlanks(text) == Write(e)
    ensures NeverOverCloses(text)
    ensures Compile(text) == Postorder(Meaning(Reading(e)))
    ensures Compile(text) == Postorder(Meaning(e)) <==> Bracketed(e)
  {
    ReadingIsBracketed(e);
    ReadAsMeantIff(e);
    CompileBracketed(Reading(e), text);
    if Compile(text) == Postorder(Meaning(e)) {
      PostorderInjective(Meaning(Reading(e)), Meaning(e));
    }
  }

  /** Evaluation of a compiled infix text never underflows and leaves exactly one
      value, that of the text's reading. */
  lemma CalculatorIsCorrect(e: Infix, text: string)
    requires StripBlanks(text) == Write(e)
    ensures Calculable(text)
    ensures Eval(Compile(text), []) == Some([Value(Meaning(Reading(e)))])
    ensures Bracketed(e) ==> Eval(Compile(text), []) == Some([Value(Meaning(e))])
  {
    CompilerIsCorrect(e, text);
    ReadAsMeantIff(e);
    var t := Meaning(Reading(e));
    EvalPostorder(t, "", []);
    assert Postorder(t) + "" == Postorder(t) && [] + [Value(t)] == [Value(t)];
  }

  // ----- the same in plain characters -----

  lemma OperatorOf(p: char)
    requires p in "+-*/"
    ensures Symbol(OpOf(p)) == p && (p in "+-" <==> Precedence(OpOf(p)) == 1)
    ensures 1 <= Precedence(OpOf(p)) <= 2
  {
  }

  /** An operator behind a bracketed text, with one more operand. */
  lemma OperandBehind(l: Infix, q: char, c: Operand)
    requires q in "+-*/" && Bracketed(l) && Level(l) >= Precedence(OpOf(q))
    ensures var text := Write(l) + [q, c];
      NeverOverCloses(text) && Compile(text) == Postorder(Meaning(l)) + [c, q]
  {
    OperatorOf(q);
    var e := Binary(l, OpOf(q), Atom(c));
    assert Write(e) == Write(l) + [q, c];
    assert Postorder(Meaning(e)) == Postorder(Meaning(l)) + [c, q];
    WriteHasNoBlanks(e);
    CompileBracketed(e, Write(e));
  }

  /** An operand and an operator in front of a bracketed text. */
  lemma OperandInFront(a: Operand, p: char, r: Infix)
    requires p in "+-*/" && Bracketed(r) && Level(r) > Precedence(OpOf(p))
    ensures var text := [a, p] + Write(r);
      NeverOverCloses(text) && Compile(text) == [a] + Postorder(Meaning(r)) + [p]
  {
    OperatorOf(p);
    var e := Binary(Atom(a), OpOf(p), r);
    assert Write(e) == [a, p] + Write(r);
    WriteHasNoBlanks(e);
    CompileBracketed(e, Write(e));
  }

  /** One operator between two operands. */
  function Pair(a: Operand, p: char, b: Operand): Infix {
    Binary(Atom(a), OpOf(p), Atom(b))
  }

  lemma PairIs(a: Operand, p: char, b: Operand)
    requires p in "+-*/"
    ensures Bracketed(Pair(a, p, b)) && Level(Pair(a, p, b)) == Precedence(OpOf(p))
    ensures Write(Pair(a, p, b)) == [a, p, b] && Postorder(Meaning(Pair(a, p, b))) == [a, b, p]
  {
    OperatorOf(p);
  }

  lemma PairInParens(a: Operand, p: char, b: Operand)
    requires p in "+-*/"
    ensures var e := Paren(Pair(a, p, b));
      && Bracketed(e) && Level(e) == 3
      && Write(e) == ['(', a, p, b, ')'] && Postorder(Meaning(e)) == [a, b, p]
  {
    PairIs(a, p, b);
  }

  /** Products before sums, otherwise from left to right. */
  lemma PrecedenceSpelledOut(a: Operand, p: char, b: Operand, q: char, c: Operand)
    requires p in "+-*/" && q in "+-*/"
    ensures NeverOverCloses([a, p, b, q, c])
    ensures p in "+-" && q in "*/" ==> Compile([a, p, b, q, c]) == [a, b, c, q, p]
    ensures p in "*/" || q in "+-" ==> Compile([a, p, b, q, c]) == [a, b, p, c, q]
  {
    OperatorOf(p);
    OperatorOf(q);
    if p in "+-" && q in "*/" {
      PairIs(b, q, c);
      OperandInFront(a, p, Pair(b, q, c));
      assert [a, p] + [b, q, c] == [a, p, b, q, c];
    } else {
      PairIs(a, p, b);
      OperandBehind(Pair(a, p, b), q, c);
      assert [a, p, b] + [q, c] == [a, p, b, q, c];
    }
  }

  /** Parentheses overrule both. */
  lemma ParenthesesSpelledOut(a: Operand, p: char, b: Operand, q: char, c: Operand)
    requires p in "+-*/" && q in "+-*/"
    ensures NeverOverCloses(['(', a, p, b, ')', q, c]) && NeverOverCloses([a, p, '(', b, q, c, ')'])
    ensures Compile(['(', a, p, b, ')', q, c]) == [a, b, p, c, q]
    ensures Compile([a, p, '(', b, q, c, ')']) == [a, b, c, q, p]
  {
    OperatorOf(p);
    OperatorOf(q);
    PairInParens(a, p, b);
    OperandBehind(Paren(Pair(a, p, b)), q, c);
    assert ['(', a, p, b, ')'] + [q, c] == ['(', a, p, b, ')', q, c];
    PairInParens(b, q, c);
    OperandInFront(a, p, Paren(Pair(b, q, c)));
    assert [a, p] + ['(', b, q, c, ')'] == [a, p, '(', b, q, c, ')'];
  }

  lemma RunOne(c: char, m: Machine)
    ensures Run([c], m) == Step(c, m)
  {
    RunSnoc("", c, m);
    assert "" + [c] == [c];
  }

  /** The stack is flushed, parentheses and all, only behind some output. */
  lemma FlushSpelledOut()
    ensures NeverOverCloses("+") && Compile("+") == ""
    ensures NeverOverCloses("(1") && Compile("(1") == "1("
  {
    RunOne('+', START);
    SafeIffNeverOverCloses("+", "");
    RunOpen("1", "", "");
    RunOne('1', Machine("", "("));
    assert "(" + "1" == "(1" && "" + "(" == "(";
    SafeIffNeverOverCloses("(1", "");
  }

  predicate Digit(c: char) {
    '0' <= c <= '9'
  }

  lemma EvalWritten(e: Infix)
    requires Bracketed(e)
    ensures Calculable(Write(e)) && Eval(Compile(Write(e)), []) == Some([Value(Meaning(e))])
  {
    WriteHasNoBlanks(e);
    CalculatorIsCorrect(e, Write(e));
  }

  lemma OneDigit(text: string)
    requires |text| == 1 && Digit(text[0])
    ensures Calculable(text) && Eval(Compile(text), []) == Some([text[0] as int - 48])
  {
    assert text == Write(Atom(text[0]));
    EvalWritten(Atom(text[0]));
  }

  lemma NextMultiple(r: int, b: int)
    ensures (r + 1) * b == r * b + b
  {
  }

  /** One operator between two digits: the right one comes first. */
  lemma OneOperator(text: string)
    requires |text| == 3 && Digit(text[0]) && text[1] in "+-*/" && Digit(text[2])
    ensures Calculable(text) && Eval(Compile(text), []).value != []
    ensures var a, b, r := text[2] as int - 48, text[0] as int - 48, Eval(Compile(text), []).value[0];
      && Eval(Compile(text), []) == Some([r])
      && (text[1] == '+' ==> r == a + b)
      && (text[1] == '-' ==> r == a - b)
      && (text[1] == '*' ==> r == a * b)
      && (text[1] == '/' && b == 0 ==> r == a)
      && (text[1] == '/' && b > 0 ==> r * b <= a < (r + 1) * b)
  {
    var e := Pair(text[0], text[1], text[2]);
    var a, b := text[2] as int - 48, text[0] as int - 48;
    PairIs(text[0], text[1], text[2]);
    assert text == Write(e);
    EvalWritten(e);
    OperatorOf(text[1]);
    CombineSpelledOut(text[1], a, b);
    assert Value(Meaning(e)) == Combine(text[1], a, b);
    NextMultiple(Combine(text[1], a, b), b);
  }

  /** The infix grammar is unambiguous: the compiler separates any two readings. */
  lemma BracketedTextsAreUnambiguous(e: Infix, f: Infix)
    requires Bracketed(e) && Bracketed(f) && Write(e) == Write(f)
    ensures Meaning(e) == Meaning(f)
  {
    WriteHasNoBlanks(e);
    WriteHasNoBlanks(f);
    CompileBracketed(e, Write(e));
    CompileBracketed(f, Write(f));
    PostorderInjective(Meaning(e), Meaning(f));
  }

  /** The calculator subtracts the left operand from the right one. */
  lemma FiveMinusThree()
    ensures Calculable("5-3") && Eval(Compile("5-3"), []) == Some([-2])
  {
    var e := Binary(Atom('5'), Sub, Atom('3'));
    assert Write(e) == "5-3";
    WriteHasNoBlanks(e);
    CalculatorIsCorrect(e, "5-3");
  }

  /** On every infix text the value of its reading, and the ordinary value wherever the
      reading is order-free; on other texts the two may still agree by coincidence, see
      SwapsCanCancel. */
  method GetResult(text: string) returns (result: int)
    requires Calculable(text)
    ensures var values := Eval(Compile(text), []).value; result == values[|values| - 1]
    ensures forall e: Infix :: StripBlanks(text) == Write(e) ==> result == Value(Meaning(Reading(e)))
    ensures forall e: Infix :: StripBlanks(text) == Write(e) && OrderFree(Meaning(Reading(e))) ==>
              Some(result) == Ordinary(Meaning(Reading(e)))
    ensures |text| == 1 && Digit(text[0]) ==> result == text[0] as int - 48
    ensures |text| == 3 && Digit(text[0]) && text[1] in "+-*/" && Digit(text[2]) ==>
              var a, b := text[2] as int - 48, text[0] as int - 48;
              && (text[1] == '+' ==> result == a + b)
              && (text[1] == '-' ==> result == a - b)
              && (text[1] == '*' ==> result == a * b)
              && (text[1] == '/' && b == 0 ==> result == a)
              && (text[1] == '/' && b > 0 ==> result * b <= a < (result + 1) * b)
  {
    var suffix := new Text();
    InfixToSuffix(text, suffix);
    result := BySuffixGetResult(suffix.chars);
    forall e: Infix | StripBlanks(text) == Write(e)
      ensures result == Value(Meaning(Reading(e)))
      ensures OrderFree(Meaning(Reading(e))) ==> Some(result) == Ordinary(Meaning(Reading(e)))
    {
      CalculatorIsCorrect(e, text);
      OrdinaryIffOrderFree(Meaning(Reading(e)));
    }
    if |text| == 1 && Digit(text[0]) {
      OneDigit(text);
    } else if |text| == 3 && Digit(text[0]) && text[1] in "+-*/" && Digit(text[2]) {
      OneOperator(text);
    }
  }
}

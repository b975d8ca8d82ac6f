/**
 * Postfix expressions as the evaluator reads them: operands are pushed,
 * `+ - * /` pop the top `a` and the value `b` below it and push `a + b`,
 * `a - b`, `a * b` and `b / a`, `++` and `--` replace the top by its
 * successor or predecessor, and the single value left is the result.
 */
module Expressions {
  import opened Cells
  import opened Lexical
  import opened References
  import opened Evaluator
  import opened Properties

  /** A numeral holds neither an operator nor a space, and is no reference. */
  lemma NumeralIsOperand(n: nat)
    ensures !IsOperator(ShowNat(n)) && ' ' !in ShowNat(n) && ShowNat(n) != []
  {
    var s := ShowNat(n);
    assert IsDigit(s[0]);
    forall j | 0 <= j < |s| ensures s[j] != ' ' { assert IsDigit(s[j]); }
  }

  /** Text with a space is resolved as an expression. */
  lemma ExpressionUnfolds(cols: int, cells: seq<Cell>, index: int, text: string, p: int)
    requires IsTarget(index, |cells|) && 0 <= p < |text| && text[p] == ' '
    ensures Resolve(cols, cells, Ok, index, Text(text)) == EvaluateExpression(cols, cells, index, text)
  {
    SpacedIsExpression(text, p);
  }

  /** A numeral token that is not the whole text pushes its value and writes nothing. */
  lemma NumeralOperand(cols: int, cells: seq<Cell>, text: string, tokens: seq<string>, k: nat,
                       stack: seq<real>, n: nat, next: seq<real>)
    requires k < |tokens| && forall j :: 0 <= j < |tokens| ==> tokens[j] == text || |tokens[j]| < |text|
    requires tokens[k] == ShowNat(n) && tokens[k] != text && next == stack + [n as real]
    ensures EvaluateTokens(cols, cells, Ok, text, tokens, k, stack)
            == EvaluateTokens(cols, cells, Ok, text, tokens, k + 1, next)
  {
    NumeralIsOperand(n);
    OperandStep(cols, cells, Ok, text, tokens, k, stack);
    ShowIntLiteral(n);
    assert ShowInt(n) == ShowNat(n);
    LiteralIsItsValue(cols, cells, NoRef, ShowNat(n));
  }

  /** Marking a slot and then storing into it is storing into it. */
  lemma MarkThenStore(cells: seq<Cell>, index: int, v: real)
    requires IsTarget(index, |cells|)
    ensures Store(Mark(cells, index), index, v) == Store(cells, index, v)
  {
  }

  /** `x y op` for a binary operator: the result is `op` applied to the top `y` and `x` below it, stored in the slot. */
  lemma BinaryOfNumerals(cols: int, cells: seq<Cell>, index: int, x: nat, y: nat, op: string)
    requires IsTarget(index, |cells|) && IsBinary(op)
    ensures var v := Apply(op, y as real, x as real);
            Resolve(cols, cells, Ok, index, Text(Join([ShowNat(x), ShowNat(y), op])))
            == Outcome(Store(cells, index, v), Ok, v)
  {
    var a, b := ShowNat(x), ShowNat(y);
    var tokens := [a, b, op];
    var text := Join(tokens);
    NumeralIsOperand(x);
    NumeralIsOperand(y);
    OperatorIsExpression(op);
    JoinTriple(a, b, op);
    assert text[|a|] == ' ';
    SplitJoin(tokens);
    ExpressionUnfolds(cols, cells, index, text, |a|);
    var v := Apply(op, y as real, x as real);
    BinaryTokens(cols, Mark(cells, index), text, x, y, op);
    MarkThenStore(cells, index, v);
  }

  /** The token loop over `x y op`. */
  lemma BinaryTokens(cols: int, cells: seq<Cell>, text: string, x: nat, y: nat, op: string)
    requires IsBinary(op) && |ShowNat(x)| < |text| && |ShowNat(y)| < |text| && |op| < |text|
    ensures var tokens := [ShowNat(x), ShowNat(y), op];
            EvaluateTokens(cols, cells, Ok, text, tokens, 0, [])
            == Run(cells, Ok, [Apply(op, y as real, x as real)], false)
  {
    var tokens := [ShowNat(x), ShowNat(y), op];
    var v := Apply(op, y as real, x as real);
    TwoNumerals(cols, cells, text, tokens, x, y);
    OperatorStep(cols, cells, Ok, text, tokens, 2, [x as real, y as real]);
    assert !Lacking(op, [x as real, y as real]) && Operate(op, [x as real, y as real]) == [v];
  }

  /** Two leading numeral tokens push their values in order. */
  lemma TwoNumerals(cols: int, cells: seq<Cell>, text: string, tokens: seq<string>, x: nat, y: nat)
    requires 2 <= |tokens| && forall j :: 0 <= j < |tokens| ==> tokens[j] == text || |tokens[j]| < |text|
    requires tokens[0] == ShowNat(x) && tokens[1] == ShowNat(y) && tokens[0] != text && tokens[1] != text
    ensures EvaluateTokens(cols, cells, Ok, text, tokens, 0, [])
            == EvaluateTokens(cols, cells, Ok, text, tokens, 2, [x as real, y as real])
  {
    var one := [x as real];
    var two := one + [y as real];
    NumeralOperand(cols, cells, text, tokens, 0, [], x, one);
    NumeralOperand(cols, cells, text, tokens, 1, one, y, two);
    assert two == [x as real, y as real];
  }

  /** `x op` for `++` or `--`: the result is the successor or predecessor of `x`, stored in the slot. */
  lemma UnaryOfNumeral(cols: int, cells: seq<Cell>, index: int, x: nat, op: string)
    requires IsTarget(index, |cells|) && IsUnary(op)
    ensures var v := ApplyUnary(op, x as real);
            Resolve(cols, cells, Ok, index, Text(Join([ShowNat(x), op])))
            == Outcome(Store(cells, index, v), Ok, v)
  {
    var a := ShowNat(x);
    var tokens := [a, op];
    var text := Join(tokens);
    NumeralIsOperand(x);
    OperatorIsExpression(op);
    JoinPair(a, op);
    assert text[|a|] == ' ';
    SplitJoin(tokens);
    ExpressionUnfolds(cols, cells, index, text, |a|);
    var v := ApplyUnary(op, x as real);
    UnaryTokens(cols, Mark(cells, index), text, x, op);
    MarkThenStore(cells, index, v);
  }

  /** The token loop over `x op`. */
  lemma UnaryTokens(cols: int, cells: seq<Cell>, text: string, x: nat, op: string)
    requires IsUnary(op) && |ShowNat(x)| < |text| && |op| < |text|
    ensures EvaluateTokens(cols, cells, Ok, text, [ShowNat(x), op], 0, [])
            == Run(cells, Ok, [ApplyUnary(op, x as real)], false)
  {
    var tokens := [ShowNat(x), op];
    NumeralOperand(cols, cells, text, tokens, 0, [], x, [x as real]);
    OperatorStep(cols, cells, Ok, text, tokens, 1, [x as real]);
    assert Operate(op, [x as real]) == [ApplyUnary(op, x as real)];
  }

  /** The numerals of the worked examples. */
  lemma SmallNumerals()
    ensures ShowNat(2) == "2" && ShowNat(3) == "3" && ShowNat(4) == "4"
    ensures ShowNat(5) == "5" && ShowNat(8) == "8"
  {
  }

  /** `3 4 +` is 7. */
  lemma AdditionExample(cols: int, cells: seq<Cell>, index: int)
    requires IsTarget(index, |cells|)
    ensures Resolve(cols, cells, Ok, index, Text("3 4 +")) == Outcome(Store(cells, index, 7.0), Ok, 7.0)
  {
    SmallNumerals();
    JoinTriple("3", "4", "+");
    assert "3 4 +" == "3" + " " + ("4" + " " + "+");
    BinaryOfNumerals(cols, cells, index, 3, 4, "+");
    assert Apply("+", 4 as real, 3 as real) == 7.0;
  }

  /** `3 4 -` is 4 - 3: the top of the stack comes first. */
  lemma SubtractionExample(cols: int, cells: seq<Cell>, index: int)
    requires IsTarget(index, |cells|)
    ensures Resolve(cols, cells, Ok, index, Text("3 4 -")) == Outcome(Store(cells, index, 1.0), Ok, 1.0)
  {
    SmallNumerals();
    JoinTriple("3", "4", "-");
    assert "3 4 -" == "3" + " " + ("4" + " " + "-");
    BinaryOfNumerals(cols, cells, index, 3, 4, "-");
    assert Apply("-", 4 as real, 3 as real) == 1.0;
  }

  /** `8 2 /` is 8 / 2: the value below the top is divided by the top. */
  lemma DivisionExample(cols: int, cells: seq<Cell>, index: int)
    requires IsTarget(index, |cells|)
    ensures Resolve(cols, cells, Ok, index, Text("8 2 /")) == Outcome(Store(cells, index, 4.0), Ok, 4.0)
  {
    SmallNumerals();
    JoinTriple("8", "2", "/");
    assert "8 2 /" == "8" + " " + ("2" + " " + "/");
    BinaryOfNumerals(cols, cells, index, 8, 2, "/");
    assert Apply("/", 2 as real, 8 as real) == 4.0;
  }

  /** `5 ++` is 6 and `5 --` is 4. */
  lemma StepExamples(cols: int, cells: seq<Cell>, index: int)
    requires IsTarget(index, |cells|)
    ensures Resolve(cols, cells, Ok, index, Text("5 ++")) == Outcome(Store(cells, index, 6.0), Ok, 6.0)
    ensures Resolve(cols, cells, Ok, index, Text("5 --")) == Outcome(Store(cells, index, 4.0), Ok, 4.0)
  {
    SmallNumerals();
    JoinPair("5", "++");
    JoinPair("5", "--");
    assert "5 ++" == "5" + " " + "++" && "5 --" == "5" + " " + "--";
    UnaryOfNumeral(cols, cells, index, 5, "++");
    UnaryOfNumeral(cols, cells, index, 5, "--");
    assert ApplyUnary("++", 5 as real) == 6.0 && ApplyUnary("--", 5 as real) == 4.0;
  }

  // ---------------------------------------------------------------------
  // Malformed expressions

  /** After an error, an operand token pushes 0 and changes nothing else. */
  lemma StoppedOperand(cols: int, cells: seq<Cell>, status: Status, text: string, tokens: seq<string>,
                       k: nat, stack: seq<real>, next: seq<real>)
    requires k < |tokens| && forall j :: 0 <= j < |tokens| ==> tokens[j] == text || |tokens[j]| < |text|
    requires status != Ok && !IsOperator(tokens[k]) && tokens[k] != text && next == stack + [0.0]
    ensures EvaluateTokens(cols, cells, status, text, tokens, k, stack)
            == EvaluateTokens(cols, cells, status, text, tokens, k + 1, next)
  {
    OperandStep(cols, cells, status, text, tokens, k, stack);
    StoppedAfterError(cols, cells, status, NoRef, Text(tokens[k]));
  }

  /** A binary operator with a single operand: the expression is invalid and the slot stays marked. */
  lemma MissingOperand(cols: int, cells: seq<Cell>, index: int, x: nat, op: string)
    requires IsTarget(index, |cells|) && IsBinary(op)
    ensures Resolve(cols, cells, Ok, index, Text(Join([ShowNat(x), op])))
            == Outcome(Mark(cells, index), HasInvalidExpression, 0.0)
  {
    var a := ShowNat(x);
    var tokens := [a, op];
    var text := Join(tokens);
    NumeralIsOperand(x);
    OperatorIsExpression(op);
    JoinPair(a, op);
    assert text[|a|] == ' ';
    SplitJoin(tokens);
    ExpressionUnfolds(cols, cells, index, text, |a|);
    MissingTokens(cols, Mark(cells, index), text, x, op);
  }

  /** The token loop over `x op` for a binary operator. */
  lemma MissingTokens(cols: int, cells: seq<Cell>, text: string, x: nat, op: string)
    requires IsBinary(op) && |ShowNat(x)| < |text| && |op| < |text|
    ensures EvaluateTokens(cols, cells, Ok, text, [ShowNat(x), op], 0, [])
            == Run(cells, HasInvalidExpression, [], false)
  {
    var tokens := [ShowNat(x), op];
    NumeralOperand(cols, cells, text, tokens, 0, [], x, [x as real]);
    OperatorStep(cols, cells, Ok, text, tokens, 1, [x as real]);
    assert Lacking(op, [x as real]) && Operate(op, [x as real]) == [];
  }

  /**
   * Three operands and no operator leave three values: the expression is
   * invalid.  (Two numerals alone never get here: the source's number
   * pattern, whose dot matches the space, takes them for a number.)
   */
  lemma ExtraOperand(cols: int, cells: seq<Cell>, index: int, x: nat, y: nat, z: nat)
    requires IsTarget(index, |cells|)
    ensures Resolve(cols, cells, Ok, index, Text(Join([ShowNat(x), ShowNat(y), ShowNat(z)])))
            == Outcome(Mark(cells, index), HasInvalidExpression, 0.0)
  {
    var a, b, c := ShowNat(x), ShowNat(y), ShowNat(z);
    var tokens := [a, b, c];
    var text := Join(tokens);
    NumeralIsOperand(x);
    NumeralIsOperand(y);
    NumeralIsOperand(z);
    JoinTriple(a, b, c);
    assert text[|a|] == ' ';
    SplitJoin(tokens);
    ExpressionUnfolds(cols, cells, index, text, |a|);
    ExtraTokens(cols, Mark(cells, index), text, tokens, x, y, z);
  }

  /** The token loop over three numerals pushes all three. */
  lemma ExtraTokens(cols: int, cells: seq<Cell>, text: string, tokens: seq<string>, x: nat, y: nat, z: nat)
    requires tokens == [ShowNat(x), ShowNat(y), ShowNat(z)]
    requires forall j :: 0 <= j < 3 ==> |tokens[j]| < |text|
    ensures EvaluateTokens(cols, cells, Ok, text, tokens, 0, [])
            == Run(cells, Ok, [x as real, y as real, z as real], false)
  {
    var two, three := [x as real, y as real], [x as real, y as real, z as real];
    TwoNumerals(cols, cells, text, tokens, x, y);
    NumeralOperand(cols, cells, text, tokens, 2, two, z, three);
  }

  /** An operator on its own finds no operand: the expression is invalid. */
  lemma LoneOperator(cols: int, cells: seq<Cell>, index: int, op: string)
    requires IsTarget(index, |cells|) && IsOperator(op)
    ensures Resolve(cols, cells, Ok, index, Text(op)) == Outcome(Mark(cells, index), HasInvalidExpression, 0.0)
  {
    OperatorIsExpression(op);
    var marked := Mark(cells, index);
    ExitStep(cols, marked, Ok, op, [op], 0, []);
  }

  /**
   * Text that is one token but neither a number, a reference nor an operator
   * is its own only token: the internal error, with the slot left marked.
   */
  lemma SoleTokenAborts(cols: int, cells: seq<Cell>, index: int, t: string)
    requires IsTarget(index, |cells|)
    requires ' ' !in t && !IsLiteral(t) && !IsReference(t) && !IsOperator(t)
    ensures Resolve(cols, cells, Ok, index, Text(t)) == Outcome(Mark(cells, index), InternalError, 0.0)
  {
    var marked := Mark(cells, index);
    ExitStep(cols, marked, Ok, t, [t], 0, []);
  }

  /**
   * An error raised by an operand does not survive a malformed stack: the
   * circular reference of `t n`, where `t` names the slot being computed, is
   * replaced by the invalid-expression error of the two values left.
   */
  lemma ErrorOverwritten(cols: int, cells: seq<Cell>, index: int, t: string, n: nat)
    requires 0 <= index < |cells| && IsReference(t) && Decode(cols, t) == index
    ensures Resolve(cols, cells, Ok, index, Text(Join([t, ShowNat(n)])))
            == Outcome(Mark(cells, index), HasInvalidExpression, 0.0)
  {
    var b := ShowNat(n);
    var tokens := [t, b];
    var text := Join(tokens);
    NumeralIsOperand(n);
    assert ' ' !in t && !IsOperator(t) by {
      if ' ' in t {
        var p :| 0 <= p < |t| && t[p] == ' ';
        SpacedIsExpression(t, p);
      }
      assert IsUpper(t[..FirstDigit(t)][0]);
    }
    JoinPair(t, b);
    assert text[|t|] == ' ';
    SplitJoin(tokens);
    ExpressionUnfolds(cols, cells, index, text, |t|);
    var marked := Mark(cells, index);
    CircularTokens(cols, marked, text, tokens);
  }

  /** The token loop over `t n` when `t` names a slot in progress. */
  lemma CircularTokens(cols: int, cells: seq<Cell>, text: string, tokens: seq<string>)
    requires |tokens| == 2 && forall j :: 0 <= j < 2 ==> !IsOperator(tokens[j]) && |tokens[j]| < |text|
    requires IsReference(tokens[0]) && !OutOfBounds(Decode(cols, tokens[0]), |cells|)
    requires cells[Decode(cols, tokens[0])] == InProgress
    ensures EvaluateTokens(cols, cells, Ok, text, tokens, 0, [])
            == Run(cells, HasCircularReference, [0.0, 0.0], false)
  {
    OperandStep(cols, cells, Ok, text, tokens, 0, []);
    MarkedTargetIsCircular(cols, cells, NoRef, tokens[0]);
    StoppedOperand(cols, cells, HasCircularReference, text, tokens, 1, [0.0], [0.0, 0.0]);
  }

  /** `3 +`, `3 4 5` and `+` are invalid expressions. */
  lemma MalformedExamples(cols: int, cells: seq<Cell>, index: int)
    requires IsTarget(index, |cells|)
    ensures Resolve(cols, cells, Ok, index, Text("3 +")) == Outcome(Mark(cells, index), HasInvalidExpression, 0.0)
    ensures Resolve(cols, cells, Ok, index, Text("3 4 5")) == Outcome(Mark(cells, index), HasInvalidExpression, 0.0)
    ensures Resolve(cols, cells, Ok, index, Text("+")) == Outcome(Mark(cells, index), HasInvalidExpression, 0.0)
  {
    SmallNumerals();
    JoinPair("3", "+");
    JoinTriple("3", "4", "5");
    assert "3 +" == "3" + " " + "+" && "3 4 5" == "3" + " " + ("4" + " " + "5");
    MissingOperand(cols, cells, index, 3, "+");
    ExtraOperand(cols, cells, index, 3, 4, 5);
    LoneOperator(cols, cells, index, "+");
  }

  /** A word such as `x` is the internal error. */
  lemma InternalErrorExample(cols: int, cells: seq<Cell>, index: int)
    requires IsTarget(index, |cells|)
    ensures Resolve(cols, cells, Ok, index, Text("x")) == Outcome(Mark(cells, index), InternalError, 0.0)
  {
    assert !IsLiteral("x") by {
      assert Unsigned("x") == "x" && IndexOf("x", '.') == 1;
    }
    SoleTokenAborts(cols, cells, index, "x");
  }

  /**
   * In a one-column store whose only slot holds `A1 2`, the reference to the
   * slot itself raises the circular reference, which the two values left on
   * the stack then replace by the invalid expression.
   */
  lemma OverwrittenExample(cells: seq<Cell>)
    requires cells == [Text("A1 2")]
    ensures Resolve(1, cells, Ok, 0, cells[0]) == Outcome([InProgress], HasInvalidExpression, 0.0)
  {
    SmallNumerals();
    DecodeFirstColumn(1);
    JoinPair("A1", "2");
    assert "A1 2" == "A1" + " " + "2";
    ErrorOverwritten(1, cells, 0, "A1", 2);
    assert Mark(cells, 0) == [InProgress];
  }

  /** A token of a numeral expression: a natural number or an operator. */
  datatype Item = Number(n: nat) | Operator(op: string)

  predicate WellFormed(items: seq<Item>) {
    forall j :: 0 <= j < |items| && items[j].Operator? ==> IsOperator(items[j].op)
  }

  /** The text of each item. */
  function Render(items: seq<Item>): (ts: seq<string>)
    ensures |ts| == |items|
    ensures forall j :: 0 <= j < |items| ==> ts[j] == (if items[j].Number? then ShowNat(items[j].n) else items[j].op)
  {
    seq(|items|, j requires 0 <= j < |items| => if items[j].Number? then ShowNat(items[j].n) else items[j].op)
  }

  /**
   * One step of textbook postfix evaluation, independent of the store: a
   * number is pushed; a unary operator needs one value and a binary
   * operator two, the top `a` and the value `b` below it; too few values is
   * no result.
   */
  function Step(item: Item, stack: seq<real>): (r: Option<seq<real>>)
    requires item.Operator? ==> IsOperator(item.op)
  {
    var h := |stack|;
    match item
    case Number(n) => Some(stack + [n as real])
    case Operator(op) =>
      if IsUnary(op) && h >= 1 then Some(stack[..h - 1] + [ApplyUnary(op, stack[h - 1])])
      else if IsBinary(op) && h >= 2 then Some(stack[..h - 2] + [Apply(op, stack[h - 1], stack[h - 2])])
      else None
  }

  /** Textbook postfix evaluation of a sequence of items. */
  function Rpn(items: seq<Item>, stack: seq<real>): Option<seq<real>>
    requires WellFormed(items)
    decreases |items|
  {
    if |items| == 0 then Some(stack)
    else match Step(items[0], stack)
      case None => None
      case Some(next) => Rpn(items[1..], next)
  }

  /** The token loop takes the same step as textbook evaluation on item `k`. */
  lemma ItemStep(cols: int, cells: seq<Cell>, text: string, items: seq<Item>, k: nat, stack: seq<real>)
    requires WellFormed(items) && k < |items|
    requires forall j :: 0 <= j < |items| ==> |Render(items)[j]| < |text|
    requires Step(items[k], stack).Some?
    ensures EvaluateTokens(cols, cells, Ok, text, Render(items), k, stack)
            == EvaluateTokens(cols, cells, Ok, text, Render(items), k + 1, Step(items[k], stack).value)
  {
    var tokens := Render(items);
    match items[k]
    case Number(n) =>
      NumeralOperand(cols, cells, text, tokens, k, stack, n, stack + [n as real]);
    case Operator(op) =>
      OperatorKinds(op);
      OperatorStep(cols, cells, Ok, text, tokens, k, stack);
      assert Operate(op, stack) == Step(items[k], stack).value;
  }

  /**
   * Whenever textbook evaluation has a result, the token loop over the
   * rendered items ends with that stack and OK, and writes nothing.
   */
  lemma {:induction false} RunMatchesRpn(cols: int, cells: seq<Cell>, text: string, items: seq<Item>,
                                         k: nat, stack: seq<real>)
    requires WellFormed(items) && k <= |items|
    requires forall j :: 0 <= j < |items| ==> |Render(items)[j]| < |text|
    requires Rpn(items[k..], stack).Some?
    ensures EvaluateTokens(cols, cells, Ok, text, Render(items), k, stack)
            == Run(cells, Ok, Rpn(items[k..], stack).value, false)
    decreases |items| - k
  {
    if k < |items| {
      assert items[k..][0] == items[k] && items[k..][1..] == items[k + 1..];
      var next := Step(items[k], stack).value;
      ItemStep(cols, cells, text, items, k, stack);
      RunMatchesRpn(cols, cells, text, items, k + 1, next);
    } else {
      assert items[k..] == [];
    }
  }

  /** The text of two or more items is an expression whose tokens are the rendered items. */
  lemma RenderedText(items: seq<Item>)
    requires WellFormed(items) && |items| >= 2
    ensures var tokens := Render(items);
            var text := Join(tokens);
            |tokens[0]| < |text| && text[|tokens[0]|] == ' ' && Split(text) == tokens &&
            forall j :: 0 <= j < |items| ==> |tokens[j]| < |text|
  {
    var tokens := Render(items);
    var text := Join(tokens);
    forall j | 0 <= j < |tokens| ensures ' ' !in tokens[j] && tokens[j] != [] {
      if items[j].Number? { NumeralIsOperand(items[j].n); }
    }
    assert text == tokens[0] + " " + Join(tokens[1..]);
    assert text[|tokens[0]|] == ' ';
    SplitJoin(tokens);
    forall j | 0 <= j < |items| ensures |tokens[j]| < |text| {
      assert ' ' in text && ' ' !in tokens[j];
    }
  }

  /**
   * An expression of numerals and operators that textbook evaluation
   * accepts resolves to its single value with OK, stored in the slot, and is
   * an invalid expression when more than one value is left.
   */
  lemma PostfixResolves(cols: int, cells: seq<Cell>, index: int, items: seq<Item>)
    requires IsTarget(index, |cells|) && WellFormed(items) && |items| >= 2 && Rpn(items, []).Some?
    ensures var s := Rpn(items, []).value;
            Resolve(cols, cells, Ok, index, Text(Join(Render(items))))
            == if |s| == 1 then Outcome(Store(cells, index, s[0]), Ok, s[0])
               else Outcome(Mark(cells, index), HasInvalidExpression, 0.0)
  {
    var tokens := Render(items);
    var text := Join(tokens);
    RenderedText(items);
    ExpressionUnfolds(cols, cells, index, text, |tokens[0]|);
    assert items[0..] == items;
    RunMatchesRpn(cols, Mark(cells, index), text, items, 0, []);
    var s := Rpn(items, []).value;
    if |s| == 1 { MarkThenStore(cells, index, s[0]); }
  }

  /**
   * Once the status is the invalid expression, the loop keeps it to the
   * end: operands resolve to 0 without writing, and nothing aborts.
   */
  lemma {:induction false} Sticky(cols: int, cells: seq<Cell>, text: string, tokens: seq<string>,
                                  k: nat, stack: seq<real>)
    requires k <= |tokens|
    requires forall j :: 0 <= j < |tokens| ==> |tokens[j]| < |text|
    ensures var r := EvaluateTokens(cols, cells, HasInvalidExpression, text, tokens, k, stack);
            r.status == HasInvalidExpression && !r.aborted && r.cells == cells
    decreases |tokens| - k
  {
    if k < |tokens| {
      var token := tokens[k];
      if IsOperator(token) {
        if |stack| > 0 {
          OperatorStep(cols, cells, HasInvalidExpression, text, tokens, k, stack);
          Sticky(cols, cells, text, tokens, k + 1, Operate(token, stack));
        } else {
          ExitStep(cols, cells, HasInvalidExpression, text, tokens, k, stack);
        }
      } else {
        OperandStep(cols, cells, HasInvalidExpression, text, tokens, k, stack);
        StoppedAfterError(cols, cells, HasInvalidExpression, NoRef, Text(token));
        Sticky(cols, cells, text, tokens, k + 1, stack + [0.0]);
      }
    }
  }

  /**
   * Whenever textbook evaluation has no result, the token loop over the
   * rendered items ends with the invalid expression, without aborting and
   * without writing.
   */
  lemma {:induction false} Rejected(cols: int, cells: seq<Cell>, text: string, items: seq<Item>,
                                    k: nat, stack: seq<real>)
    requires WellFormed(items) && k <= |items|
    requires forall j :: 0 <= j < |items| ==> |Render(items)[j]| < |text|
    requires Rpn(items[k..], stack).None?
    ensures var r := EvaluateTokens(cols, cells, Ok, text, Render(items), k, stack);
            r.status == HasInvalidExpression && !r.aborted && r.cells == cells
    decreases |items| - k
  {
    var tokens := Render(items);
    if k < |items| {
      assert items[k..][0] == items[k] && items[k..][1..] == items[k + 1..];
      if Step(items[k], stack).Some? {
        ItemStep(cols, cells, text, items, k, stack);
        Rejected(cols, cells, text, items, k + 1, Step(items[k], stack).value);
      } else {
        var op := items[k].op;
        OperatorKinds(op);
        if |stack| == 0 {
          ExitStep(cols, cells, Ok, text, tokens, k, stack);
        } else {
          OperatorStep(cols, cells, Ok, text, tokens, k, stack);
          Sticky(cols, cells, text, tokens, k + 1, Operate(op, stack));
        }
      }
    }
  }

  /**
   * An expression of numerals and operators that textbook evaluation
   * rejects, because an operator finds too few operands, is an invalid
   * expression, and writes no slot but its own.
   */
  lemma PostfixRejected(cols: int, cells: seq<Cell>, index: int, items: seq<Item>)
    requires IsTarget(index, |cells|) && WellFormed(items) && |items| >= 2 && Rpn(items, []).None?
    ensures var r := Resolve(cols, cells, Ok, index, Text(Join(Render(items))));
            r.status == HasInvalidExpression &&
            forall j :: 0 <= j < |cells| && j != index ==> r.cells[j] == cells[j]
  {
    var tokens := Render(items);
    var text := Join(tokens);
    RenderedText(items);
    ExpressionUnfolds(cols, cells, index, text, |tokens[0]|);
    assert items[0..] == items;
    Rejected(cols, Mark(cells, index), text, items, 0, []);
  }

  /** The items of `1 2 + * 3`. */
  function RejectedItems(): (items: seq<Item>)
    ensures WellFormed(items) && |items| == 5
  {
    [Number(1), Number(2), Operator("+"), Operator("*"), Number(3)]
  }

  lemma RejectedText()
    ensures Join(Render(RejectedItems())) == "1 2 + * 3"
  {
    assert ShowNat(1) == "1" && ShowNat(2) == "2" && ShowNat(3) == "3";
    assert Render(RejectedItems()) == ["1", "2", "+", "*", "3"];
    JoinPair("*", "3");
    assert ["1", "2", "+", "*", "3"][1..][1..][1..] == ["*", "3"];
  }

  /** `+` leaves the single value 3, on which `*` finds too few operands. */
  lemma RejectedValue()
    ensures Rpn(RejectedItems(), []) == None
  {
    var items := RejectedItems();
    assert IsBinary("+") && !IsUnary("+") && IsBinary("*") && !IsUnary("*");
    assert [1.0, 2.0][..0] == [] && [] + [Apply("+", 2.0, 1.0)] == [3.0];
    assert Step(items[2], [1.0, 2.0]) == Some([3.0]);
    assert Step(items[3], [3.0]) == None;
    assert items[1..][1..][1..] == items[3..];
  }

  /** `1 2 + * 3` is an invalid expression. */
  lemma RejectedExample(cols: int, cells: seq<Cell>, index: int)
    requires IsTarget(index, |cells|)
    ensures Resolve(cols, cells, Ok, index, Text("1 2 + * 3")).status == HasInvalidExpression
  {
    RejectedText();
    RejectedValue();
    PostfixRejected(cols, cells, index, RejectedItems());
  }

  /** The items of `1 2 3 + -`. */
  function NestedItems(): (items: seq<Item>)
    ensures WellFormed(items) && |items| == 5
  {
    [Number(1), Number(2), Number(3), Operator("+"), Operator("-")]
  }

  lemma NestedText()
    ensures Join(Render(NestedItems())) == "1 2 3 + -"
  {
    assert ShowNat(1) == "1" && ShowNat(2) == "2" && ShowNat(3) == "3";
    assert Render(NestedItems()) == ["1", "2", "3", "+", "-"];
    JoinPair("+", "-");
    assert ["1", "2", "3", "+", "-"][1..][1..][1..] == ["+", "-"];
  }

  /** `+` leaves 5 above the 1, and `-` takes the top 5 minus the 1 below it. */
  lemma NestedValue()
    ensures Rpn(NestedItems(), []) == Some([4.0])
  {
    var items := NestedItems();
    assert IsBinary("+") && !IsUnary("+") && IsBinary("-") && !IsUnary("-");
    assert Apply("+", 3.0, 2.0) == 5.0 && Apply("-", 5.0, 1.0) == 4.0;
    assert [1.0, 2.0, 3.0][..1] == [1.0] && [1.0, 5.0][..0] == [];
    assert [1.0] + [5.0] == [1.0, 5.0] && [] + [4.0] == [4.0];
    assert Step(items[3], [1.0, 2.0, 3.0]) == Some([1.0, 5.0]);
    assert Step(items[4], [1.0, 5.0]) == Some([4.0]);
    assert items[1..][1..][1..][1..][1..] == [];
  }

  /** `1 2 3 + -` is 4. */
  lemma NestedExample(cols: int, cells: seq<Cell>, index: int)
    requires IsTarget(index, |cells|)
    ensures Resolve(cols, cells, Ok, index, Text("1 2 3 + -")) == Outcome(Store(cells, index, 4.0), Ok, 4.0)
  {
    NestedText();
    NestedValue();
    PostfixResolves(cols, cells, index, NestedItems());
  }
}

/**
 * The meaning of the resolution engine, as functions on (store, status):
 * what one call of `resolve` returns and leaves behind, and what the
 * driver `resolveAll` makes of the whole store.  The class in
 * spreadsheet.dfy is proved to compute exactly these.
 *
 * A call names the slot it resolves "for the record" (NoRef for a sub-token
 * of an expression) and the content to resolve.  Content is a cell: source
 * text, a resolved value (its formatted text always reads back as a number),
 * or the in-progress marker, whose text is "REF".
 */
module Evaluator {
  import opened Cells
  import opened Lexical
  import opened References

  /** The target of a sub-token, which has no slot of its own. */
  const NoRef: int := -1

  /** The text of the shared in-progress marker. */
  const Sentinel: string := "REF"

  /** What a call of `resolve` leaves: the store, the status and the returned value. */
  datatype Outcome = Outcome(cells: seq<Cell>, status: Status, value: real)

  /** The state of the token loop of an expression; `aborted` is the early return. */
  datatype Run = Run(cells: seq<Cell>, status: Status, stack: seq<real>, aborted: bool)

  /** What the driver leaves: the store and the status. */
  datatype Grid = Grid(cells: seq<Cell>, status: Status)

  predicate IsTarget(index: int, size: int) {
    index == NoRef || 0 <= index < size
  }

  /** OK or one of the errors that resolution raises. */
  predicate Live(s: Status) {
    s == Ok || s.IsResolutionError()
  }

  /** The call's own slot holds its content or the marker (never a number). */
  predicate Consistent(cells: seq<Cell>, index: int, e: Cell) {
    index == NoRef || (0 <= index < |cells| && (cells[index] == e || cells[index] == InProgress))
  }

  predicate TargetOpen(cells: seq<Cell>, index: int) {
    index == NoRef || (0 <= index < |cells| && !cells[index].Resolved?)
  }

  // ---------------------------------------------------------------------
  // Termination measure: (slots still holding text, Mode, Size, tie-break)

  /** 0 exactly when the call's own slot still holds text (so marking it uses one up). */
  function Mode(cells: seq<Cell>, index: int): nat {
    if 0 <= index < |cells| && cells[index].Text? then 0 else 1
  }

  function Size(e: Cell): nat {
    match e
    case Text(t) => 2 * |t| + 2
    case InProgress => 2 * |Sentinel| + 2
    case Resolved(_) => 0
  }

  // ---------------------------------------------------------------------
  // Writes to the call's own slot

  /** Mark the call's own slot in progress (no slot for NoRef). */
  function Mark(cells: seq<Cell>, index: int): (r: seq<Cell>)
    requires IsTarget(index, |cells|)
    ensures |r| == |cells|
    ensures TextCount(r) == TextCount(cells) - (if Mode(cells, index) == 0 then 1 else 0)
  {
    if index == NoRef then cells
    else
      TextCountUpdate(cells, index, InProgress);
      cells[index := InProgress]
  }

  /** Record a value in the call's own slot (no slot for NoRef). */
  function Store(cells: seq<Cell>, index: int, v: real): (r: seq<Cell>)
    requires IsTarget(index, |cells|)
    ensures |r| == |cells|
    ensures TextCount(r) <= TextCount(cells)
    ensures index == NoRef ==> r == cells
    ensures index != NoRef ==> r[index] == Resolved(v)
    ensures forall j :: 0 <= j < |cells| && j != index ==> r[j] == cells[j]
  {
    if index == NoRef then cells
    else
      TextCountUpdate(cells, index, Resolved(v));
      cells[index := Resolved(v)]
  }

  // ---------------------------------------------------------------------
  // Postfix arithmetic

  predicate IsBinary(op: string) {
    op == "+" || op == "-" || op == "*" || op == "/"
  }

  /**
   * A binary operator applied to the popped top `a` and the value `b` below
   * it.  Division by zero is not IEEE arithmetic here: it yields 0.
   */
  function Apply(op: string, a: real, b: real): (r: real)
    requires IsBinary(op)
    ensures op == "+" ==> r == a + b
    ensures op == "-" ==> r == a - b
    ensures op == "*" ==> r == a * b
    ensures op == "/" && a != 0.0 ==> r * a == b
    ensures op == "/" && a == 0.0 ==> r == 0.0
  {
    if op == "+" then a + b
    else if op == "-" then a - b
    else if op == "*" then a * b
    else if a != 0.0 then b / a
    else 0.0
  }

  predicate IsUnary(op: string) {
    op == "++" || op == "--"
  }

  /** Increment and decrement of the popped top. */
  function ApplyUnary(op: string, a: real): (r: real)
    requires IsUnary(op)
    ensures op == "++" ==> r == a + 1.0
    ensures op == "--" ==> r == a - 1.0
  {
    if op == "++" then a + 1.0 else a - 1.0
  }

  /** The operators are exactly the binary and the unary ones, and no operator is both. */
  lemma OperatorKinds(op: string)
    ensures IsOperator(op) <==> IsBinary(op) || IsUnary(op)
    ensures !(IsBinary(op) && IsUnary(op))
  {
  }

  /**
   * Operand order matters only for `-` and `/`: `+` and `*` are symmetric,
   * swapping the operands of `-` negates the result, and swapping those of
   * `/` inverts it.
   */
  lemma OperandOrder(a: real, b: real)
    ensures Apply("+", a, b) == Apply("+", b, a) && Apply("*", a, b) == Apply("*", b, a)
    ensures Apply("-", a, b) == -Apply("-", b, a)
    ensures a != 0.0 && b != 0.0 ==> Apply("/", a, b) * Apply("/", b, a) == 1.0
  {
    if a != 0.0 && b != 0.0 {
      Reciprocal(a, b);
    }
  }

  lemma Reciprocal(a: real, b: real)
    requires a != 0.0 && b != 0.0
    ensures (b / a) * (a / b) == 1.0
  {
    calc {
      (b / a) * (a / b);
      (b * a) / (a * b);
      1.0;
    }
  }

  /** `--` undoes `++` and `++` undoes `--`. */
  lemma StepsCancel(a: real)
    ensures ApplyUnary("--", ApplyUnary("++", a)) == a
    ensures ApplyUnary("++", ApplyUnary("--", a)) == a
  {
  }

  function Top(stack: seq<real>): real
    requires |stack| > 0
  {
    stack[|stack| - 1]
  }

  function Pop(stack: seq<real>): seq<real>
    requires |stack| > 0
  {
    stack[..|stack| - 1]
  }

  /** The source's bounds test on a decoded index, completed by a lower bound. */
  predicate OutOfBounds(i: int, size: int) {
    i < 0 || i > size - 1
  }

  /** The bounds test exactly as the source writes it: an upper bound only. */
  predicate PastEnd(i: int, size: int) {
    i > size - 1
  }

  // ---------------------------------------------------------------------
  // One call of resolve

  function Resolve(cols: int, cells: seq<Cell>, status: Status, index: int, e: Cell): (r: Outcome)
    requires IsTarget(index, |cells|)
    ensures |r.cells| == |cells|
    ensures TextCount(r.cells) <= TextCount(cells)
    decreases TextCount(cells), Mode(cells, index), Size(e), 1
  {
    if status != Ok then Outcome(cells, status, 0.0)
    else if e.Resolved? then Outcome(cells, Ok, e.value)
    else
      var text := if e.Text? then e.text else Sentinel;
      if IsLiteral(text) then Outcome(cells, Ok, LiteralValue(text))
      else if IsReference(text) then FollowReference(cols, cells, index, text)
      else EvaluateExpression(cols, cells, index, text)
  }

  /** A single reference: bounds test, cycle test, recursion and the two write-backs. */
  function FollowReference(cols: int, cells: seq<Cell>, index: int, text: string): (r: Outcome)
    requires IsTarget(index, |cells|) && IsReference(text)
    ensures |r.cells| == |cells|
    ensures TextCount(r.cells) <= TextCount(cells)
    decreases TextCount(cells), Mode(cells, index), 2 * |text| + 2, 0
  {
    var i := Decode(cols, text);
    if OutOfBounds(i, |cells|) then Outcome(cells, HasInvalidReference, 0.0)
    else if cells[i] == InProgress then Outcome(cells, HasCircularReference, 0.0)
    else
      var marked := Mark(cells, index);
      assert Mode(cells, index) == 0 || Mode(marked, i) == 0 || Size(cells[i]) == 0;
      var o := Resolve(cols, marked, Ok, i, cells[i]);
      var stored := Store(o.cells, index, o.value);
      TextCountUpdate(stored, i, Resolved(o.value));
      Outcome(stored[i := Resolved(o.value)], o.status, o.value)
  }

  /** A postfix expression: mark the slot, run the tokens, check the stack. */
  function EvaluateExpression(cols: int, cells: seq<Cell>, index: int, text: string): (r: Outcome)
    requires IsTarget(index, |cells|)
    ensures |r.cells| == |cells|
    ensures TextCount(r.cells) <= TextCount(cells)
    decreases TextCount(cells), Mode(cells, index), 2 * |text| + 2, 0
  {
    var marked := Mark(cells, index);
    Conclude(EvaluateTokens(cols, marked, Ok, text, Split(text), 0, []), index)
  }

  /**
   * The end of an expression: a single value left on the stack is the
   * result and is stored; any other height is an invalid expression with
   * the value 0, which replaces the status and writes nothing.
   */
  function Conclude(run: Run, index: int): (r: Outcome)
    requires IsTarget(index, |run.cells|)
    ensures |r.cells| == |run.cells| && TextCount(r.cells) <= TextCount(run.cells)
    ensures run.aborted ==> r == Outcome(run.cells, run.status, 0.0)
    ensures !run.aborted && |run.stack| == 1
            ==> r == Outcome(Store(run.cells, index, run.stack[0]), run.status, run.stack[0])
    ensures !run.aborted && |run.stack| != 1 ==> r == Outcome(run.cells, HasInvalidExpression, 0.0)
  {
    if run.aborted then Outcome(run.cells, run.status, 0.0)
    else if |run.stack| == 1 then Outcome(Store(run.cells, index, run.stack[0]), run.status, run.stack[0])
    else Outcome(run.cells, HasInvalidExpression, 0.0)
  }

  /** A binary operator that finds only one operand on the stack. */
  function Lacking(op: string, stack: seq<real>): (b: bool)
    ensures IsOperator(op) ==> (b <==> IsBinary(op) && |stack| == 1)
  {
    !IsUnary(op) && |stack| == 1
  }

  /**
   * The stack after an operator: the top is popped and, for a binary
   * operator, the value below it too; the result is pushed.  A binary
   * operator lacking its second operand leaves the rest of the stack.
   */
  function Operate(op: string, stack: seq<real>): (r: seq<real>)
    requires IsOperator(op) && |stack| > 0
    ensures Lacking(op, stack) ==> r == []
    ensures !Lacking(op, stack) ==> |r| == |stack| - (if IsUnary(op) then 0 else 1)
    ensures !Lacking(op, stack) ==> r[..|r| - 1] == stack[..|r| - 1]
    ensures !Lacking(op, stack) && IsUnary(op) ==> r[|r| - 1] == ApplyUnary(op, Top(stack))
    ensures !Lacking(op, stack) && IsBinary(op) ==> r[|r| - 1] == Apply(op, Top(stack), Top(Pop(stack)))
  {
    var a := Top(stack);
    var rest := Pop(stack);
    if IsUnary(op) then rest + [ApplyUnary(op, a)]
    else if |rest| > 0 then Pop(rest) + [Apply(op, a, Top(rest))]
    else rest
  }

  /**
   * The token loop from token `k` on.  An operator short of operands sets
   * HasInvalidExpression; with an empty stack the loop stops, with a single
   * operand it goes on.  Any other token is resolved on its own and its
   * value pushed, except a token equal to the whole text, which aborts the call.
   */
  function EvaluateTokens(cols: int, cells: seq<Cell>, status: Status, text: string,
                          tokens: seq<string>, k: nat, stack: seq<real>): (r: Run)
    requires k <= |tokens|
    requires forall j :: 0 <= j < |tokens| ==> tokens[j] == text || |tokens[j]| < |text|
    ensures |r.cells| == |cells|
    ensures TextCount(r.cells) <= TextCount(cells)
    decreases TextCount(cells), 1, 2 * |text| + 1, |tokens| - k
  {
    if k == |tokens| then Run(cells, status, stack, false)
    else
      var token := tokens[k];
      if IsOperator(token) then
        if |stack| > 0 then
          var s := if Lacking(token, stack) then HasInvalidExpression else status;
          EvaluateTokens(cols, cells, s, text, tokens, k + 1, Operate(token, stack))
        else Run(cells, HasInvalidExpression, stack, false)
      else if token != text then
        var o := Resolve(cols, cells, status, NoRef, Text(token));
        EvaluateTokens(cols, o.cells, o.status, text, tokens, k + 1, stack + [o.value])
      else Run(cells, InternalError, stack, true)
  }

  /** The loop's step on an operator that finds an operand. */
  lemma OperatorStep(cols: int, cells: seq<Cell>, status: Status, text: string,
                     tokens: seq<string>, k: nat, stack: seq<real>)
    requires k < |tokens| && forall j :: 0 <= j < |tokens| ==> tokens[j] == text || |tokens[j]| < |text|
    requires IsOperator(tokens[k]) && |stack| > 0
    ensures EvaluateTokens(cols, cells, status, text, tokens, k, stack)
            == EvaluateTokens(cols, cells, if Lacking(tokens[k], stack) then HasInvalidExpression else status,
                              text, tokens, k + 1, Operate(tokens[k], stack))
  {
  }

  /** The loop's step on an operand. */
  lemma OperandStep(cols: int, cells: seq<Cell>, status: Status, text: string,
                    tokens: seq<string>, k: nat, stack: seq<real>)
    requires k < |tokens| && forall j :: 0 <= j < |tokens| ==> tokens[j] == text || |tokens[j]| < |text|
    requires !IsOperator(tokens[k]) && tokens[k] != text
    ensures |tokens[k]| < |text|
    ensures var o := Resolve(cols, cells, status, NoRef, Text(tokens[k]));
            EvaluateTokens(cols, cells, status, text, tokens, k, stack)
            == EvaluateTokens(cols, o.cells, o.status, text, tokens, k + 1, stack + [o.value])
  {
  }

  /** The two ways the loop ends before the last token. */
  lemma ExitStep(cols: int, cells: seq<Cell>, status: Status, text: string,
                 tokens: seq<string>, k: nat, stack: seq<real>)
    requires k < |tokens| && forall j :: 0 <= j < |tokens| ==> tokens[j] == text || |tokens[j]| < |text|
    ensures IsOperator(tokens[k]) && |stack| == 0 ==>
            EvaluateTokens(cols, cells, status, text, tokens, k, stack) == Run(cells, HasInvalidExpression, stack, false)
    ensures !IsOperator(tokens[k]) && tokens[k] == text ==>
            EvaluateTokens(cols, cells, status, text, tokens, k, stack) == Run(cells, InternalError, stack, true)
  {
  }

  // ---------------------------------------------------------------------
  // The driver

  /** Resolve slots k, k+1, ... in order, writing each result back, until one leaves an error. */
  function ResolveFrom(cols: int, cells: seq<Cell>, k: nat): (g: Grid)
    requires k <= |cells|
    ensures |g.cells| == |cells|
    decreases |cells| - k
  {
    if k == |cells| then Grid(cells, Ok)
    else
      var o := Resolve(cols, cells, Ok, k, cells[k]);
      var next := o.cells[k := Resolved(o.value)];
      if o.status != Ok then Grid(next, o.status) else ResolveFrom(cols, next, k + 1)
  }

  /** One step of the driver, in terms of the outcome of resolving slot k. */
  lemma ResolveFromStep(cols: int, cells: seq<Cell>, k: nat, o: Outcome)
    requires k < |cells| && o == Resolve(cols, cells, Ok, k, cells[k])
    ensures o.status != Ok ==> ResolveFrom(cols, cells, k) == Grid(o.cells[k := Resolved(o.value)], o.status)
    ensures o.status == Ok ==> ResolveFrom(cols, cells, k) == ResolveFrom(cols, o.cells[k := Resolved(o.value)], k + 1)
  {
  }
}

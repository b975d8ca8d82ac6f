/**
 * The spreadsheet object: a grid of `columnCount` by `rowCount` slots held
 * row-major in an array, and the status of the last operation.  Each method
 * updates the array and the status in place and is proved to leave exactly
 * what the functions of module Evaluator describe.
 */
module Engine {
  import opened Cells
  import opened Lexical
  import opened References
  import opened Input
  import opened Evaluator

  class Spreadsheet {
    const columnCount: int
    const rowCount: int
    /** The slots; empty when the input was rejected. */
    const cells: array<Cell>
    var status: Status

    /** Reads the header line and copies the remaining lines into the slots. */
    constructor (input: seq<string>)
      ensures Header(status, columnCount, rowCount) == ReadHeader(input)
      ensures status == Ok ==>
              cells.Length == |input| - 1 &&
              forall j :: 0 <= j < cells.Length ==> cells[j] == Text(input[j + 1])
      ensures status != Ok ==> cells.Length == 0
      ensures fresh(cells)
    {
      if |input| > 0 && |Split(input[0])| == 2 {
        var fields := Split(input[0]);
        var columns := ParseInt(fields[0]);
        if columns.None? {
          columnCount, rowCount, cells, status := 0, 0, new Cell[0], IsInvalidFormat;
        } else {
          var rows := ParseInt(fields[1]);
          if rows.None? {
            columnCount, rowCount, cells, status := columns.value, 0, new Cell[0], IsInvalidFormat;
          } else {
            var entryCount := Wrap32(rows.value * columns.value);
            if entryCount != |input| - 1 {
              cells, status := new Cell[0], IsInvalidFormat;
            } else {
              var values := Entries(input);
              cells, status := values, Ok;
            }
            columnCount, rowCount := columns.value, rows.value;
          }
        }
      } else {
        columnCount, rowCount, cells, status := 0, 0, new Cell[0], IsInvalidFormat;
      }
    }

    /** The lines after the header, one slot each, in order. */
    static method Entries(input: seq<string>) returns (values: array<Cell>)
      requires |input| > 0
      ensures fresh(values) && values.Length == |input| - 1
      ensures forall j :: 0 <= j < values.Length ==> values[j] == Text(input[j + 1])
    {
      var entryCount := |input| - 1;
      values := new Cell[entryCount];
      var i := 1;
      while i <= entryCount
        invariant 1 <= i <= entryCount + 1
        invariant forall j :: 0 <= j < i - 1 ==> values[j] == Text(input[j + 1])
      {
        values[i - 1] := Text(input[i]);
        i := i + 1;
      }
    }

    /** The status as the engine's integer code: 0 exactly when nothing went wrong. */
    function GetStatus(): (code: int)
      reads this
      ensures 0 <= code <= 7
      ensures code == 0 <==> status == Ok
    {
      Code(status)
    }

    /**
     * The slot a reference names: the row letters are summed from the last
     * one up, each weighed by its power of 26, then the column is added.
     */
    method GetIndex(reference: string) returns (index: int)
      requires IsReference(reference)
      ensures index == Decode(columnCount, reference)
    {
      index := 0;
      var pos := FirstDigit(reference);
      var rowVal := reference[..pos];
      var columnVal := reference[pos..];
      var i := |rowVal| - 1;
      while i >= 0
        invariant -1 <= i < |rowVal|
        invariant index == RowOrdinal(rowVal[i + 1..]) * columnCount
      {
        WeightedLetter(rowVal[i], rowVal[i + 1..], columnCount);
        assert rowVal[i..] == [rowVal[i]] + rowVal[i + 1..];
        index := index + Pow26(|rowVal| - 1 - i) * LetterValue(rowVal[i]) * columnCount;
        i := i - 1;
      }
      assert rowVal[0..] == rowVal;
      Distribute(RowOrdinal(rowVal) - 1, columnCount);
      index := index - columnCount;
      index := index + DigitsValue(columnVal) - 1;
    }

    /**
     * Resolves `expression` on behalf of slot `index` (NoRef for a token of
     * an expression), and leaves the slots and the status that
     * Evaluator.Resolve describes.  Nothing happens once the status records
     * an error.
     */
    method Resolve(index: int, expression: Cell) returns (value: real)
      requires IsTarget(index, cells.Length)
      modifies this, cells
      ensures Outcome(cells[..], status, value)
              == Evaluator.Resolve(columnCount, old(cells[..]), old(status), index, expression)
      decreases TextCount(cells[..]), Mode(cells[..], index), Size(expression), 1
    {
      value := 0.0;
      if GetStatus() != Code(Ok) {
        return;
      }
      if expression.Resolved? {
        value := expression.value;
        return;
      }
      var text := if expression.Text? then expression.text else Sentinel;
      if IsLiteral(text) {
        value := LiteralValue(text);
      } else if IsReference(text) {
        value := FollowReference(index, text);
      } else {
        value := EvaluateExpression(index, text);
      }
    }

    /**
     * A single reference: rejected when it lies past the store, a cycle when
     * it names a slot in progress; otherwise the call's slot is marked, the
     * named slot resolved, and the value written to both.
     */
    method FollowReference(index: int, text: string) returns (value: real)
      requires IsTarget(index, cells.Length) && IsReference(text) && status == Ok
      modifies this, cells
      ensures Outcome(cells[..], status, value)
              == Evaluator.FollowReference(columnCount, old(cells[..]), index, text)
      decreases TextCount(cells[..]), Mode(cells[..], index), 2 * |text| + 2, 0
    {
      ghost var before := cells[..];
      value := 0.0;
      var i := GetIndex(text);
      if OutOfBounds(i, cells.Length) {
        status := HasInvalidReference;
        return;
      }
      var reference := cells[i];
      if reference != InProgress {
        if index != NoRef {
          cells[index] := InProgress;
        }
        ghost var marked := Mark(before, index);
        assert cells[..] == marked;
        assert Mode(before, index) == 0 || Mode(marked, i) == 0 || Size(reference) == 0;
        ghost var o := Evaluator.Resolve(columnCount, marked, Ok, i, reference);
        var v := Resolve(i, reference);
        assert cells[..] == o.cells && status == o.status && v == o.value;
        if index != NoRef {
          cells[index] := Resolved(v);
        }
        assert cells[..] == Store(o.cells, index, v);
        cells[i] := Resolved(v);
        value := v;
      } else {
        status := HasCircularReference;
      }
    }

    /**
     * A postfix expression: the call's slot is marked, the tokens are run
     * through a stack, and a single remaining value is the result, which is
     * also stored in the call's slot.
     */
    method EvaluateExpression(index: int, text: string) returns (value: real)
      requires IsTarget(index, cells.Length) && status == Ok
      modifies this, cells
      ensures Outcome(cells[..], status, value)
              == Evaluator.EvaluateExpression(columnCount, old(cells[..]), index, text)
      decreases TextCount(cells[..]), Mode(cells[..], index), 2 * |text| + 2, 0
    {
      ghost var before := cells[..];
      value := 0.0;
      if index != NoRef {
        cells[index] := InProgress;
      }
      assert cells[..] == Mark(before, index);
      var stack, aborted := RunTokens(text);
      if aborted {
        return;
      }
      if |stack| == 1 {
        value := stack[0];
        if index != NoRef {
          cells[index] := Resolved(value);
        }
      } else {
        status := HasInvalidExpression;
      }
    }

    /**
     * The token loop of an expression: operators work on the stack, every
     * other token is resolved on its own and pushed.  `aborted` reports the
     * early return of a token equal to the whole text.
     */
    method RunTokens(text: string) returns (stack: seq<real>, aborted: bool)
      modifies this, cells
      ensures Run(cells[..], status, stack, aborted)
              == Evaluator.EvaluateTokens(columnCount, old(cells[..]), old(status), text, Split(text), 0, [])
      decreases TextCount(cells[..]), 1, 2 * |text| + 1, 1
    {
      ghost var run := Evaluator.EvaluateTokens(columnCount, cells[..], status, text, Split(text), 0, []);
      ghost var start := TextCount(cells[..]);
      var tokens := Split(text);
      stack, aborted := [], false;
      var k := 0;
      while k < |tokens|
        invariant 0 <= k <= |tokens|
        invariant TextCount(cells[..]) <= start
        invariant Evaluator.EvaluateTokens(columnCount, cells[..], status, text, tokens, k, stack) == run
      {
        ghost var here := cells[..];
        ghost var current := status;
        ghost var operands := stack;
        var token := tokens[k];
        if IsOperator(token) {
          if |stack| > 0 {
            OperatorStep(columnCount, here, current, text, tokens, k, operands);
            stack := ApplyOperator(token, stack);
            assert Evaluator.EvaluateTokens(columnCount, cells[..], status, text, tokens, k + 1, stack) == run;
          } else {
            ExitStep(columnCount, here, current, text, tokens, k, operands);
            status := HasInvalidExpression;
            break;
          }
        } else if token != text {
          OperandStep(columnCount, here, current, text, tokens, k, operands);
          stack := PushOperand(text, token, stack);
          assert Evaluator.EvaluateTokens(columnCount, cells[..], status, text, tokens, k + 1, stack) == run;
        } else {
          ExitStep(columnCount, here, current, text, tokens, k, operands);
          status, aborted := InternalError, true;
          return;
        }
        k := k + 1;
      }
    }

    /** An operand token of `text`: it is resolved on its own and its value pushed. */
    method PushOperand(text: string, token: string, stack: seq<real>) returns (next: seq<real>)
      requires |token| < |text|
      modifies this, cells
      ensures var o := Evaluator.Resolve(columnCount, old(cells[..]), old(status), NoRef, Text(token));
              cells[..] == o.cells && status == o.status && next == stack + [o.value]
      decreases TextCount(cells[..]), 1, 2 * |text| + 1, 0
    {
      var v := Resolve(NoRef, Text(token));
      next := stack + [v];
    }

    /**
     * One operator on a non-empty stack: `++` and `--` replace the top, a
     * binary operator replaces the top two by its result, and a binary
     * operator that finds a single operand empties the stack and records an
     * invalid expression.
     */
    method ApplyOperator(token: string, operands: seq<real>) returns (stack: seq<real>)
      requires IsOperator(token) && |operands| > 0
      modifies this
      ensures stack == Operate(token, operands)
      ensures status == if Lacking(token, operands) then HasInvalidExpression else old(status)
    {
      stack := operands;
      var a := stack[|stack| - 1];
      stack := stack[..|stack| - 1];
      if IsUnary(token) {
        stack := stack + [ApplyUnary(token, a)];
      } else if |stack| > 0 {
        var b := stack[|stack| - 1];
        stack := stack[..|stack| - 1];
        stack := stack + [Apply(token, a, b)];
      } else {
        status := HasInvalidExpression;
      }
    }

    /**
     * Resolves the slots in order, writing each result back, and stops at
     * the first slot that leaves an error.
     */
    method ResolveAll()
      modifies this, cells
      ensures Grid(cells[..], status) == ResolveFrom(columnCount, old(cells[..]), 0)
    {
      ghost var goal := ResolveFrom(columnCount, cells[..], 0);
      status := Ok;
      var i := 0;
      while i < cells.Length
        invariant 0 <= i <= cells.Length
        invariant status == Ok
        invariant ResolveFrom(columnCount, cells[..], i) == goal
      {
        ghost var current := cells[..];
        ResolveSlot(i);
        ResolveFromStep(columnCount, current, i, Evaluator.Resolve(columnCount, current, Ok, i, current[i]));
        if GetStatus() != Code(Ok) {
          break;
        }
        i := i + 1;
      }
    }

    /** One step of resolveAll: slot `i` is resolved and its value written back. */
    method ResolveSlot(i: int)
      requires 0 <= i < cells.Length && status == Ok
      modifies this, cells
      ensures var o := Evaluator.Resolve(columnCount, old(cells[..]), Ok, i, old(cells[i]));
              cells[..] == o.cells[i := Resolved(o.value)] && status == o.status
    {
      ghost var before := cells[..];
      var expression := cells[i];
      var value := Resolve(i, expression);
      ghost var o := Outcome(cells[..], status, value);
      assert o == Evaluator.Resolve(columnCount, before, Ok, i, before[i]);
      cells[i] := Resolved(value);
      assert cells[..] == o.cells[i := Resolved(o.value)];
    }
  }
}

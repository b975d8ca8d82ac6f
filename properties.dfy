/**
 * What the resolution engine guarantees, stated about the functions of
 * module Evaluator (and so, through the method contracts, about the class).
 */
module Properties {
  import opened Cells
  import opened Lexical
  import opened References
  import opened Evaluator

  // ---------------------------------------------------------------------
  // Resolution never disturbs a settled slot and raises only its own errors

  /**
   * A slot that already holds a number keeps it through any call whose own
   * slot holds its content or the marker, and the status stays OK or
   * becomes a resolution error.
   */
  lemma {:induction false} ResolveKeeps(cols: int, cells: seq<Cell>, status: Status, index: int, e: Cell)
    requires IsTarget(index, |cells|)
    ensures var r := Resolve(cols, cells, status, index, e);
            (Consistent(cells, index, e) ==> ResolvedKept(cells, r.cells)) &&
            (Live(status) ==> Live(r.status))
    decreases TextCount(cells), Mode(cells, index), Size(e), 1
  {
    if status == Ok && !e.Resolved? {
      var text := if e.Text? then e.text else Sentinel;
      if IsLiteral(text) {
      } else if IsReference(text) {
        FollowKeeps(cols, cells, index, text);
      } else {
        ExpressionKeeps(cols, cells, index, text);
      }
    }
  }

  lemma {:induction false} FollowKeeps(cols: int, cells: seq<Cell>, index: int, text: string)
    requires IsTarget(index, |cells|) && IsReference(text)
    ensures var r := FollowReference(cols, cells, index, text);
            (TargetOpen(cells, index) ==> ResolvedKept(cells, r.cells)) && Live(r.status)
    decreases TextCount(cells), Mode(cells, index), 2 * |text| + 2, 0
  {
    var i := Decode(cols, text);
    if !OutOfBounds(i, |cells|) && cells[i] != InProgress {
      var marked := Mark(cells, index);
      assert Mode(cells, index) == 0 || Mode(marked, i) == 0 || Size(cells[i]) == 0;
      var o := Resolve(cols, marked, Ok, i, cells[i]);
      ResolveKeeps(cols, marked, Ok, i, cells[i]);
      if cells[i].Resolved? {
        assert o.value == cells[i].value;
      }
      WriteBackKeeps(cells, marked, o.cells, index, i, o.value);
    }
  }

  /** The two write-backs of a reference keep every slot that was settled before the mark. */
  lemma WriteBackKeeps(cells: seq<Cell>, marked: seq<Cell>, after: seq<Cell>, index: int, i: int, v: real)
    requires IsTarget(index, |cells|) && 0 <= i < |cells| && marked == Mark(cells, index)
    requires ResolvedKept(marked, after)
    requires cells[i].Resolved? ==> v == cells[i].value
    ensures TargetOpen(cells, index) ==> ResolvedKept(cells, Store(after, index, v)[i := Resolved(v)])
  {
    if TargetOpen(cells, index) {
      assert ResolvedKept(cells, marked);
    }
  }

  lemma {:induction false} ExpressionKeeps(cols: int, cells: seq<Cell>, index: int, text: string)
    requires IsTarget(index, |cells|)
    ensures var r := EvaluateExpression(cols, cells, index, text);
            (TargetOpen(cells, index) ==> ResolvedKept(cells, r.cells)) && Live(r.status)
    decreases TextCount(cells), Mode(cells, index), 2 * |text| + 2, 0
  {
    var marked := Mark(cells, index);
    var run := EvaluateTokens(cols, marked, Ok, text, Split(text), 0, []);
    TokensKeep(cols, marked, Ok, text, Split(text), 0, []);
    ConcludeKeeps(cells, marked, run, index);
  }

  /** Marking an open slot and concluding over a run that kept the marked store keeps the store. */
  lemma ConcludeKeeps(cells: seq<Cell>, marked: seq<Cell>, run: Run, index: int)
    requires IsTarget(index, |cells|) && marked == Mark(cells, index)
    requires ResolvedKept(marked, run.cells) && Live(run.status)
    ensures var r := Conclude(run, index);
            (TargetOpen(cells, index) ==> ResolvedKept(cells, r.cells)) && Live(r.status)
  {
    if TargetOpen(cells, index) {
      assert ResolvedKept(cells, marked);
    }
  }

  lemma {:induction false} TokensKeep(cols: int, cells: seq<Cell>, status: Status, text: string,
                                      tokens: seq<string>, k: nat, stack: seq<real>)
    requires k <= |tokens|
    requires forall j :: 0 <= j < |tokens| ==> tokens[j] == text || |tokens[j]| < |text|
    ensures var r := EvaluateTokens(cols, cells, status, text, tokens, k, stack);
            ResolvedKept(cells, r.cells) && (Live(status) ==> Live(r.status))
    decreases TextCount(cells), 1, 2 * |text| + 1, |tokens| - k
  {
    if k < |tokens| {
      var token := tokens[k];
      if IsOperator(token) {
        if |stack| > 0 {
          var s := if Lacking(token, stack) then HasInvalidExpression else status;
          TokensKeep(cols, cells, s, text, tokens, k + 1, Operate(token, stack));
        }
      } else if token != text {
        var o := Resolve(cols, cells, status, NoRef, Text(token));
        ResolveKeeps(cols, cells, status, NoRef, Text(token));
        TokensKeep(cols, o.cells, o.status, text, tokens, k + 1, stack + [o.value]);
      }
    }
  }

  // ---------------------------------------------------------------------
  // Classification of a cell's text

  /** A literal holds digits, at most dots besides, and a sign only in front. */
  lemma LiteralChars(s: string, j: int)
    requires IsLiteral(s) && 0 <= j < |s|
    ensures IsDigit(s[j]) || s[j] == '.' || (j == 0 && (s[0] == '+' || s[0] == '-'))
  {
    var u := Unsigned(s);
    DecimalIsDottedLooseDecimal(u);
    if u != s {
      if j > 0 { assert s[j] == u[j - 1]; }
    } else {
      assert s[j] == u[j];
    }
  }

  /** A reference starts with a letter, so it is never read as a number. */
  lemma ReferenceIsNotLiteral(s: string)
    requires IsReference(s)
    ensures !IsLiteral(s)
  {
    assert IsUpper(s[..FirstDigit(s)][0]);
    if IsLiteral(s) {
      LiteralChars(s, 0);
    }
  }

  /** Text with a space in it is neither a number nor a reference. */
  lemma SpacedIsExpression(s: string, p: int)
    requires 0 <= p < |s| && s[p] == ' '
    ensures !IsLiteral(s) && !IsReference(s)
  {
    if IsLiteral(s) {
      LiteralChars(s, p);
    }
  }

  /** An operator on its own is neither a number nor a reference. */
  lemma OperatorIsExpression(op: string)
    requires IsOperator(op)
    ensures !IsLiteral(op) && !IsReference(op) && ' ' !in op
  {
    if IsLiteral(op) {
      LiteralChars(op, |op| - 1);
    }
  }

  // ---------------------------------------------------------------------
  // The guard clauses of resolve

  /** Once the status records an error, resolving returns 0 and changes nothing. */
  lemma StoppedAfterError(cols: int, cells: seq<Cell>, status: Status, index: int, e: Cell)
    requires IsTarget(index, |cells|) && status != Ok
    ensures Resolve(cols, cells, status, index, e) == Outcome(cells, status, 0.0)
  {
  }

  /** A number literal is its own value and writes no slot. */
  lemma LiteralIsItsValue(cols: int, cells: seq<Cell>, index: int, t: string)
    requires IsTarget(index, |cells|) && IsLiteral(t)
    ensures Resolve(cols, cells, Ok, index, Text(t)) == Outcome(cells, Ok, LiteralValue(t))
  {
  }

  /** A reference past the end of the store is rejected, and no slot is written. */
  lemma InvalidReferenceRejected(cols: int, cells: seq<Cell>, index: int, t: string)
    requires IsTarget(index, |cells|) && IsReference(t) && OutOfBounds(Decode(cols, t), |cells|)
    ensures Resolve(cols, cells, Ok, index, Text(t)) == Outcome(cells, HasInvalidReference, 0.0)
  {
    ReferenceIsNotLiteral(t);
  }

  /** A reference to a slot in progress is a cycle, and no slot is written. */
  lemma MarkedTargetIsCircular(cols: int, cells: seq<Cell>, index: int, t: string)
    requires IsTarget(index, |cells|) && IsReference(t)
    requires !OutOfBounds(Decode(cols, t), |cells|) && cells[Decode(cols, t)] == InProgress
    ensures Resolve(cols, cells, Ok, index, Text(t)) == Outcome(cells, HasCircularReference, 0.0)
  {
    ReferenceIsNotLiteral(t);
  }

  /**
   * Following a reference returns the value of the slot it names, and that
   * value is written both to that slot and to the referring one (also when
   * the named slot's resolution raised an error).
   */
  lemma ReferenceCachesValue(cols: int, cells: seq<Cell>, index: int, t: string)
    requires IsTarget(index, |cells|) && IsReference(t)
    requires !OutOfBounds(Decode(cols, t), |cells|) && cells[Decode(cols, t)] != InProgress
    ensures var i := Decode(cols, t);
            var r := Resolve(cols, cells, Ok, index, Text(t));
            var o := Resolve(cols, Mark(cells, index), Ok, i, cells[i]);
            r.value == o.value && r.status == o.status &&
            r.cells[i] == Resolved(r.value) && (index != NoRef ==> r.cells[index] == Resolved(r.value))
  {
    ReferenceIsNotLiteral(t);
  }

  // ---------------------------------------------------------------------
  // Cycles

  /**
   * Distinct slots `path[0], path[1], ...` whose texts are references, each
   * to the next slot of the path and the last one back to the first.
   */
  predicate IsCycle(cols: int, size: int, path: seq<int>, texts: seq<string>) {
    |path| == |texts| > 0 &&
    (forall m :: 0 <= m < |path| ==> 0 <= path[m] < size && IsReference(texts[m])) &&
    (forall m, n :: 0 <= m < n < |path| ==> path[m] != path[n]) &&
    (forall m :: 0 <= m < |path| - 1 ==> Decode(cols, texts[m]) == path[m + 1]) &&
    Decode(cols, texts[|path| - 1]) == path[0]
  }

  /**
   * Resolution has walked the cycle up to slot `path[j]`: the slots before it
   * are in progress, the ones after it still hold their text.
   */
  predicate Walked(cells: seq<Cell>, path: seq<int>, texts: seq<string>, j: int)
    requires |path| == |texts| && 0 <= j < |path|
    requires forall m :: 0 <= m < |path| ==> 0 <= path[m] < |cells|
  {
    (forall m :: 0 <= m < j ==> cells[path[m]] == InProgress) &&
    (forall m :: j < m < |path| ==> cells[path[m]] == Text(texts[m])) &&
    (cells[path[j]] == Text(texts[j]) || cells[path[j]] == InProgress)
  }

  /**
   * Resolving any slot of a cycle of references, from any point of the walk,
   * ends in the circular-reference error.
   */
  lemma {:induction false} CycleIsCircular(cols: int, cells: seq<Cell>, path: seq<int>, texts: seq<string>, j: int)
    requires IsCycle(cols, |cells|, path, texts) && 0 <= j < |path|
    requires Walked(cells, path, texts, j)
    ensures Resolve(cols, cells, Ok, path[j], Text(texts[j])).status == HasCircularReference
    decreases TextCount(cells), |path| - j
  {
    var k := NextOnCycle(cols, |cells|, path, texts, j);
    if cells[path[k]] == InProgress {
      MarkedTargetIsCircular(cols, cells, path[j], texts[j]);
    } else {
      WalkOn(cols, cells, path, texts, j, k);
      ReferenceCachesValue(cols, cells, path[j], texts[j]);
      CycleIsCircular(cols, Mark(cells, path[j]), path, texts, k);
    }
  }

  /** The slot of a cycle that slot `path[j]` refers to: the next one, or the first after the last. */
  lemma NextOnCycle(cols: int, size: int, path: seq<int>, texts: seq<string>, j: int) returns (k: int)
    requires IsCycle(cols, size, path, texts) && 0 <= j < |path|
    ensures 0 <= k < |path| && Decode(cols, texts[j]) == path[k] && !OutOfBounds(path[k], size)
    ensures k == j + 1 || (j == |path| - 1 && k == 0)
  {
    k := if j < |path| - 1 then j + 1 else 0;
  }

  /**
   * Marking the current slot of the walk moves the walk on to the slot it
   * refers to; staying in place happens only on a one-slot cycle, whose
   * slot still holds its text.
   */
  lemma WalkOn(cols: int, cells: seq<Cell>, path: seq<int>, texts: seq<string>, j: int, k: int)
    requires IsCycle(cols, |cells|, path, texts) && 0 <= j < |path|
    requires Walked(cells, path, texts, j)
    requires 0 <= k < |path| && (k == j + 1 || (j == |path| - 1 && k == 0))
    requires cells[path[k]] != InProgress
    ensures k == j + 1 || (k == j && cells[path[j]].Text?)
    ensures cells[path[k]] == Text(texts[k])
    ensures Walked(Mark(cells, path[j]), path, texts, k)
  {
    if k == j + 1 {
      WalkForward(cells, path, texts, j);
    } else {
      assert j == 0;
      MarkFrame(cells, path, j);
    }
  }

  /** Marking a slot of a path leaves every other slot of the path as it was. */
  lemma MarkFrame(cells: seq<Cell>, path: seq<int>, j: int)
    requires 0 <= j < |path|
    requires forall m :: 0 <= m < |path| ==> 0 <= path[m] < |cells|
    requires forall m, n :: 0 <= m < n < |path| ==> path[m] != path[n]
    ensures Mark(cells, path[j])[path[j]] == InProgress
    ensures forall m :: 0 <= m < |path| && m != j ==> Mark(cells, path[j])[path[m]] == cells[path[m]]
  {
  }

  lemma WalkForward(cells: seq<Cell>, path: seq<int>, texts: seq<string>, j: int)
    requires |path| == |texts| && 0 <= j < |path| - 1
    requires forall m :: 0 <= m < |path| ==> 0 <= path[m] < |cells|
    requires forall m, n :: 0 <= m < n < |path| ==> path[m] != path[n]
    requires Walked(cells, path, texts, j)
    ensures cells[path[j + 1]] == Text(texts[j + 1])
    ensures Walked(Mark(cells, path[j]), path, texts, j + 1)
  {
    MarkFrame(cells, path, j);
  }

  /** A slot that refers to itself is circular. */
  lemma SelfReferenceIsCircular(cols: int, cells: seq<Cell>, k: int, t: string)
    requires 0 <= k < |cells| && cells[k] == Text(t)
    requires IsReference(t) && Decode(cols, t) == k
    ensures Resolve(cols, cells, Ok, k, cells[k]).status == HasCircularReference
  {
    CycleIsCircular(cols, cells, [k], [t], 0);
  }

  /** Two slots that refer to each other are circular. */
  lemma MutualReferenceIsCircular(cols: int, cells: seq<Cell>, a: int, b: int, ta: string, tb: string)
    requires 0 <= a < |cells| && 0 <= b < |cells| && a != b
    requires cells[a] == Text(ta) && cells[b] == Text(tb)
    requires IsReference(ta) && IsReference(tb) && Decode(cols, ta) == b && Decode(cols, tb) == a
    ensures Resolve(cols, cells, Ok, a, cells[a]).status == HasCircularReference
  {
    CycleIsCircular(cols, cells, [a, b], [ta, tb], 0);
  }

  /** A one-column store A1 = B1, B1 = A1 stops at its first slot with the circular-reference error. */
  lemma TwoSlotCycle()
    ensures ResolveFrom(1, [Text("B1"), Text("A1")], 0).status == HasCircularReference
  {
    var cells := [Text("B1"), Text("A1")];
    DecodeFirstColumn(1);
    MutualReferenceIsCircular(1, cells, 0, 1, "B1", "A1");
    ResolveFromStep(1, cells, 0, Resolve(1, cells, Ok, 0, cells[0]));
  }

  // ---------------------------------------------------------------------
  // Chains of references

  /**
   * Distinct slots whose texts are references, each to the next slot of the
   * path, the last slot holding a number literal.
   */
  predicate IsChain(cols: int, size: int, path: seq<int>, texts: seq<string>) {
    |path| == |texts| >= 2 &&
    (forall m :: 0 <= m < |path| ==> 0 <= path[m] < size) &&
    (forall m, n :: 0 <= m < n < |path| ==> path[m] != path[n]) &&
    (forall m :: 0 <= m < |path| - 1 ==> IsReference(texts[m]) && Decode(cols, texts[m]) == path[m + 1]) &&
    IsLiteral(texts[|path| - 1])
  }

  /**
   * Resolving a slot of a chain yields the literal at the chain's end, writes
   * that value into every slot from there to the end, and no other slot.
   */
  lemma {:induction false} ChainResolves(cols: int, cells: seq<Cell>, path: seq<int>, texts: seq<string>, j: int)
    requires IsChain(cols, |cells|, path, texts) && 0 <= j < |path| - 1
    requires forall m :: j <= m < |path| ==> cells[path[m]] == Text(texts[m])
    ensures var r := Resolve(cols, cells, Ok, path[j], Text(texts[j]));
            r.status == Ok && r.value == LiteralValue(texts[|path| - 1]) &&
            (forall m :: j <= m < |path| ==> r.cells[path[m]] == Resolved(r.value)) &&
            (forall x :: 0 <= x < |cells| && x !in path[j..] ==> r.cells[x] == cells[x])
    decreases |path| - j
  {
    var marked := Mark(cells, path[j]);
    if j + 1 < |path| - 1 {
      MarkKeepsRest(cells, path, texts, j);
      ChainResolves(cols, marked, path, texts, j + 1);
    } else {
      LiteralIsItsValue(cols, marked, path[j + 1], texts[j + 1]);
      assert path[j + 1..] == [path[j + 1]];
    }
    ChainLink(cols, cells, path, texts, j, LiteralValue(texts[|path| - 1]));
  }

  /** Marking one slot of a chain leaves the texts of the slots after it in place. */
  lemma MarkKeepsRest(cells: seq<Cell>, path: seq<int>, texts: seq<string>, j: int)
    requires |path| == |texts| && 0 <= j < |path| - 1
    requires forall m :: 0 <= m < |path| ==> 0 <= path[m] < |cells|
    requires forall m, n :: 0 <= m < n < |path| ==> path[m] != path[n]
    requires forall m :: j <= m < |path| ==> cells[path[m]] == Text(texts[m])
    ensures forall m :: j < m < |path| ==> Mark(cells, path[j])[path[m]] == Text(texts[m])
  {
  }

  /**
   * One link of a chain: once the slot it refers to has resolved, writing
   * that slot's value twice on the way back settles the link.
   */
  lemma ChainLink(cols: int, cells: seq<Cell>, path: seq<int>, texts: seq<string>, j: int, v: real)
    requires IsChain(cols, |cells|, path, texts) && 0 <= j < |path| - 1
    requires cells[path[j + 1]] == Text(texts[j + 1])
    requires var o := Resolve(cols, Mark(cells, path[j]), Ok, path[j + 1], Text(texts[j + 1]));
             o.status == Ok && o.value == v &&
             (forall m :: j + 1 < m < |path| ==> o.cells[path[m]] == Resolved(v)) &&
             (forall x :: 0 <= x < |cells| && x !in path[j + 1..] ==> o.cells[x] == Mark(cells, path[j])[x])
    ensures var r := Resolve(cols, cells, Ok, path[j], Text(texts[j]));
            r.status == Ok && r.value == v &&
            (forall m :: j <= m < |path| ==> r.cells[path[m]] == Resolved(v)) &&
            (forall x :: 0 <= x < |cells| && x !in path[j..] ==> r.cells[x] == cells[x])
  {
    var o := Resolve(cols, Mark(cells, path[j]), Ok, path[j + 1], Text(texts[j + 1]));
    assert Mark(cells, path[j]) == cells[path[j] := InProgress];
    ReferenceUnfolds(cols, cells, path[j], texts[j]);
    ChainWrite(cells, o.cells, path, j, v);
  }

  /** Resolving a reference to a slot that is not in progress, spelt out. */
  lemma ReferenceUnfolds(cols: int, cells: seq<Cell>, index: int, t: string)
    requires IsTarget(index, |cells|) && IsReference(t)
    requires !OutOfBounds(Decode(cols, t), |cells|) && cells[Decode(cols, t)] != InProgress
    ensures var i := Decode(cols, t);
            var o := Resolve(cols, Mark(cells, index), Ok, i, cells[i]);
            Resolve(cols, cells, Ok, index, Text(t))
            == Outcome(Store(o.cells, index, o.value)[i := Resolved(o.value)], o.status, o.value)
  {
    ReferenceIsNotLiteral(t);
  }

  /** The two write-backs of one link of a chain, on top of what the rest of the chain wrote. */
  lemma ChainWrite(cells: seq<Cell>, after: seq<Cell>, path: seq<int>, j: int, v: real)
    requires 0 <= j < |path| - 1 && |after| == |cells|
    requires forall m :: 0 <= m < |path| ==> 0 <= path[m] < |cells|
    requires forall m, n :: 0 <= m < n < |path| ==> path[m] != path[n]
    requires forall m :: j + 1 < m < |path| ==> after[path[m]] == Resolved(v)
    requires forall x :: 0 <= x < |cells| && x !in path[j + 1..] ==> after[x] == cells[path[j] := InProgress][x]
    ensures var r := Store(after, path[j], v)[path[j + 1] := Resolved(v)];
            (forall m :: j <= m < |path| ==> r[path[m]] == Resolved(v)) &&
            (forall x :: 0 <= x < |cells| && x !in path[j..] ==> r[x] == cells[x])
  {
    var stored := Store(after, path[j], v);
    var r := stored[path[j + 1] := Resolved(v)];
    assert stored == after[path[j] := Resolved(v)];
    forall m | j <= m < |path|
      ensures r[path[m]] == Resolved(v)
    {
      if m > j + 1 {
        assert path[m] != path[j] && path[m] != path[j + 1];
      }
    }
    forall x | 0 <= x < |cells| && x !in path[j..]
      ensures r[x] == cells[x]
    {
      assert path[j..] == [path[j]] + path[j + 1..];
      assert x != path[j] && x != path[j + 1] && x !in path[j + 1..];
    }
  }

  /** The one-column store A1 = B1, B1 = C1, C1 = 5 is a chain. */
  lemma ChainOfThreeLinks()
    ensures IsChain(1, 3, [0, 1, 2], ["B1", "C1", "5"]) && LiteralValue("5") == 5.0
  {
    var path, texts := [0, 1, 2], ["B1", "C1", "5"];
    DecodeFirstColumn(1);
    DecodeThirdRow(1);
    FiveLiteral();
    forall m | 0 <= m < |path| - 1
      ensures IsReference(texts[m]) && Decode(1, texts[m]) == path[m + 1]
    {
      if m == 0 { assert texts[0] == "B1"; } else { assert texts[1] == "C1"; }
    }
    forall m, n | 0 <= m < n < |path|
      ensures path[m] != path[n]
    {
      assert path[m] == m && path[n] == n;
    }
  }

  lemma FiveLiteral()
    ensures IsLiteral("5") && LiteralValue("5") == 5.0
  {
    DigitLiteral(5);
    assert [DigitChar(5)] == "5";
  }

  /** A single digit is a literal with its own value. */
  lemma DigitLiteral(d: nat)
    requires d < 10
    ensures IsLiteral([DigitChar(d)]) && LiteralValue([DigitChar(d)]) == d as real
  {
    ShowIntLiteral(d);
  }

  /**
   * A chain that starts at the first slot and passes through every slot:
   * the driver leaves every slot holding the literal at the chain's end.
   */
  lemma ChainSettles(cols: int, cells: seq<Cell>, path: seq<int>, texts: seq<string>)
    requires IsChain(cols, |cells|, path, texts) && path[0] == 0
    requires forall m :: 0 <= m < |path| ==> cells[path[m]] == Text(texts[m])
    requires forall x :: 0 <= x < |cells| ==> x in path
    ensures ResolveFrom(cols, cells, 0)
            == Grid(seq(|cells|, _ => Resolved(LiteralValue(texts[|path| - 1]))), Ok)
  {
    var v := LiteralValue(texts[|path| - 1]);
    var done := seq(|cells|, _ => Resolved(v));
    var o := Resolve(cols, cells, Ok, 0, cells[0]);
    assert o.status == Ok && o.value == v && forall m :: 0 <= m < |path| ==> o.cells[path[m]] == Resolved(v) by {
      ChainResolves(cols, cells, path, texts, 0);
    }
    Covered(o.cells, path, v);
    FirstSlotSettles(cols, cells, done);
  }

  /**
   * A value written to every slot of a path that covers the store, and then
   * to the first slot once more, is in every slot.
   */
  lemma Covered(after: seq<Cell>, path: seq<int>, v: real)
    requires |after| > 0
    requires forall m :: 0 <= m < |path| && 0 <= path[m] < |after| ==> after[path[m]] == Resolved(v)
    requires forall x :: 0 <= x < |after| ==> x in path
    ensures after[0 := Resolved(v)] == seq(|after|, _ => Resolved(v))
  {
    var written := after[0 := Resolved(v)];
    forall x | 0 <= x < |after|
      ensures written[x] == Resolved(v)
    {
      assert x in path;
      var m :| 0 <= m < |path| && path[m] == x;
    }
  }

  /** In a one-column store A1 = B1, B1 = C1, C1 = 5, every slot resolves to 5. */
  lemma ChainOfThree(cells: seq<Cell>)
    requires cells == [Text("B1"), Text("C1"), Text("5")]
    ensures ResolveFrom(1, cells, 0) == Grid([Resolved(5.0), Resolved(5.0), Resolved(5.0)], Ok)
  {
    var path := [0, 1, 2];
    ChainOfThreeLinks();
    assert forall x :: 0 <= x < 3 ==> x in path by {
      assert path[0] == 0 && path[1] == 1 && path[2] == 2;
    }
    ChainSettles(1, cells, path, ["B1", "C1", "5"]);
    ThreeOf(Resolved(5.0));
  }

  lemma ThreeOf(c: Cell)
    ensures seq(3, _ => c) == [c, c, c]
  {
  }

  /** When resolving the first slot resolves every slot, the driver stops there with OK. */
  lemma FirstSlotSettles(cols: int, cells: seq<Cell>, done: seq<Cell>)
    requires |cells| > 0
    requires var o := Resolve(cols, cells, Ok, 0, cells[0]);
             o.status == Ok && o.cells[0 := Resolved(o.value)] == done && AllResolved(done)
    ensures ResolveFrom(cols, cells, 0) == Grid(done, Ok)
  {
    ResolveFromStep(cols, cells, 0, Resolve(cols, cells, Ok, 0, cells[0]));
    ResolveFromSettled(cols, done, 1);
  }

  // ---------------------------------------------------------------------
  // The driver

  /** On a store that is already resolved, the driver changes nothing and succeeds. */
  lemma {:induction false} ResolveFromSettled(cols: int, cells: seq<Cell>, k: nat)
    requires k <= |cells| && AllResolved(cells)
    ensures ResolveFrom(cols, cells, k) == Grid(cells, Ok)
    decreases |cells| - k
  {
    if k < |cells| {
      var o := Resolve(cols, cells, Ok, k, cells[k]);
      assert o == Outcome(cells, Ok, cells[k].value);
      assert o.cells[k := Resolved(o.value)] == cells;
      ResolveFromSettled(cols, cells, k + 1);
    }
  }

  /** A slot whose text is a number literal. */
  predicate HoldsLiteral(c: Cell) {
    c.Text? && IsLiteral(c.text)
  }

  /**
   * A store of number literals resolves with OK, each slot to the value of
   * its own literal; the slots the driver has already passed are untouched.
   */
  lemma LiteralGridResolves(cols: int, cells: seq<Cell>, k: nat)
    requires k <= |cells| && forall j :: k <= j < |cells| ==> HoldsLiteral(cells[j])
    ensures var g := ResolveFrom(cols, cells, k);
            g.status == Ok &&
            (forall j :: 0 <= j < k ==> g.cells[j] == cells[j]) &&
            (forall j :: k <= j < |cells| ==> HoldsLiteral(cells[j]) && g.cells[j] == Resolved(LiteralValue(cells[j].text)))
  {
    ResolveFromLiterals(cols, cells, k);
    SettleSlots(cells, k);
  }

  /** The store with every literal slot from `k` on replaced by its value. */
  ghost function Settle(cells: seq<Cell>, k: nat): seq<Cell>
    requires k <= |cells| && forall j :: k <= j < |cells| ==> HoldsLiteral(cells[j])
    decreases |cells| - k
  {
    if k == |cells| then cells
    else
      assert HoldsLiteral(cells[k]);
      var next := cells[k := Resolved(LiteralValue(cells[k].text))];
      assert forall j :: k + 1 <= j < |next| ==> next[j] == cells[j];
      Settle(next, k + 1)
  }

  lemma {:induction false} ResolveFromLiterals(cols: int, cells: seq<Cell>, k: nat)
    requires k <= |cells| && forall j :: k <= j < |cells| ==> HoldsLiteral(cells[j])
    ensures ResolveFrom(cols, cells, k) == Grid(Settle(cells, k), Ok)
    decreases |cells| - k
  {
    if k < |cells| {
      var next := LiteralStep(cols, cells, k);
      ResolveFromLiterals(cols, next, k + 1);
    }
  }

  /** The driver's step on a literal slot: that slot takes its value, the others stay. */
  lemma LiteralStep(cols: int, cells: seq<Cell>, k: nat) returns (next: seq<Cell>)
    requires k < |cells| && HoldsLiteral(cells[k])
    ensures next == cells[k := Resolved(LiteralValue(cells[k].text))]
    ensures ResolveFrom(cols, cells, k) == ResolveFrom(cols, next, k + 1)
  {
    next := cells[k := Resolved(LiteralValue(cells[k].text))];
    var o := Resolve(cols, cells, Ok, k, cells[k]);
    LiteralIsItsValue(cols, cells, k, cells[k].text);
    ResolveFromStep(cols, cells, k, o);
  }

  lemma {:induction false} SettleSlots(cells: seq<Cell>, k: nat)
    requires k <= |cells| && forall j :: k <= j < |cells| ==> HoldsLiteral(cells[j])
    ensures |Settle(cells, k)| == |cells|
    ensures forall j :: 0 <= j < k ==> Settle(cells, k)[j] == cells[j]
    ensures forall j :: k <= j < |cells| ==> HoldsLiteral(cells[j]) && Settle(cells, k)[j] == Resolved(LiteralValue(cells[j].text))
    decreases |cells| - k
  {
    if k < |cells| {
      var next := cells[k := Resolved(LiteralValue(cells[k].text))];
      SettleSlots(next, k + 1);
      forall j | k < j < |cells| ensures Settle(cells, k)[j] == Resolved(LiteralValue(cells[j].text)) {
        assert next[j] == cells[j];
      }
    }
  }

  /**
   * The driver leaves OK or a resolution error, and when it leaves OK every
   * slot holds a number.
   */
  lemma {:induction false} ResolveFromResolves(cols: int, cells: seq<Cell>, k: nat)
    requires k <= |cells| && forall j :: 0 <= j < k ==> cells[j].Resolved?
    ensures var g := ResolveFrom(cols, cells, k);
            Live(g.status) && (g.status == Ok ==> AllResolved(g.cells))
    decreases |cells| - k
  {
    if k < |cells| {
      var o := Resolve(cols, cells, Ok, k, cells[k]);
      ResolveKeeps(cols, cells, Ok, k, cells[k]);
      var next := o.cells[k := Resolved(o.value)];
      if o.status == Ok {
        assert forall j :: 0 <= j < k + 1 ==> next[j].Resolved?;
        ResolveFromResolves(cols, next, k + 1);
      }
    }
  }

  /**
   * Resolving the whole store either fails with a resolution error or leaves
   * every slot a number, and resolving that store again changes nothing.
   */
  lemma ResolveAllSettles(cols: int, cells: seq<Cell>)
    ensures var g := ResolveFrom(cols, cells, 0);
            Live(g.status) &&
            (g.status == Ok ==> AllResolved(g.cells) && ResolveFrom(cols, g.cells, 0) == g)
  {
    var g := ResolveFrom(cols, cells, 0);
    ResolveFromResolves(cols, cells, 0);
    if g.status == Ok {
      ResolveFromSettled(cols, g.cells, 0);
    }
  }

  // ---------------------------------------------------------------------
  // Column 0

  /** `A0` is a well-formed reference to index -1, before the first slot. */
  lemma ColumnZeroDecodes(cols: int)
    ensures IsReference("A0") && Decode(cols, "A0") == -1
  {
    assert "A0" == "A" + "0";
    assert IsDigits("0") && DigitsValue("0") == 0 by { assert "0"[..0] == ""; }
    LetterOrdinals();
    DecodeLayout(cols, "A", "0");
  }

  /** The upper-bound test alone lets `A0` through, although it names no slot of any store. */
  lemma ColumnZeroPassesUpperBound(cols: int, size: nat)
    ensures IsReference("A0") && !PastEnd(Decode(cols, "A0"), size)
    ensures !(0 <= Decode(cols, "A0") < size)
  {
    ColumnZeroDecodes(cols);
  }

  /** With the lower bound added, `A0` is an invalid reference and no slot is written. */
  lemma ColumnZeroRejected(cols: int, cells: seq<Cell>, index: int)
    requires IsTarget(index, |cells|)
    ensures Resolve(cols, cells, Ok, index, Text("A0")) == Outcome(cells, HasInvalidReference, 0.0)
  {
    ColumnZeroDecodes(cols);
    InvalidReferenceRejected(cols, cells, index, "A0");
  }
}

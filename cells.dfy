/**
 * The cell store of the spreadsheet engine: the status codes, the three
 * states a cell slot can be in, and the two measures on a row-major list of
 * slots that the evaluator's proofs rely on.
 */
module Cells {

  /** The engine's status codes, in the order of their integer values 0..7. */
  datatype Status =
    | Ok
    | IsInvalidFormat
    | HasLackingEntries
    | HasExtraEntries
    | HasCircularReference
    | HasInvalidExpression
    | HasInvalidReference
    | InternalError
  {
    /** The errors that resolving a cell can raise (as opposed to reading the grid). */
    predicate IsResolutionError() {
      HasCircularReference? || HasInvalidExpression? || HasInvalidReference? || InternalError?
    }
  }

  /** The integer constant the engine uses for each status. */
  function Code(s: Status): (c: int)
    ensures 0 <= c <= 7
    ensures c == 0 <==> s == Ok
  {
    match s
    case Ok => 0
    case IsInvalidFormat => 1
    case HasLackingEntries => 2
    case HasExtraEntries => 3
    case HasCircularReference => 4
    case HasInvalidExpression => 5
    case HasInvalidReference => 6
    case InternalError => 7
  }

  /**
   * A slot holds its unresolved source text, the in-progress marker that the
   * engine stores while the slot is being computed along the current chain of
   * references, or the number it resolved to.
   */
  datatype Cell = Text(text: string) | InProgress | Resolved(value: real)

  /** The number of slots still holding source text. */
  function TextCount(cells: seq<Cell>): (n: nat)
    ensures n <= |cells|
  {
    if cells == [] then 0
    else TextCount(cells[..|cells| - 1]) + (if cells[|cells| - 1].Text? then 1 else 0)
  }

  /** Overwriting one slot changes the text count by what left and what came in. */
  lemma {:induction false} TextCountUpdate(cells: seq<Cell>, j: int, c: Cell)
    requires 0 <= j < |cells|
    ensures TextCount(cells[j := c])
            == TextCount(cells) - (if cells[j].Text? then 1 else 0) + (if c.Text? then 1 else 0)
  {
    var n := |cells| - 1;
    if j == n {
      assert cells[j := c][..n] == cells[..n];
    } else {
      TextCountUpdate(cells[..n], j, c);
      assert cells[j := c][..n] == cells[..n][j := c];
    }
  }

  /** Every slot that was resolved in `before` holds the same value in `after`. */
  predicate ResolvedKept(before: seq<Cell>, after: seq<Cell>) {
    |after| == |before| &&
    forall j :: 0 <= j < |before| && before[j].Resolved? ==> after[j] == before[j]
  }

  /** Every slot of the store is resolved. */
  predicate AllResolved(cells: seq<Cell>) {
    forall j :: 0 <= j < |cells| ==> cells[j].Resolved?
  }
}

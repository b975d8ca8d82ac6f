# Spreadsheet resolution engine, in Dafny

This project models the engine of `Spreadsheet.java`, a small spreadsheet evaluator, and proves properties of the model.

The engine reads a grid from lines of text. The first line is `<columns> <rows>`. Every following line is the content of one cell, in row-major order. A cell holds one of three things:

- a number literal, such as `3`, `-2.5` or `+7`;
- a single reference, such as `B2`: row letters in bijective base 26, then a column number from 1;
- a postfix expression over the other two, with the operators `+ - * / ++ --`. The operator pattern at `Spreadsheet.java:31` appears as `[¥+¥-¥/¥*]|[¥+]{2}|[¥-]{2}`. Its `¥` is read as a backslash mangled by a Japanese character encoding, in which the yen sign takes the backslash's code, so each `¥x` is the escaped character `x`. As printed, with a literal `¥`, the pattern would not accept `-` on its own.

`resolveAll` resolves the cells in order, writing each result back. It stops at the first cell that leaves an error. `resolve` caches every value it computes:

- it marks the cell being computed with a shared in-progress marker (`REF`);
- it follows a reference to a marked cell as a circular reference;
- it writes a resolved value both to the referring cell and to the referenced one.

## Structure

| file | module | what it holds |
|---|---|---|
| `cells.dfy` | `Cells` | status codes 0..7, `Cell = Text \| InProgress \| Resolved`, measures on a store |
| `lexical.dfy` | `Lexical` | `String.split(" ")`, `Integer.parseInt`, the number and operator patterns |
| `references.dfy` | `References` | the reference pattern and its decoding into a slot index |
| `input.dfy` | `Input` | the header check of the constructor, with its 32-bit product |
| `evaluator.dfy` | `Evaluator` | `resolve` and `resolveAll` as functions on (store, status) |
| `spreadsheet.dfy` | `Engine` | the class `Spreadsheet`: an `array<Cell>` and a `status` field, updated in place |
| `properties.dfy` | `Properties` | what resolution guarantees: settled slots kept, error classes, cycles, chains, the driver |
| `expressions.dfy` | `Expressions` | postfix semantics and its error cases, and a textbook postfix evaluator the token loop agrees with |

### Class and specification functions

The class mirrors the Java object:

- `columnCount` and `rowCount`;
- `cells: array<Cell>`, standing for the `values` list;
- `status`.

Its methods work step by step, as the source does:

- `GetIndex` accumulates the index in a loop over the row letters;
- the constructor copies the lines in a loop (`Entries`);
- `Resolve` and the methods it calls mark, recurse and write back slots in place;
- `RunTokens` runs the token loop with a stack;
- `ResolveAll` loops over the array.

Each method is proved against a specification function: `GetIndex` against `References.Decode`, the constructor against `Input.ReadHeader`, and the others against the functions of module `Evaluator`. Its `ensures` clause states that the array contents, the status and the returned value afterwards are exactly what that function gives for the old state. The properties in `Properties` and `Expressions` are then proved about those functions.

Some blocks of Java `resolve` became methods of their own, with the contracts that tie them to the functions:

- `FollowReference`: the reference branch;
- `EvaluateExpression`: the expression branch;
- `RunTokens`: the token loop;
- `PushOperand`: one operand token;
- `ApplyOperator`: one operator.

`ResolveSlot` is one iteration of `resolveAll`, and `Entries` is the constructor's copy loop.

### Semantics followed where they are easy to misread

- **Operand order.** An operator pops the top `a`, then the value `b` below it. The binary results are `a + b`, `a - b`, `a * b` and `b / a`, so `3 4 -` is 1 and `8 2 /` is 4.
- **Error in a two-operand operator.** A binary operator that finds one operand records an invalid expression and empties the stack, but the token loop goes on: its `break` leaves only the `switch`. An operator on an empty stack ends the loop.
- **Writes after an error.**
  - A failed reference still writes its value to both slots. The value need not be 0: with one column, A1 = `B1` and B1 = `A1 ++`, the circular reference pushes 0 and `++` makes it 1. Both slots then hold 1 while the status is the circular reference.
  - `resolveAll` writes a slot's value before testing the status.
  - An operand resolved after an error pushes 0 and changes nothing.
- **Later errors replace earlier ones.** The engine is described as keeping the first error, but the code does not always do so. At the end of an expression, a stack that does not hold exactly one value sets the invalid-expression status. That replaces any error an operand raised before, for example the circular reference of `A1 2` in cell A1. The model follows the code: `Expressions.ErrorOverwritten`, `Expressions.OverwrittenExample`.
- **The marker.** `InProgress` stands for the shared string `REF`, which the source compares by identity. A cell whose own text is `REF` is ordinary text. If a marked slot is ever resolved as an expression, it is read as the text `REF`.
- **32-bit header product.** The product of the two header counts is a Java `int` and wraps around. `Input.Wrap32` models the wrap, and `Input.ReadHeaderProductWraps` shows that `65536 65536` is accepted with no entries.
- **Termination.** The recursion ends because of a lexicographic measure:
  1. the number of slots still holding text;
  2. whether the call's own slot holds text;
  3. the length of the text;
  4. a tie-break.

  A reference made for a slot of its own marks that slot before it recurses, so fewer slots hold text. A reference token of an expression has no slot and marks nothing. It recurses on a slot that holds text, so the second part decreases, or on a number, which is smaller still. Every token of an expression is shorter than the expression, or the call aborts.

## Model

| member | source | states |
|---|---|---|
| Cells.Code | Spreadsheet.java:18-25 | the eight status codes are the integers 0..7, and 0 is exactly OK |
| Lexical.ParseInt | Spreadsheet.java:46-47 | a parse succeeds only on an optional sign and digits whose value fits in 32 bits; a negative result has a leading '-' |
| Lexical.ParseShowInt | Spreadsheet.java:46-47 | every 32-bit int written out parses back to itself |
| Lexical.ShowNatRoundTrip | Spreadsheet.java:94 | the digit string of a natural number has that number as its value |
| Lexical.Split | Spreadsheet.java:143 | tokens have no spaces; a token is the whole text or strictly shorter; text without a space is one token |
| Lexical.SplitJoin | Spreadsheet.java:143 | splitting non-empty space-free tokens joined by single spaces gives back those tokens |
| Lexical.FieldsJoin | Spreadsheet.java:143 | the fields between the spaces of joined tokens are those tokens |
| Lexical.IsOperator | Spreadsheet.java:31 | an operator is one or two characters, starts with no digit and holds no space |
| Lexical.IsLiteral | Spreadsheet.java:29 | a number literal is non-empty and ends in a digit |
| Lexical.LiteralValue | Spreadsheet.java:109 | the value of a literal is at most 0 when it has a leading '-' and at least 0 otherwise |
| Lexical.ShowIntLiteral | Spreadsheet.java:107-109 | every integer written out matches the number pattern and reads as that integer |
| Lexical.LooseLiteralAdmitsNonNumber | Spreadsheet.java:29 | the number pattern as written, with its dot unescaped, accepts `1x5` (no number), `3 4` (two numerals) and `1e5` (an exponent form), none of which is an intended literal |
| Lexical.SeparatedDigits | Spreadsheet.java:29 | on digits, one non-digit and digits, the written pattern matches exactly when that character is no line terminator and the intended one exactly when it is a dot |
| Lexical.DecimalIsDottedLooseDecimal | Spreadsheet.java:29 | a text is an intended decimal if and only if it matches the written pattern and its only non-digits are dots |
| References.FirstDigit | Spreadsheet.java:83-87 | the split point of a reference is the first digit: everything before it is not a digit |
| References.IsReference | Spreadsheet.java:30 | a reference is at least two characters and starts with a letter and ends with a digit |
| References.RowOrdinalLeading | Spreadsheet.java:89-92 | a leading letter weighs 26 to the power of the letters after it, as in the weighted sum of the loop |
| References.RowNameRoundTrip | Spreadsheet.java:89-92 | every row number is the value of exactly the letters RowName spells for it |
| References.RowOrdinalRoundTrip | Spreadsheet.java:89-92 | row letters are recovered from their bijective base-26 value |
| References.RowOrdinalInjective | Spreadsheet.java:89-92 | different row letters give different row numbers |
| References.DecodeLayout | Spreadsheet.java:80-97 | letters followed by digits form a reference that splits there and names slot (row - 1) * columns + column - 1 |
| References.DecodeFirstColumn | Spreadsheet.java:80-97 | A1 is slot 0 and B1 is slot `columns` |
| References.DecodeRowEnd | Spreadsheet.java:80-97 | A followed by `columns` names slot columns - 1, the end of the first row |
| References.ColumnOverflowAliases | Spreadsheet.java:89-94 | column columns + c of a row names the same slot as column c of the next row |
| References.DecodeInjective | Spreadsheet.java:89-94 | among references whose column lies within the row width, two that name the same slot have the same letters and column |
| Input.Wrap32 | Spreadsheet.java:49 | the product is reduced into the 32-bit range modulo 2^32, and is unchanged when it already fits |
| Input.ReadHeader | Spreadsheet.java:44-64 | the header is accepted exactly when the first line has two fields, both parse as ints, and their 32-bit product is the number of remaining lines; any other outcome is the invalid-format status |
| Input.ReadHeaderOfCounts | Spreadsheet.java:44-57 | a header written from two ints reads back as those counts, accepted exactly when their wrapped product is the line count |
| Input.ReadHeaderOneField | Spreadsheet.java:62-64 | every first line without a space, whatever lines follow, and no input at all are the invalid format with both counts 0 |
| Input.ReadHeaderBadRows | Spreadsheet.java:46-60 | for every 32-bit column count and every space-free row field that does not parse, the header is the invalid format and the column count that did parse is kept |
| Input.ReadHeaderBadRowsExample | Spreadsheet.java:46-60 | `2 x` is the invalid format with the column count 2 kept |
| Input.ReadHeaderProductWraps | Spreadsheet.java:49-51 | 65536 by 65536 wraps to 0 entries and is accepted with no further lines |
| Engine.Spreadsheet.constructor | Spreadsheet.java:40-65 | the status and both counts are those ReadHeader gives; when accepted, slot j holds line j + 1 as text; when rejected, there are no slots |
| Engine.Spreadsheet.Entries | Spreadsheet.java:53-56 | a fresh array with one slot per line after the first, holding each line in order |
| Engine.Spreadsheet.GetStatus | Spreadsheet.java:227-229 | the integer code of the status, between 0 and 7, and 0 exactly when the status is OK |
| Engine.Spreadsheet.GetIndex | Spreadsheet.java:80-97 | the accumulated index is the decoding (row - 1) * columns + column - 1 of the reference |
| Engine.Spreadsheet.Resolve | Spreadsheet.java:99-216 | the slots, the status and the returned value afterwards are exactly Evaluator.Resolve of the old store and status |
| Engine.Spreadsheet.FollowReference | Spreadsheet.java:110-136 | the new store, status and value are exactly Evaluator.FollowReference of the old store |
| Engine.Spreadsheet.EvaluateExpression | Spreadsheet.java:137-213 | the new store, status and value are exactly Evaluator.EvaluateExpression of the old store |
| Engine.Spreadsheet.RunTokens | Spreadsheet.java:143-202 | the store, status, stack and early-return flag after the token loop are exactly Evaluator.EvaluateTokens from the first token |
| Engine.Spreadsheet.PushOperand | Spreadsheet.java:192-196 | an operand token is resolved on its own, and its value is pushed on top of the stack |
| Engine.Spreadsheet.ApplyOperator | Spreadsheet.java:146-185 | the stack becomes Evaluator.Operate of the old one; the status becomes invalid-expression exactly when a binary operator finds one operand, and is otherwise unchanged |
| Engine.Spreadsheet.ResolveAll | Spreadsheet.java:67-78 | the store and status afterwards are exactly Evaluator.ResolveFrom of the old store from slot 0 |
| Engine.Spreadsheet.ResolveSlot | Spreadsheet.java:70-72 | slot i is resolved against the current store and its value written into slot i |
| Evaluator.Mark | Spreadsheet.java:139-141 | marking keeps the store size and uses up one text slot exactly when the call's own slot held text |
| Evaluator.Store | Spreadsheet.java:206-208 | a write-back changes only the call's own slot, which then holds the value; a sub-token writes nothing |
| Evaluator.Apply | Spreadsheet.java:164-177 | with `a` the popped top and `b` the value below it: `+` is a + b, `-` is a - b, `*` is a * b, and `/` is the quotient of b by a (0 when a is 0) |
| Evaluator.OperandOrder | Spreadsheet.java:164-177 | swapping the operands leaves `+` and `*` unchanged, negates `-` and inverts `/` |
| Evaluator.ApplyUnary | Spreadsheet.java:152-159 | `++` adds 1 to the popped top and `--` subtracts 1 |
| Evaluator.StepsCancel | Spreadsheet.java:152-159 | `--` undoes `++`, and `++` undoes `--` |
| Evaluator.OperatorKinds | Spreadsheet.java:31 | the operators are exactly the four binary and the two unary ones, and none is both |
| Evaluator.Lacking | Spreadsheet.java:160-183 | an operator lacks an operand exactly when it is binary and finds a single value on the stack |
| Evaluator.Resolve | Spreadsheet.java:99-216 | resolution keeps the store size and never adds a text slot |
| Evaluator.FollowReference | Spreadsheet.java:110-136 | following a reference keeps the store size and never adds a text slot |
| Evaluator.EvaluateExpression | Spreadsheet.java:137-213 | an expression keeps the store size and never adds a text slot |
| Evaluator.Conclude | Spreadsheet.java:204-212 | a stack holding exactly one value stores that value in the call's slot and returns it, with the status unchanged; any other height sets invalid-expression, returns 0 and stores nothing; an aborted loop returns 0 with its status; the store size is kept and no text slot is added |
| Evaluator.Operate | Spreadsheet.java:146-185 | a unary operator replaces the top by its successor or predecessor; a binary operator replaces the top two values by the operator applied to the top and the value below it; the values below the result are untouched; a binary operator with one operand leaves the stack empty |
| Evaluator.EvaluateTokens | Spreadsheet.java:143-202 | the token loop keeps the store size and never adds a text slot |
| Evaluator.OperatorStep | Spreadsheet.java:146-185 | an operator with an operand continues the loop on the operated stack, switching to invalid-expression when a binary one lacks its second operand |
| Evaluator.OperandStep | Spreadsheet.java:192-196 | an operand that is not the whole text is shorter than it, is resolved, and its value pushed before the loop continues |
| Evaluator.ExitStep | Spreadsheet.java:186-199 | an operator on an empty stack ends the loop with invalid-expression; a token equal to the whole text aborts with the internal error |
| Evaluator.ResolveFrom | Spreadsheet.java:67-78 | the driver keeps the store size |
| Evaluator.ResolveFromStep | Spreadsheet.java:69-76 | the driver writes the slot's value back, then stops on an error status and otherwise goes on with the next slot |
| Properties.ResolveKeeps | Spreadsheet.java:99-216 | resolution never changes a slot that already holds a number, and it never leaves a status other than OK or one of the four resolution errors |
| Properties.FollowKeeps | Spreadsheet.java:110-136 | following a reference keeps every settled slot and leaves only OK or a resolution error |
| Properties.ExpressionKeeps | Spreadsheet.java:137-213 | evaluating an expression keeps every settled slot and leaves only OK or a resolution error |
| Properties.TokensKeep | Spreadsheet.java:143-202 | the token loop keeps every settled slot and leaves only OK or a resolution error |
| Properties.ReferenceIsNotLiteral | Spreadsheet.java:107-110 | a reference never matches the number pattern, so it reaches the reference branch |
| Properties.SpacedIsExpression | Spreadsheet.java:107-137 | text with a space is neither a number nor a reference, so it reaches the expression branch |
| Properties.OperatorIsExpression | Spreadsheet.java:146 | an operator is neither a number nor a reference, and has no space |
| Properties.StoppedAfterError | Spreadsheet.java:102-105 | entered with an error status, resolve returns 0 and changes no slot and not the status |
| Properties.LiteralIsItsValue | Spreadsheet.java:107-109 | a number literal returns its value and writes nothing |
| Properties.LiteralChars | Spreadsheet.java:29 | every character of a literal is a digit or a dot, except a leading sign |
| Properties.InvalidReferenceRejected | Spreadsheet.java:112-118 | a reference past the store sets the invalid-reference status, returns 0 and writes no slot |
| Properties.MarkedTargetIsCircular | Spreadsheet.java:133-136 | a reference to a slot in progress sets the circular-reference status, returns 0 and writes no slot |
| Properties.ReferenceCachesValue | Spreadsheet.java:120-132 | following a reference returns the value and status of resolving the named slot, and that value ends up in both the named and the referring slot |
| Properties.CycleIsCircular | Spreadsheet.java:120-136 | resolving any slot of a cycle of references, from any point of the walk, ends in the circular-reference status |
| Properties.SelfReferenceIsCircular | Spreadsheet.java:120-136 | a slot that refers to itself is a circular reference |
| Properties.MutualReferenceIsCircular | Spreadsheet.java:120-136 | two slots that refer to each other are a circular reference |
| Properties.TwoSlotCycle | Spreadsheet.java:67-78 | the store A1 = B1, B1 = A1 stops the driver with the circular-reference status |
| Properties.ChainResolves | Spreadsheet.java:120-132 | resolving a slot on a chain of references ending in a literal returns that literal's value with OK, writes it to every slot from there to the end, and writes no other slot |
| Properties.ChainLink | Spreadsheet.java:120-132 | one link of a chain settles once the slot it names has settled |
| Properties.ReferenceUnfolds | Spreadsheet.java:120-132 | a reference to an open slot resolves the slot, then writes the value to the referring slot and to the named one |
| Properties.ChainWrite | Spreadsheet.java:126-131 | the two write-backs of a link, on top of what the rest of the chain wrote, leave the link's slots settled and the other slots as they were |
| Properties.ChainOfThreeLinks | Spreadsheet.java:80-97 | in one column, A1 = B1, B1 = C1 and C1 = 5 form a chain through slots 0, 1, 2 |
| Properties.ChainSettles | Spreadsheet.java:67-78 | a chain from the first slot through every slot makes the driver leave OK with every slot holding the chain's literal |
| Properties.ChainOfThree | Spreadsheet.java:67-78 | A1 = B1, B1 = C1, C1 = 5 resolves all three slots to 5 with OK |
| Properties.ResolveFromSettled | Spreadsheet.java:67-78 | on a store whose slots all hold numbers, the driver changes nothing and leaves OK |
| Properties.LiteralGridResolves | Spreadsheet.java:67-78 | a store of number literals resolves with OK, every slot to the value of its own literal, and the slots already passed are untouched |
| Properties.ResolveFromLiterals | Spreadsheet.java:67-78 | on a store of number literals the driver succeeds, and what it leaves is the store with each literal replaced by its value, slot after slot |
| Properties.ResolveFromResolves | Spreadsheet.java:67-78 | the driver leaves OK or a resolution error, and every slot holds a number when it leaves OK |
| Properties.ResolveAllSettles | Spreadsheet.java:67-78 | after the driver, either a resolution error is set or every slot holds a number, and running the driver again then changes nothing |
| Properties.ColumnZeroDecodes | Spreadsheet.java:80-97 | A0 is a well-formed reference that decodes to index -1 |
| Properties.ColumnZeroPassesUpperBound | Spreadsheet.java:114 | the upper-bound test as written lets A0 through, although it names no slot of any store |
| Properties.ColumnZeroRejected | Spreadsheet.java:112-118 | with the lower bound added, A0 is an invalid reference, returns 0 and writes no slot |
| Expressions.NumeralOperand | Spreadsheet.java:192-196 | a numeral token pushes its value and writes nothing |
| Expressions.TwoNumerals | Spreadsheet.java:192-196 | two leading numeral tokens push their values in order |
| Expressions.BinaryTokens | Spreadsheet.java:145-202 | the token loop over `x y op` leaves the single value `op` applied to y on top and x below |
| Expressions.BinaryOfNumerals | Spreadsheet.java:161-178 | `x y op` for a binary operator returns `op` applied to the top y and x below it, stored in the slot with OK |
| Expressions.UnaryTokens | Spreadsheet.java:145-202 | the token loop over `x op` leaves the single value x + 1 or x - 1 |
| Expressions.UnaryOfNumeral | Spreadsheet.java:152-159 | `x ++` is x + 1 and `x --` is x - 1, stored in the slot with OK |
| Expressions.AdditionExample | Spreadsheet.java:165-167 | `3 4 +` is 7 |
| Expressions.SubtractionExample | Spreadsheet.java:168-170 | `3 4 -` is 1: the top of the stack comes first |
| Expressions.DivisionExample | Spreadsheet.java:171-173 | `8 2 /` is 4: the value below the top is divided by the top |
| Expressions.StepExamples | Spreadsheet.java:152-159 | `5 ++` is 6 and `5 --` is 4 |
| Expressions.StoppedOperand | Spreadsheet.java:195 | after an error, an operand token pushes 0 and changes neither the store nor the status |
| Expressions.MissingTokens | Spreadsheet.java:179-183 | the token loop over `x op` with a binary op records the invalid expression and leaves an empty stack |
| Expressions.MissingOperand | Spreadsheet.java:179-183 | a binary operator with a single operand is an invalid expression that returns 0 and leaves the slot marked |
| Expressions.ExtraOperand | Spreadsheet.java:209-212 | three numerals and no operator are an invalid expression that returns 0 and leaves the slot marked |
| Expressions.ExtraTokens | Spreadsheet.java:145-202 | the token loop over three numerals pushes the three values in order |
| Expressions.ItemStep | Spreadsheet.java:146-201 | on a numeral or an operator the token loop takes the same step as textbook postfix evaluation, whenever that step has enough operands |
| Expressions.RunMatchesRpn | Spreadsheet.java:145-202 | for any numerals and operators that textbook postfix evaluation accepts, the token loop ends with OK, the same stack and the store unchanged |
| Expressions.PostfixResolves | Spreadsheet.java:137-212 | a text of two or more numerals and operators that textbook postfix evaluation accepts resolves to its single value with OK, stored in the slot, and is an invalid expression with the slot marked when more than one value is left; among these texts, two numerals and no operator never get this far in the source, which reads them as one number (see Findings) |
| Expressions.Sticky | Spreadsheet.java:145-202 | once the status is the invalid expression, the rest of the token loop keeps it, never aborts and writes nothing |
| Expressions.Rejected | Spreadsheet.java:145-202 | for any numerals and operators that textbook postfix evaluation rejects, the token loop ends with the invalid expression, without aborting and with the store unchanged |
| Expressions.PostfixRejected | Spreadsheet.java:137-212 | a text of two or more numerals and operators in which some operator finds too few operands resolves to the invalid expression and writes no slot but its own |
| Expressions.RejectedExample | Spreadsheet.java:179-190 | `1 2 + * 3` is an invalid expression: `*` finds only one value |
| Expressions.NestedExample | Spreadsheet.java:137-212 | `1 2 3 + -` is 4: `+` leaves 5 above the 1, and `-` takes the top minus the value below |
| Expressions.LoneOperator | Spreadsheet.java:186-190 | an operator alone finds no operand: an invalid expression that returns 0 and leaves the slot marked |
| Expressions.SoleTokenAborts | Spreadsheet.java:196-200 | a one-token text that is neither a number, a reference nor an operator is the internal error, returns 0 and leaves the slot marked |
| Expressions.CircularTokens | Spreadsheet.java:192-196 | in `t n`, where t names the slot in progress, the loop records the circular reference and goes on pushing |
| Expressions.ErrorOverwritten | Spreadsheet.java:209-212 | that circular reference is replaced by the invalid expression of the two values left |
| Expressions.MalformedExamples | Spreadsheet.java:146-212 | `3 +`, `3 4 5` and `+` are invalid expressions |
| Expressions.InternalErrorExample | Spreadsheet.java:196-200 | the word `x` is the internal error |
| Expressions.OverwrittenExample | Spreadsheet.java:204-212 | a one-slot store holding `A1 2` resolves to the invalid expression, with the slot left marked |

## Left out

- `main` and `printAll`: reading standard input and printing the grid or status messages are I/O.
- The no-argument constructor sets fields that nothing else reads.
- `String.format("%5f", …)` and the re-reading of that text are not modelled. A resolved slot holds the exact value as `Resolved(v)`, not rounded to six decimals, and the model does not format it as text or parse it back.
- Lexical.LiteralValue: the exact decimal value, not the nearest IEEE double; all arithmetic is on reals, without rounding.
- Evaluator.Apply: division by zero gives 0, not IEEE infinity or NaN.
- Engine.Spreadsheet.GetIndex: Java `int` arithmetic is not modelled. The index term narrowed from `Math.pow`'s double and a column number beyond 2^31 - 1 (which makes `Integer.parseInt` throw) lie outside the model, which decodes on unbounded integers.
- Engine.Spreadsheet.GetIndex: `getIndex`'s branch for text without a digit returns 0. It is unreachable, because only texts matching the reference pattern are decoded, and the model's precondition says so.
- Lexical.IsLiteral: the intended number pattern, with a literal '.', is used in place of the one written at `Spreadsheet.java:29`. The two disagree on every text of digits, one character that is neither a digit, a dot nor a line terminator, and digits (`Lexical.SeparatedDigits`). The written pattern with `Double.parseDouble` reads `1e5`, `12E3` and `+1e5` as numbers (100000.0 and so on) with OK. The model sends them to the expression branch, where each is its own sole token and gives the internal error. `1x5` and `3 4` are covered in the Findings.
- Lexical.ParseInt: accepts ASCII digits only; `Integer.parseInt` also accepts digits of other scripts.
- Engine.Spreadsheet.constructor: a rejected grid holds zero slots instead of a `null` list. `resolveAll` on it therefore does nothing, where Java would fail dereferencing the null list.
- Exceptions from `resolve` are not modelled; both cases are in the Findings below.
  - A0, with index -1, throws IndexOutOfBoundsException. The model rejects it as an invalid reference.
  - A text that matches the loose number pattern but is no number makes `Double.parseDouble` throw. Examples are `1x5` and two numerals such as `3 4`, whose space the dot matches. The model classifies such text with the intended pattern, so `3 4` is an invalid expression there.
- Evaluator.Resolve: the recursion of `resolve` is unbounded in the model. Java recurses once per link of a reference chain and once per operand token, so a deep enough chain ends in a `StackOverflowError` that the model does not have.
- Engine.Spreadsheet.FollowReference: the identity comparison with the shared `REF` string is modelled by the separate `InProgress` constructor.

## Findings

| source | as written | input that shows it | evidently intended | confidence | as-written member | corrected member |
|---|---|---|---|---|---|---|
| Spreadsheet.java:114 | only the upper bound of the decoded index is checked | the reference `A0`, which decodes to -1 and reaches `values.get(-1)` | a negative index is an invalid reference too | high; not executed | Properties.ColumnZeroPassesUpperBound | Properties.ColumnZeroRejected |
| Spreadsheet.java:29 | the dot of the number pattern is unescaped and matches any character but a line terminator | the text `1x5`, and any two numerals such as `3 4`, which match and then make `Double.parseDouble` throw; `1e5` also matches and becomes 100000 | the separator is a literal '.' | high; not executed | Lexical.LooseLiteralAdmitsNonNumber | Lexical.DecimalIsDottedLooseDecimal |

# Online column schema change and SQL scalar-expression semantics

This project models two parts of an early SQL database written in Go, as
its test suites pin them down.

**Online column schema change** (`ddl/column_test.go`). A table has an
ordered list of columns, a set of indices and rows. Each row is stored as
one cell per row handle and column. ADD COLUMN and DROP COLUMN run as jobs
that move one column through the schema states one step at a time:

- ADD COLUMN goes DeleteOnly → WriteOnly → WriteReorganization → Public;
- DROP COLUMN goes Public → WriteOnly → DeleteOnly → DeleteReorganization → gone.

A column that is not Public is absent from `Cols()`, and readers see rows
without it. An insert stores a cell for a hidden column only in WriteOnly
and WriteReorganization, where the cell holds the column's default value.
Deleting a row removes every cell of that row. The reorganization of an
added column fills the default value into every old row. The
reorganization of a dropped column deletes its cells, and the column
leaves the list. Offsets always equal list positions.

DROP COLUMN is refused, and nothing changes, in three cases:

- the column is missing;
- it is the table's only column;
- an index covers it.

The table is `Ddl.Table`, a class with `modifies` clauses. The pure
functions that specify its operations are in `Schema`. The loops and the
invariant-preservation lemmas of the job steps are in `SchemaChange`.
`ColumnScenarios` replays the tests' scenarios on the class.

**SQL scalar expressions** (`optimizer/evaluator/evaluator_test.go`).
Values are NULL, integers or strings (`Datums.Datum`). The model covers:

- three-valued AND, OR, XOR and NOT;
- comparisons and bit operations, which propagate NULL;
- DIV and MOD, which give NULL on a zero divisor;
- IS [NOT] TRUE/FALSE/NULL, which never give NULL;
- IN, CASE WHEN and BETWEEN;
- LIKE with an escape character: a compiled pattern plus a matcher;
- SUBSTRING, with its type errors;
- TRIM.

Each test table is restated as lemmas about these functions. Those lemmas
are in `OperatorExamples`, `LikeExamples` and `StringFunctions`.

## Model

| member | source | states |
|---|---|---|
| Ddl.GetColumn | ddl/column_test.go:558-566 | the search loop returns None exactly when no column's lower-case name equals the argument, and otherwise the first column whose name does (the one `Schema.FindColumn` designates) |
| Schema.FindColumn | ddl/column_test.go:558-566 | the index of the first column whose lower-case name equals the argument; None exactly when no column has that name |
| Ddl.Table.constructor | ddl/column_test.go:105-112 | a new table has the given columns, all Public, with offsets 0..n-1, no index and no row; `Cols()` is every column |
| Schema.VisibleMembers | ddl/column_test.go:369-375 | every column `Cols()` shows is a Public column of the table |
| Schema.VisibleAllPublic | ddl/column_test.go:125-134 | when every column is Public, readers see every column |
| Ddl.Table.IterRecords | ddl/column_test.go:125-135 | the loop yields one row per stored handle, in handle order, each row being that handle's values for the visible columns |
| Ddl.Table.AddRecord | ddl/column_test.go:318-339 | the new row gets a fresh handle and reads back exactly the given values; every other row reads as before; for a hidden column a cell is stored exactly when its state is WriteOnly or WriteReorganization, and it holds the column's default value; the table invariant holds |
| Schema.WritesRoundTrip | ddl/column_test.go:155-165 | reading an inserted row back through the visible columns gives the inserted values |
| Schema.WritesHidden | ddl/column_test.go:339 | an insert stores a cell for a hidden column exactly when the column is in WriteOnly or WriteReorganization, and that cell holds the default value |
| Schema.WritesKeys | ddl/column_test.go:318-339 | an insert writes only cells of its own row and of the table's columns |
| Ddl.WriteCells | ddl/column_test.go:322-324 | the loop computes exactly the cells `Schema.Writes` specifies for the insert |
| Ddl.Table.RemoveRecord | ddl/column_test.go:341-358 | the handle and every cell of that row are deleted, whatever the state of the cell's column; the other cells, the other rows and the invariant are kept |
| Ddl.RemoveCells | ddl/column_test.go:345 | the loop deletes exactly the given row's cells for the given columns and keeps every other cell's value |
| Ddl.RemoveKeepsConsistent | ddl/column_test.go:341-356 | deleting a row's handle and cells keeps the table invariant |
| Schema.WithoutKeepsOrder | ddl/column_test.go:351-356 | deleting a handle keeps the remaining handles in increasing order |
| Schema.StatePaths | ddl/column_test.go:541-555 | the add path runs DeleteOnly, WriteOnly, WriteReorganization, Public; the drop path runs Public, WriteOnly, DeleteOnly, DeleteReorganization, None |
| Schema.NextAddState | ddl/column_test.go:612-616 | an add step stays on the add path or reaches Public, and never stops writing |
| Schema.NextDropState | ddl/column_test.go:674-681 | a drop step stays on the drop path or reaches None, and never starts writing |
| Schema.CheckAddColumn | ddl/column_test.go:138-152 | ADD COLUMN is refused when the name exists, or for AFTER a missing column; otherwise the position is the end with no position, 0 for FIRST, or right after the named column for AFTER |
| Ddl.Table.StartAddColumn | ddl/column_test.go:138-152 | a refused ADD COLUMN changes nothing and reports the error; an accepted one inserts the column in DeleteOnly at its position, renumbers the later offsets, makes it the job's column, and leaves every row reading as before |
| SchemaChange.InsertColumn | ddl/column_test.go:207-224 | the loop inserts the column at the position, leaves the earlier columns alone, and moves each later column up one place with its offset equal to its new position |
| SchemaChange.Renumber | ddl/column_test.go:207-224 | every column's offset becomes its list position and nothing else changes |
| SchemaChange.AddedColumnPosition | ddl/column_test.go:138-224 | no position appends the column; FIRST puts it at offset 0 and shifts every other column up one; AFTER c places it right after c; offsets stay 0..n-1 |
| SchemaChange.InsertColumnKeeps | ddl/column_test.go:301-314 | inserting a DeleteOnly column with a fresh id keeps the invariant and changes nothing readers see |
| SchemaChange.InsertHiddenKeepsVisible | ddl/column_test.go:308-314 | inserting a hidden column leaves the visible column ids unchanged |
| Ddl.Table.AdvanceAddColumn | ddl/column_test.go:600-616 | the hidden steps change only the column's state, and every row reads as before; from WriteReorganization the column becomes Public, the job ends, old cells are kept, and every row reads its old values with the default value inserted at the column's position |
| SchemaChange.HiddenStepKeeps | ddl/column_test.go:362-375 | moving the job's hidden column to another hidden state keeps the invariant and the visible ids |
| SchemaChange.Backfill | ddl/column_test.go:147-153 | the reorganization loop keeps every existing cell and adds a cell holding the default value exactly for the rows that had none for the column |
| SchemaChange.PublishKeeps | ddl/column_test.go:481-495 | once every row has a cell for the added column, making it Public and ending the job keeps the invariant |
| SchemaChange.PublishRows | ddl/column_test.go:488-495 | once the added column is Public, a row reads its old values with the default value at the column's position |
| SchemaChange.ValueSplices | ddl/column_test.go:488 | the row relations are sequence splices: the value inserted at the column's position, or the value at it removed |
| Schema.CheckDropColumn | ddl/column_test.go:248-268 | DROP COLUMN is refused for a missing column, for the only column and for an indexed column, in that order; otherwise it designates the named column |
| Ddl.Table.StartDropColumn | ddl/column_test.go:87-103 | a refused DROP COLUMN changes nothing and reports the error; an accepted one makes the column the job's column and changes nothing else |
| Schema.DropAllowedAfterIndexDropped | ddl/column_test.go:257-264 | a column covered only by the index at k cannot be dropped, and once that index is removed the same drop is accepted |
| Ddl.Table.AdvanceDropColumn | ddl/column_test.go:171-181 | the step from Public shortens every row by the column's value and keeps the order of the rest; later hidden steps change only the state; from DeleteReorganization the column's cells and the column are removed, offsets are renumbered, and the job ends with rows unchanged |
| SchemaChange.HideKeeps | ddl/column_test.go:362-377 | taking the dropped column from Public to WriteOnly keeps the invariant |
| SchemaChange.HideRows | ddl/column_test.go:235-246 | once the dropped column leaves Public, a row reads its old values without the value at the column's position |
| SchemaChange.RemoveColumnCells | ddl/column_test.go:295-299 | the drop reorganization loop deletes exactly the listed rows' cells for the column and keeps every other cell's value |
| SchemaChange.RemoveColumn | ddl/column_test.go:235-246 | the loop removes the column at the position and moves each later column down one place, with its offset equal to its new position |
| SchemaChange.RemoveColumnKeeps | ddl/column_test.go:295-299 | removing the dropped column and its cells keeps the invariant; its id is gone from the list; readers see the same columns and rows as before |
| SchemaChange.RemovedAtShape | ddl/column_test.go:235-246 | what remains after the removal is all Public, with distinct ids and offsets 0..n-1 |
| Schema.CheckCreateIndex | ddl/column_test.go:257-258 | CREATE INDEX is refused with the exists error exactly when the name is taken, with the missing-column error exactly when the name is free and some named column is not visible, and is accepted exactly when the name is free and every named column is visible |
| Ddl.Table.CreateIndex | ddl/column_test.go:257-258 | with no column job running, the index is appended exactly when `Schema.CheckCreateIndex` accepts it, and nothing else changes |
| Ddl.Table.DropIndex | ddl/column_test.go:262-263 | with no column job running, DROP INDEX fails exactly when no index has the name; otherwise it removes that index, and nothing else changes |
| Ddl.Table.AddColumn | ddl/column_test.go:70-84 | ADD COLUMN run to its end: a refused column changes nothing; an accepted one is Public at its position with the later offsets moved up, old cells are kept, and every row reads its old values with the default value at that position |
| Ddl.Table.DropColumn | ddl/column_test.go:87-103 | DROP COLUMN run to its end: a refused drop changes nothing; an accepted one removes the column and exactly its cells, moves the later offsets down, keeps every other cell, and every row reads its old values without the column's value |
| ColumnScenarios.CheckNewRow | ddl/column_test.go:315-358 | inserting a row next to the one row h reads back both rows in order; a hidden c4 gives the new row a cell holding its default exactly when c4 is writable; deleting the new row leaves the one row, no cell of the new row, and h's c4 cell as it was |
| ColumnScenarios.AddColumnScenario | ddl/column_test.go:577-641 | with row (1, 2, 3) and ADD COLUMN c4 with default 4 at the end, the row reads (1, 2, 3) and stores no c4 cell in DeleteOnly, WriteOnly and WriteReorganization; a row (11, 22, 33) inserted there reads back after it, has no c4 cell in DeleteOnly and the c4 cell 4 in WriteOnly and WriteReorganization, and once deleted leaves the one row; once c4 is Public the row reads (1, 2, 3, 4), and (11, 22, 33, 44) is inserted and deleted beside it |
| ColumnScenarios.MainFlowScenario | ddl/column_test.go:105-249 | TestColumn's flow: ten rows (i, 10i, 100i), then (i, 10i, 100i, 100) after c4 AFTER c3; a row (11, 12, 13, 14) keeps 14; it reads (11, 12, 13) after DROP c4, then gains 111 for c4 and 101 for c5; c6 FIRST gives the names c6, c1, ..., c5 with offsets 0..5 and the row (202, 11, 12, 13, 111, 101); DROP c2 leaves (202, 11, 13, 111, 101) |
| ColumnScenarios.RowsAroundC4 | ddl/column_test.go:114-167 | the ten rows read (i, 10i, 100i) before ADD COLUMN c4 AFTER c3 DEFAULT 100 and (i, 10i, 100i, 100) after it |
| ColumnScenarios.ExplicitRowThroughC4AndC5 | ddl/column_test.go:169-205 | the row (11, 12, 13, 14) reads back with 14, then (11, 12, 13) after DROP c4, (11, 12, 13, 111) after c4 DEFAULT 111 and (11, 12, 13, 111, 101) after c5 DEFAULT 101 |
| ColumnScenarios.ExplicitRowThroughC6AndC2 | ddl/column_test.go:207-249 | after c6 FIRST DEFAULT 202 the columns are c6, c1, c2, c3, c4, c5 with offsets 0..5 and the row reads (202, 11, 12, 13, 111, 101); after DROP c2 it reads (202, 11, 13, 111, 101) |
| ColumnScenarios.DropColumnScenario | ddl/column_test.go:643-707 | with row (1, 2, 3, 4) and DROP COLUMN c4 (default 4), the row reads (1, 2, 3) from WriteOnly on; its c4 cell keeps 4 through WriteOnly, DeleteOnly and DeleteReorganization; a row (11, 22, 33) inserted there reads back after it, gets the c4 cell 4 in WriteOnly and none in DeleteOnly and DeleteReorganization, and once deleted leaves the one row; at the end the cell and the column are gone |
| ColumnScenarios.DropRefusalScenario | ddl/column_test.go:257-268 | on columns c6 and c5, DROP COLUMN c5 is refused while index c5_idx covers c5 and accepted after DROP INDEX c5_idx; once c5 is gone, DROP COLUMN c6 is refused |
| ColumnScenarios.DropIndexedC5 | ddl/column_test.go:257-266 | on columns c6 and c5 with index c5_idx on c5, DROP COLUMN c5 fails with the indexed-column error; after DROP INDEX c5_idx it is accepted and runs to the end, leaving c6 alone |
| ColumnScenarios.DropOnlyColumn | ddl/column_test.go:268 | DROP COLUMN c6 on the table left with c6 alone fails with the cannot-remove-all-columns error and changes no column |
| Operators.Not | optimizer/evaluator/evaluator_test.go:960-963 | NOT NULL is NULL, NOT of a false value is 1, and NOT of a true value is 0 |
| Operators.And | optimizer/evaluator/evaluator_test.go:156-171 | the result is 0 exactly when an operand is false, 1 exactly when both are true, and NULL otherwise |
| Operators.Or | optimizer/evaluator/evaluator_test.go:156-171 | the result is 1 exactly when an operand is true, 0 exactly when both are false, and NULL otherwise |
| Operators.Xor | optimizer/evaluator/evaluator_test.go:156-171 | the result is NULL exactly when an operand is NULL, and otherwise 1 exactly when the truth values differ |
| Operators.DeMorgan | optimizer/evaluator/evaluator_test.go:156-171 | three-valued AND and OR are De Morgan duals under NOT |
| Operators.XorIsOrAndNotAnd | optimizer/evaluator/evaluator_test.go:156-171 | XOR equals (a OR b) AND NOT (a AND b), NULLs included |
| OperatorExamples.LogicTable | optimizer/evaluator/evaluator_test.go:156-171 | every row of the logic operator table |
| OperatorExamples.NotTable | optimizer/evaluator/evaluator_test.go:960-963 | NOT 1 is 0, NOT 0 is 1 and NOT NULL is NULL |
| Operators.Comparison | optimizer/evaluator/evaluator_test.go:121-145 | a comparison is NULL exactly when an operand is NULL; otherwise it is 1 or 0 as the order of the operands satisfies the operator |
| Operators.ComparisonConverse | optimizer/evaluator/evaluator_test.go:74-145 | swapping the operands and mirroring the operator gives the same result |
| Operators.ComparisonNegation | optimizer/evaluator/evaluator_test.go:84-117 | NE, GE and GT are the NOTs of EQ, LT and LE |
| Datums.CompareAntisymmetric | optimizer/evaluator/evaluator_test.go:98-117 | swapping two values reverses their order |
| Datums.CompareReflexive | optimizer/evaluator/evaluator_test.go:98-117 | every value compares equal to itself |
| Datums.CompareStrings | optimizer/evaluator/evaluator_test.go:74-117 | the string order gives 0 exactly for equal strings |
| OperatorExamples.ComparisonNullTable | optimizer/evaluator/evaluator_test.go:121-145 | every comparison operator gives NULL with NULL on the left and NULL or 1 on the right |
| Operators.BitOperation | optimizer/evaluator/evaluator_test.go:193-216 | a bit operation is NULL exactly when an operand is NULL, and otherwise an unsigned 64-bit integer |
| Operators.XorCancels | optimizer/evaluator/evaluator_test.go:193-196 | applying `^ b` twice gives back the first operand as an unsigned 64-bit word |
| Operators.XorSelfInverse | optimizer/evaluator/evaluator_test.go:195 | bitwise XOR with y twice is the identity |
| Operators.BitsBounded | optimizer/evaluator/evaluator_test.go:193-216 | AND, OR and XOR of n-bit numbers are n-bit numbers |
| Operators.BitsCommute | optimizer/evaluator/evaluator_test.go:193-195 | bitwise AND, OR and XOR of two numbers do not depend on the order of the operands |
| Operators.BitOperationCommutes | optimizer/evaluator/evaluator_test.go:193-201 | `&`, `|` and `^` give the same result with their operands swapped, NULL operands included |
| Operators.BitsAndOrOrder | optimizer/evaluator/evaluator_test.go:193-194 | bitwise AND is at most either operand, and bitwise OR is at least either operand |
| Operators.ShiftRightDivides | optimizer/evaluator/evaluator_test.go:197 | shifting right by n bits is division by 2^n rounded down: s * 2^n <= x < (s + 1) * 2^n for the result s |
| Operators.ShiftRightUndoes | optimizer/evaluator/evaluator_test.go:196-197 | shifting x * 2^n right by n bits gives back x |
| Operators.ShiftRoundTrip | optimizer/evaluator/evaluator_test.go:196-197 | a left shift by fewer than 64 bits that loses no bits is undone by the right shift by the same amount |
| Operators.BitOperationExamples | optimizer/evaluator/evaluator_test.go:193-203 | 1 & 1 = 1, bitwise OR of 1 and 1 = 1, 1 ^ 1 = 0, 1 << 1 = 2, 2 >> 1 = 1, and NULL with either operand NULL |
| Operators.IntDiv | optimizer/evaluator/evaluator_test.go:271-281 | DIV is NULL exactly when an operand is NULL or the divisor is zero |
| Operators.Mod | optimizer/evaluator/evaluator_test.go:283-296 | MOD is NULL exactly when an operand is NULL or the divisor is zero |
| Operators.DivModIdentity | optimizer/evaluator/evaluator_test.go:271-296 | for a non-zero divisor, x = (x DIV y) * y + x MOD y, with the quotient truncated toward zero and the remainder taking x's sign |
| Operators.TruncDivBounds | optimizer/evaluator/evaluator_test.go:271-296 | the truncating quotient and remainder satisfy the division identity, and the remainder is smaller than the divisor in magnitude |
| OperatorExamples.DivModTable | optimizer/evaluator/evaluator_test.go:271-293 | 1 DIV 2 = 0, DIV by 0 is NULL, 10 MOD 2 = 0, -10 MOD 2 = 0, MOD by 0 is NULL |
| Operators.IsTruth | optimizer/evaluator/evaluator_test.go:694-762 | IS [NOT] TRUE/FALSE is never NULL; it is 1 exactly when the value is non-NULL with the tested truth value, reversed by NOT |
| Operators.IsNull | optimizer/evaluator/evaluator_test.go:672-692 | IS [NOT] NULL is never NULL; it is 1 exactly when the value is NULL, reversed by NOT |
| Operators.IsPredicatesComplement | optimizer/evaluator/evaluator_test.go:672-762 | each NOT form is the NOT of the plain form, and IS TRUE holds exactly when the value is non-NULL and not IS FALSE |
| OperatorExamples.IsTable | optimizer/evaluator/evaluator_test.go:672-761 | every row of the IS NULL and IS TRUE/FALSE tables |
| Operators.InIsDisjunctionOfEquals | optimizer/evaluator/evaluator_test.go:647-670 | `v IN (list)` equals the OR of `v = e` over the list, and NOT IN is its NOT |
| OperatorExamples.InTable | optimizer/evaluator/evaluator_test.go:647-670 | every row of the IN table |
| Operators.CaseWhen | optimizer/evaluator/evaluator_test.go:318-338 | the result is that of the first WHEN that fires; with none firing, the ELSE value or NULL |
| OperatorExamples.CaseWhenTable | optimizer/evaluator/evaluator_test.go:318-338 | every row of the CASE table |
| Operators.BetweenInterval | optimizer/evaluator/evaluator_test.go:66-72 | for non-NULL operands, BETWEEN is lo <= v <= hi, and NOT BETWEEN its complement |
| Operators.BetweenNullOperand | optimizer/evaluator/evaluator_test.go:66-72 | BETWEEN with a NULL value is NULL |
| OperatorExamples.BetweenTable | optimizer/evaluator/evaluator_test.go:66-72 | 1 BETWEEN 2 AND 3 is 0, and 1 NOT BETWEEN 2 AND 3 is 1 |
| Like.Collapse | optimizer/evaluator/evaluator_test.go:793 | the compiled pattern has no two `%` in a row, and no more elements than the scanned one |
| Like.CollapsePreservesMatch | optimizer/evaluator/evaluator_test.go:793 | merging consecutive `%` does not change what a pattern matches |
| Like.DoubleAnyIsAny | optimizer/evaluator/evaluator_test.go:793 | `%%` matches exactly what `%` matches |
| Like.AnyMatchesSomeSuffix | optimizer/evaluator/evaluator_test.go:779-786 | `%` followed by q matches s exactly when q matches some suffix of s, the whole of s and the empty suffix included |
| Like.PercentMatchesAll | optimizer/evaluator/evaluator_test.go:779-780 | `%` matches every input, the empty one included |
| Like.UnderscoreMatchesOneChar | optimizer/evaluator/evaluator_test.go:775-778 | `_` followed by q matches s exactly when s has a first character and q matches the rest |
| Like.PlainPatternMatchesItself | optimizer/evaluator/evaluator_test.go:772-774 | a pattern without wildcards or escape characters matches exactly the inputs equal to it up to ASCII case |
| Like.EmptyPatternMatchesOnlyEmpty | optimizer/evaluator/evaluator_test.go:771 | the empty pattern matches only the empty input |
| Like.EscapedCharIsLiteral | optimizer/evaluator/evaluator_test.go:787-798 | the escape character before `%`, `_` or itself stands for that character literally |
| Like.UnescapedEscapeIsLiteral | optimizer/evaluator/evaluator_test.go:791-796 | an escape character before anything else, or at the end, is an ordinary character |
| Like.LikeOp | optimizer/evaluator/evaluator_test.go:805-831 | LIKE is NULL exactly when an operand is NULL, and otherwise 1 or 0 as the input matches the compiled pattern, reversed by NOT |
| LikeExamples.LikeTableRows1To4 | optimizer/evaluator/evaluator_test.go:771-774 | rows 1 to 4 of the LIKE table |
| LikeExamples.LikeTableRows5To8 | optimizer/evaluator/evaluator_test.go:775-778 | rows 5 to 8 of the LIKE table |
| LikeExamples.LikeTableRows9To12 | optimizer/evaluator/evaluator_test.go:779-782 | rows 9 to 12 of the LIKE table |
| LikeExamples.LikeTableRows13To16 | optimizer/evaluator/evaluator_test.go:783-786 | rows 13 to 16 of the LIKE table |
| LikeExamples.LikeTableRows17To20 | optimizer/evaluator/evaluator_test.go:787-790 | rows 17 to 20 of the LIKE table |
| LikeExamples.LikeTableRows21To24 | optimizer/evaluator/evaluator_test.go:791-794 | rows 21 to 24 of the LIKE table |
| LikeExamples.LikeTableRows25To28 | optimizer/evaluator/evaluator_test.go:795-798 | rows 25 to 28 of the LIKE table |
| LikeExamples.LikeOperatorRows | optimizer/evaluator/evaluator_test.go:805-830 | the SQL-level rows: `'a' LIKE ''` is 0, `'a' LIKE 'a'` is 1, `'a' LIKE 'b'` is 0, and `'aA' LIKE 'Aa'`, `'aAb' LIKE 'Aa%'` and `'aAb' LIKE 'Aa_'` are 1 |
| StringFunctions.Substring | optimizer/evaluator/evaluator_test.go:900-920 | SUBSTRING is an error exactly when the string argument is not a string, or the position or a given length is not an integer; otherwise a string no longer than the input |
| StringFunctions.SubstringOf | optimizer/evaluator/evaluator_test.go:869-877 | the result is no longer than the input, nor than a given length |
| StringFunctions.SubstringFromPosition | optimizer/evaluator/evaluator_test.go:869-870 | a position p from 1 gives the input from its p-th character on |
| StringFunctions.SubstringFromEnd | optimizer/evaluator/evaluator_test.go:872 | a position -k gives the last k characters |
| StringFunctions.SubstringSplit | optimizer/evaluator/evaluator_test.go:869-871 | the length only truncates: n characters at p followed by everything from p + n is everything from p |
| StringFunctions.SubstringOutside | optimizer/evaluator/evaluator_test.go:875-876 | position 0, or a position before the start or past the end, gives the empty string whatever the length |
| StringFunctions.SubstringLengthTruncates | optimizer/evaluator/evaluator_test.go:871-874 | at every position, positive or negative, a length n keeps the first n characters of what the position alone selects: none for n <= 0, all of them when n reaches past the end |
| StringFunctions.SubstringExamples | optimizer/evaluator/evaluator_test.go:869-920 | every row of the SUBSTRING table and of its error table |
| StringFunctions.Trim | optimizer/evaluator/evaluator_test.go:930-938 | TRIM is NULL exactly when the string or the removal string is NULL, and a string otherwise |
| StringFunctions.TrimLeftSpaces | optimizer/evaluator/evaluator_test.go:930 | stripping leading spaces leaves a suffix of the input |
| StringFunctions.TrimRightSpaces | optimizer/evaluator/evaluator_test.go:930 | stripping trailing spaces leaves a prefix of the input |
| StringFunctions.TrimLeftSpacesStripsSpaces | optimizer/evaluator/evaluator_test.go:930-936 | exactly the leading spaces, tabs, CRs and LFs go: all that is removed is such a character, and what is left does not start with one |
| StringFunctions.TrimRightSpacesStripsSpaces | optimizer/evaluator/evaluator_test.go:930-936 | exactly the trailing spaces, tabs, CRs and LFs go |
| StringFunctions.TrimLeftString | optimizer/evaluator/evaluator_test.go:931 | LEADING removal leaves a suffix of the input |
| StringFunctions.TrimRightString | optimizer/evaluator/evaluator_test.go:933 | TRAILING removal leaves a prefix of the input |
| StringFunctions.TrimLeftStringRemovesCopies | optimizer/evaluator/evaluator_test.go:931 | what LEADING removes is a whole number of copies of the removal string |
| StringFunctions.TrimLeftStringMaximal | optimizer/evaluator/evaluator_test.go:931 | after LEADING removal no copy of a non-empty removal string is left at the start |
| StringFunctions.TrimRightStringRemovesCopies | optimizer/evaluator/evaluator_test.go:933 | what TRAILING removes is a whole number of copies of the removal string |
| StringFunctions.TrimRightStringMaximal | optimizer/evaluator/evaluator_test.go:933 | after TRAILING removal no copy of a non-empty removal string is left at the end |
| StringFunctions.TrimIsInfix | optimizer/evaluator/evaluator_test.go:930-936 | whatever the direction, the result is a contiguous piece of the input |
| StringFunctions.TrimIdempotent | optimizer/evaluator/evaluator_test.go:930-936 | trimming a trimmed text again changes nothing |
| StringFunctions.TrimSpacesExample | optimizer/evaluator/evaluator_test.go:930 | `TRIM('  bar   ')` is `bar` |
| StringFunctions.TrimLeadingExample | optimizer/evaluator/evaluator_test.go:931 | `TRIM(LEADING 'x' FROM 'xxxbarxxx')` is `barxxx` |
| StringFunctions.TrimBothExample | optimizer/evaluator/evaluator_test.go:932 | `TRIM(BOTH 'x' FROM 'xxxbarxxx')` is `bar` |
| StringFunctions.TrimTrailingExample | optimizer/evaluator/evaluator_test.go:933 | `TRIM(TRAILING 'xyz' FROM 'barxxyz')` is `barx` |
| StringFunctions.TrimNullExample | optimizer/evaluator/evaluator_test.go:934 | TRIM of NULL is NULL |
| StringFunctions.TrimIntExample | optimizer/evaluator/evaluator_test.go:935 | `TRIM(BOTH 2 FROM 1)` is the string `1` |
| StringFunctions.TrimControlCharactersExample | optimizer/evaluator/evaluator_test.go:936 | TRIM strips tabs, CRs and LFs as well as spaces |
| Text.NatToStringRoundTrip | optimizer/evaluator/evaluator_test.go:935 | an integer printed in decimal reads back as the same integer |

## Left out

- The implementation behind the tests is not part of this model: the DDL job runner and the table code, `evaluator.Eval`, and LIKE's `compilePattern`/`doMatch`. Every operation here is modelled from the tests' assertions. Where the tests are silent (a NULL operand of LIKE, SUBSTRING with position 0 or a negative length, TRIM with an empty removal string), the model follows MySQL's documented behaviour, except for the departures listed below under `StringFunctions.Substring`, `StringFunctions.Trim`, `Datums.Compare` and `Datums.ToInt`.
- Name resolution (`optimizer/resolver_test.go`) is left out. It checks whole SQL strings against a live catalog through the parser.
- Leases, owner election, the DDL workers, timing and concurrency are left out. A job is driven one step at a time by `AdvanceAddColumn`/`AdvanceDropColumn`, or run to its end by `AddColumn`/`DropColumn`. Only one job runs at a time: a new column job and CREATE/DROP INDEX all require that no job is running.
- The job queue is left out. The source's first step of ADD COLUMN (None to DeleteOnly) is folded into `StartAddColumn`, which inserts the column directly in DeleteOnly.
- Indices are catalog entries only. CREATE INDEX and DROP INDEX are atomic, and index data is not stored.
- The key-value store, transactions, row-key encoding and value decoding are left out. Stored cells are a map from (handle, column id) to value.
- The `onJobUpdated` test hook is left out. The scenarios read the table after each job step instead.
- The helper that builds the tests' tables, `testTableInfo`, is not part of this model. The scenarios build their tables directly. TestDropColumn's c4 gets the default 4, the value the test expects an insert in WriteOnly to store.
- The end of TestColumn starts from columns c6 and c5 built directly, rather than by replaying the drops of c1, c3 and c4 (ddl/column_test.go:248-255) on the main flow's table. DROP COLUMN c5 then runs to its end on that table before DROP COLUMN c6 is refused.
- Ddl.Table.AddRecord: values and defaults are integers, so NULL defaults and other column types are not modelled.
- Floating-point and decimal arithmetic, time and duration values, and comparisons of floats or booleans are left out.
- Date arithmetic and EXTRACT are left out because they depend on Go's `time` package.
- REGEXP is left out because it delegates to Go's regular expressions.
- CONVERT and CAST are left out because they depend on the charset tables and type conversion.
- Parsing expression strings is left out. Expressions are built directly as function applications.
- StringFunctions.Substring: a NULL string, position or length is a type error, like the non-string and non-integer arguments at optimizer/evaluator/evaluator_test.go:906-908; MySQL returns NULL there, and the tests do not cover the case.
- StringFunctions.Trim: with no removal string, LEADING, TRAILING and an explicit BOTH strip tabs, CRs and LFs as well as spaces, as the default form does (optimizer/evaluator/evaluator_test.go:936); MySQL strips only spaces in those three forms, and the tests give them no such input. So `TRIM(LEADING FROM '\tbar')` is `'bar'` here.
- Datums.Compare: two strings compare by character code, so `'a' = 'A'` is 0 here, where MySQL's default collations ignore case. The tests never compare two strings.
- Datums.ToInt: a string used as a number is read as its leading integer, so any fraction or exponent is dropped; `'1.5'` compares equal to 1 and `'0.5'` is false, where MySQL converts such a string to a floating-point number. Comparisons and truth tests of such strings therefore differ from MySQL.
- Operators.IntDiv: does not model 64-bit signed overflow; integers are unbounded.
- Operators.Mod: uint64 operands are not distinguished from signed ones, so unsigned wrap-around is not modelled.
- Operators.BitOperation: operands are read as unsigned 64-bit words (negative integers in two's complement), and a shift by 64 or more gives 0; the tests pin only small operands.
- Text.Lower and the LIKE matcher fold ASCII letters only, so Unicode case folding is not modelled.
- The duplicated row `NULL IS NOT FALSE` (optimizer/evaluator/evaluator_test.go:725 and 757) is modelled as written, with result 1.

# Sudoku solver core, modelled in Dafny

This project models the core of a small Sudoku web service:

- the `SudokuSolver` class of `controllers/sudoku-solver.js`: the puzzle-string gate `validate`, coordinate decoding `getIndexes`, the row, column and region placement checks, their combination `isValidCellValue`, and the propagation solver `solve` with its tail-recursive `solveCell`;
- the decisions of the request middleware in `middlewares/validators.js`: `requiredFields`, `validatePuzzleString`, `validateCoords` and `validateValue`.

A grid is the 81 symbols of a puzzle string, read row by row. `'.'` marks an empty cell, and cell `i` lies in row `i / 9` and column `i % 9`.

Files:

- `Text.dfy` (module `Text`) holds the character-level building blocks the JavaScript gets from its runtime:
  - an `Option` type;
  - the scan `/[^…]/.test(s)` performs;
  - `indexOf` for one character;
  - `parseInt` of one character.
- `SudokuSolver.dfy` (module `SudokuSolver`) holds the engine:
  - the checks are pure functions over `seq<char>`;
  - `solveCell` and `solve` are methods over an `array<char>` that is updated in place;
  - the source's recursion becomes a `while` loop. It is proved against a ghost function `Calls(st, n)`: where the source's chain of recursive calls stands after `n` calls, built from one call, `SolveCellStep`.
- `Validators.dfy` (module `Validators`) holds each middleware's pass or reject decision. It relates them to the engine:
  - the two puzzle-string gates disagree exactly on `'0'`;
  - upper-case coordinates pass `validateCoords` but `getIndexes` mis-decodes them.
- `Examples.dfy` (module `Examples`) states the expectations of the repository's unit and functional tests about the model. It uses a fixture grid on which those expectations hold.

Properties proved:

- **Validation.** `validate` accepts exactly the 81-symbol strings over `.` and `1`–`9`.
- **Coordinates.** `getIndexes` round-trips every lower-case coordinate.
- **Placement checks.** Each check is valid exactly when the digit is absent from its row, its column, or its 3×3 box.
  - The region check exempts a target cell that already holds the digit; the row and column checks do not.
  - The conflict list names exactly the failing checks, in the fixed order column, row, region.
- **Solver.** Propagation:
  - never overwrites a given cell;
  - writes only the unique digit that passes all checks;
  - keeps a consistent grid consistent;
  - keeps `solvedCount` equal to the number of filled cells.
- **What `solve` returns.** A grid that `solve` returns is exactly the source's return value. It is full and keeps the givens.

## Notes on the code

- `isValidCellValue` runs column, row, region (controllers/sudoku-solver.js:85-89), so that is the order of the conflict list.
- The engine passes the grid to the checks as an array of one-character strings where the checks expect a string. With one-character cells, `slice`/`includes` and string concatenation give the same answers on both, so the model uses one `seq<char>` for both.

## Model

| member | source | states |
|---|---|---|
| Text.ContainsOutside | controllers/sudoku-solver.js:13 | the negated-class regex test finds a character exactly when some position holds a character outside the allowed set |
| Text.IndexOf | controllers/sudoku-solver.js:28 | `indexOf` gives -1 exactly when the character is absent, else the position of its first occurrence |
| Text.ParseDigit | controllers/sudoku-solver.js:29 | `parseInt` of one character is a number exactly for '0'-'9' and then is that digit's value (NaN is None) |
| SudokuSolver.RowsAreConsecutive | controllers/sudoku-solver.js:3 | the row letters are 'a'..'i' in order |
| SudokuSolver.NumberValuesAreConsecutive | controllers/sudoku-solver.js:4 | the digits tried are '1'..'9' in order, and a character is among them exactly when it is a digit 1-9 |
| SudokuSolver.Validate | controllers/sudoku-solver.js:7-22 | accepted exactly when the string has length 81 and every character is '.' or '1'-'9' |
| SudokuSolver.GetIndexes | controllers/sudoku-solver.js:24-31 | row is -1 exactly when the first character is not a lower-case row letter, otherwise that letter's position; column is NaN unless the second character is a digit, and is then that digit minus one |
| SudokuSolver.GetIndexesRoundTrip | controllers/sudoku-solver.js:24-31 | every cell's lower-case coordinate decodes back to that cell's row and column |
| SudokuSolver.GetIndexesUpperCase | controllers/sudoku-solver.js:28 | an upper-case row letter decodes to row -1 (the lookup is case-sensitive) |
| SudokuSolver.CheckRowPlacement | controllers/sudoku-solver.js:33-42 | valid exactly when no cell of the row (target included) holds the digit |
| SudokuSolver.CheckColPlacement | controllers/sudoku-solver.js:44-54 | valid exactly when no cell of the column (target included) holds the digit |
| SudokuSolver.RegionIndex | controllers/sudoku-solver.js:56-58 | the result is the floor of value / 3 |
| SudokuSolver.BoxEntries | controllers/sudoku-solver.js:70-77 | the nine entries gathered are the cells start + x + 9y of the box, in row-major order, all inside the grid |
| SudokuSolver.BoxCellInBox | controllers/sudoku-solver.js:70-77 | each of the nine gathered cells lies in the target's 3x3 box |
| SudokuSolver.BoxHasCell | controllers/sudoku-solver.js:70-77 | every cell of the target's box is one of the nine gathered cells |
| SudokuSolver.RegionEntries | controllers/sudoku-solver.js:70-79 | the digit is among the gathered entries exactly when some cell of the box holds it |
| SudokuSolver.CheckRegionPlacement | controllers/sudoku-solver.js:60-82 | valid exactly when the target cell already holds the digit or no cell of the target's box holds it |
| SudokuSolver.IsValidCellValue | controllers/sudoku-solver.js:84-105 | valid exactly when the conflict list is empty; column, row and region are each listed exactly when their check fails; the list follows the check order without duplicates |
| SudokuSolver.ConflictList | controllers/sudoku-solver.js:91-99 | pushing the failed checks' names in turn yields each name exactly when its check failed, in strictly increasing check order |
| SudokuSolver.SelfPlacementConflicts | controllers/sudoku-solver.js:84-105 | querying the digit a cell already holds yields exactly the conflicts column, row |
| SudokuSolver.ValidMeansAbsentFromPeers | controllers/sudoku-solver.js:84-105 | on an empty target, valid exactly when no other cell of its row, column or box holds the digit |
| SudokuSolver.CountFilled | controllers/sudoku-solver.js:150-157 | the count of non-'.' cells is at most the length and equals it exactly when no cell is empty |
| SudokuSolver.CountFilledWrite | controllers/sudoku-solver.js:137-140 | writing a digit into an empty cell raises the filled count by exactly one |
| SudokuSolver.CountFilledEmpty | controllers/sudoku-solver.js:150-157 | a grid of empty cells has filled count 0 |
| SudokuSolver.FilterValidMembers | controllers/sudoku-solver.js:128-134 | the digits kept are exactly those tried that `isValidCellValue` accepts |
| SudokuSolver.FilterValidIncreasing | controllers/sudoku-solver.js:128-134 | the kept digits keep the increasing order in which they are tried |
| SudokuSolver.FilterValidLast | controllers/sudoku-solver.js:128-134 | each digit tried is appended to the solutions exactly when it is accepted |
| SudokuSolver.CandidatesSpec | controllers/sudoku-solver.js:128-134 | a cell's candidate list holds exactly the digits 1-9 that pass all checks there, each once, in increasing order |
| SudokuSolver.Visit | controllers/sudoku-solver.js:117-140 | one visit changes no cell but its own; it changes the grid exactly when the cell is empty with one candidate, and then writes that candidate |
| SudokuSolver.VisitWritesOnlyCandidate | controllers/sudoku-solver.js:136-139 | the digit written is the one and only digit 1-9 that passes all checks at that cell |
| SudokuSolver.VisitExtends | controllers/sudoku-solver.js:117-139 | a visit never overwrites a filled cell and fills an empty one only with a digit |
| SudokuSolver.VisitCount | controllers/sudoku-solver.js:136-140 | the filled count grows by one exactly on the visits that write, matching the `solvedCount++` |
| SudokuSolver.VisitKeepsConsistent | controllers/sudoku-solver.js:128-139 | a grid with no repeated digit in any row, column or box keeps that property after a visit |
| SudokuSolver.SolveCellStep | controllers/sudoku-solver.js:107-143 | one call returns the joined grid exactly when solvedCount is 81; otherwise it recurses on a well-formed state that extends the grid, with a count no smaller |
| SudokuSolver.ChainSplit | controllers/sudoku-solver.js:124-142 | following a + b recursive calls is following a calls and then b more |
| SudokuSolver.CallsSplit | controllers/sudoku-solver.js:107-143 | the same for the chain of `solveCell` calls |
| SudokuSolver.CallStep | controllers/sudoku-solver.js:112-142 | from a reached state with solvedCount not 81, the next call wraps the index at 81, visits that cell, counts a write and moves to the next index |
| SudokuSolver.CallReturns | controllers/sudoku-solver.js:110 | from a reached state with solvedCount 81, the next call returns that grid |
| SudokuSolver.StuckNeverReturns | controllers/sudoku-solver.js:107-143 | from a grid where no empty cell has exactly one candidate and the count is below 81, every later call recurses with the same grid and count: the source never returns |
| SudokuSolver.StuckChainNeverReturns | controllers/sudoku-solver.js:107-143 | once the chain of calls reaches such a grid, no number of calls ever returns |
| SudokuSolver.AllEmptyAcceptsEveryDigit | controllers/sudoku-solver.js:84-105 | on the all-empty grid every digit passes all three checks at every cell |
| SudokuSolver.AllEmptyIsStuck | controllers/sudoku-solver.js:128-139 | on the all-empty grid no cell has a single candidate |
| SudokuSolver.AllEmptyNeverSolved | controllers/sudoku-solver.js:145-161 | `solve` on 81 dots starts a chain of `solveCell` calls that never returns |
| SudokuSolver.IdleStep | controllers/sudoku-solver.js:123-142 | a visit that writes nothing extends by one the run of recent visits whose cells are not forced |
| SudokuSolver.IdleNext | controllers/sudoku-solver.js:123-142 | after any visit, the cells of the current run of non-writing visits are all unforced |
| SudokuSolver.ProgressStep | controllers/sudoku-solver.js:107-143 | one loop iteration keeps the loop in step with the source's chain of calls, the filled count, the givens and consistency |
| SudokuSolver.ProgressEnd | controllers/sudoku-solver.js:107-143 | when the loop stops, either the count is 81 and the next call returns the full grid, or the grid is stuck with an empty cell and the source's calls never return |
| SudokuSolver.SolveCellAt | controllers/sudoku-solver.js:117-142 | one call's work on the array: the new grid is the visit of the old one, and it reports a write exactly when the cell was forced |
| SudokuSolver.CellSolutions | controllers/sudoku-solver.js:128-134 | the loop over the digits collects exactly the cell's candidate list |
| SudokuSolver.SolveCell | controllers/sudoku-solver.js:107-143 | keeps the givens and consistency; Solved only with a full grid that the source's chain of calls returns; Unsolvable only on a stuck grid with an empty cell, which is the grid the source's calls reach and stall on, never returning |
| SudokuSolver.Solve | controllers/sudoku-solver.js:145-161 | Invalid (the source's null) exactly when `validate` rejects; a full valid string comes back unchanged; a returned grid is full of digits, keeps every given, stays consistent if the input was, and is the source's result; an Unsolvable grid is a stalled grid the source's calls reach, and from then on they never return |
| Validators.RequiredFields | middlewares/validators.js:2-13 | passes exactly when every listed field is a body key; otherwise it stops at the first missing field in list order |
| Validators.DefaultFieldsNeedPuzzle | middlewares/validators.js:2 | with the default list the only requirement is a `puzzle` key |
| Validators.ValidatePuzzleString | middlewares/validators.js:14-33 | passes exactly when the string has length 81 and every character is '.' or '0'-'9' |
| Validators.PuzzleValidatorsDisagreeOnZero | middlewares/validators.js:18 | every string `validate` accepts passes the middleware; among those the middleware passes, `validate` rejects exactly the ones containing '0' |
| Validators.ValidateCoords | middlewares/validators.js:35-49 | passes exactly when the string is some cell's coordinate, row letter in either case |
| Validators.ValidateValue | middlewares/validators.js:51-61 | passes exactly when the string is one digit 1-9 |
| Validators.GetIndexesMisreadsUpperCase | middlewares/validators.js:38 | every upper-case coordinate passes `validateCoords` and `getIndexes` then decodes its row as -1 |
| Validators.DecodeCoordinate | middlewares/validators.js:35-49 | decodes exactly the coordinates `validateCoords` passes, and the cell it gives is the one the coordinate names |
| Validators.DecodeCoordinateRoundTrip | middlewares/validators.js:38 | both the lower-case and the upper-case coordinate of every cell decode to that cell |
| Examples.ValidateOnTestStrings | tests/1_unit-tests.js:8-39 | `validate` accepts the fixture and rejects 80 dots plus 'a', 80 dots plus '0', and 8 or 82 dots |
| Examples.RowChecksOnFixture | tests/1_unit-tests.js:41-73 | at row 0, column 1 of the fixture, 3 passes the row check and 8 fails it |
| Examples.ColumnChecksOnFixture | tests/1_unit-tests.js:74-106 | at row 0, column 3 of the fixture, 8 passes the column check and 3 fails it |
| Examples.RegionChecksOnFixture | tests/1_unit-tests.js:108-138 | at row 0, column 1 of the fixture, 3 passes the region check and 5 fails it |
| Examples.CheckA2Three | tests/2_functional-tests.js:95-110 | a2 with 3 on the fixture is valid with no conflict |
| Examples.CheckA2Nine | tests/2_functional-tests.js:112-128 | a2 with 9 conflicts only with the column |
| Examples.CheckE6Six | tests/2_functional-tests.js:130-150 | e6 with 6, the digit already there, conflicts with column and row only |
| Examples.CheckA2Two | tests/2_functional-tests.js:152-172 | a2 with 2 conflicts with column, row and region |
| Examples.MiddlewareOnTestRequests | tests/2_functional-tests.js:189-266 | the middleware rejects an 'x' at index 30, an 80-character puzzle, the coordinate "z-1" and the value "900", and passes "a2", "e6" and "3" |

## Left out

- The Express routes, HTTP responses and the `req`/`res`/`next` plumbing of the middleware (routes/api.js and the response texts) are not modelled. Each middleware is modelled as its pass or reject decision.
- playground.js is a console driver and is not part of this model.
- The fixture file controllers/puzzle-strings.js is not part of this model. `Examples.Fixture` is a grid on which every check expectation of the tests holds.
- JavaScript coercions are not modelled:
  - `typeof` tests: every input is a string;
  - `value.toString()`: the checks take the value as a single character;
  - `parseInt` of row and column numbers: the checks take `int` row and column with `0 <= row, column < 9` as preconditions;
  - `regex.test` on a non-string.
- The out-of-bounds row and column checks of tests/1_unit-tests.js:59-64 and 94-98 fall outside those preconditions and are not modelled. On the fixture both calls return true, where the tests expect false:
  - row 10 reads `slice(90, 99)`, which is empty, so 8 is absent;
  - column 11 reads cells 11, 20, …, 74 (column 2 of rows 1-8) and then `undefined` at 83, and none of these is 3.
- SudokuSolver.Solve returns the grid string or `Invalid` (the source's `null`), as the code does. The tests at tests/1_unit-tests.js:140-162 and routes/api.js expect `{solution}`/`{error}` objects instead.
- Recursion depth is not modelled. `solveCell` recurses once per cell visit, and in JavaScript a long run can exhaust the call stack. The model runs the recursion as a loop.
- SudokuSolver.SolveCell: the source never returns on a stuck grid. The model stops after 81 consecutive visits that write nothing and reports `Unsolvable`, which the source never does. It is proved that the source's chain of calls never returns from that point on (see Findings).
- SudokuSolver.GetIndexes: strings are modelled as sequences of Unicode characters, not of UTF-16 code units as in JavaScript. `coord.split('')` splits by code unit, so decoding differs when the first character lies outside the Basic Multilingual Plane: the model reads the column from the next character, while JavaScript reads the low surrogate and gets NaN. `validateCoords` rejects such coordinates before `getIndexes` is reached, and the other string predicates give the same answers under either reading.
- Validators.ValidateValue: the value is modelled as the string `value.toString()` produces, and what that string is for non-numbers is not modelled.

## Findings

| source | as written | input that shows it | evidently intended | confidence | as-written member | corrected member |
|---|---|---|---|---|---|---|
| controllers/sudoku-solver.js:107-143 | `solveCell` has no exit when a whole pass over the grid fills nothing; on a grid where no empty cell has a single candidate it never returns a result (in JavaScript the call stack overflows) | the puzzle of 81 dots, which tests/2_functional-tests.js:79-93 expects to be reported as "Puzzle cannot be solved" | report that the puzzle cannot be solved once a full pass makes no progress | not executed; the proof covers every stuck grid | SudokuSolver.AllEmptyNeverSolved | SudokuSolver.Solve |
| middlewares/validators.js:38 | `validateCoords` accepts upper-case row letters (the `/i` flag), but `getIndexes` (controllers/sudoku-solver.js:28) looks the letter up case-sensitively and returns row -1 | coordinate "A2" passes the middleware and decodes to row -1 | a coordinate the middleware accepts decodes to the cell it names, whatever the case of its row letter | not executed; follows from the regex flag and the case-sensitive lookup | Validators.GetIndexesMisreadsUpperCase | Validators.DecodeCoordinate |

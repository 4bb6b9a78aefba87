/**
 * The Sudoku engine of controllers/sudoku-solver.js: the puzzle-string gate
 * (`validate`), coordinate decoding (`getIndexes`), the three placement
 * checks and their combination (`isValidCellValue`), and the propagation
 * solver (`solve` driving the tail-recursive `solveCell`).
 *
 * A grid is the 81 symbols of a puzzle string, row by row; cell `i` lies in
 * row `i / 9` and column `i % 9`.
 */
module SudokuSolver {
  import opened Text

  /** The row letters, in order; `getIndexes` looks a letter up here. */
  const Rows: string := "abcdefghi"
  /** The digits a cell may hold, in the order the solver tries them. */
  const NumberValues: string := "123456789"
  /** The symbol of an unsolved cell. */
  const Empty: char := '.'
  /** Every symbol `validate` lets through: the complement of `/[^.1-9]/`. */
  const PuzzleSymbols: string := ".123456789"

  predicate IsDigit(c: char) {
    '1' <= c <= '9'
  }

  lemma RowsAreConsecutive()
    ensures |Rows| == 9
    ensures forall k :: 0 <= k < 9 ==> Rows[k] as int == 'a' as int + k
  {
    assert Rows == seq(9, k requires 0 <= k < 9 => ('a' as int + k) as char);
  }

  lemma NumberValuesAreConsecutive()
    ensures |NumberValues| == 9
    ensures forall k :: 0 <= k < 9 ==> NumberValues[k] as int == '1' as int + k
    ensures forall c :: c in NumberValues <==> IsDigit(c)
  {
    assert NumberValues == seq(9, k requires 0 <= k < 9 => ('1' as int + k) as char);
    forall c | IsDigit(c) ensures c in NumberValues {
      assert NumberValues[c as int - '1' as int] == c;
    }
  }

  // ---------------------------------------------------------------------
  // Grid codec
  // ---------------------------------------------------------------------

  /**
   * `validate`: a puzzle string is accepted exactly when it has 81 symbols,
   * each the empty marker or a digit 1-9. Nothing is ever raised.
   */
  function Validate(puzzleString: string): (ok: bool)
    ensures ok <==> (|puzzleString| == 81 &&
      forall i :: 0 <= i < |puzzleString| ==> puzzleString[i] == Empty || IsDigit(puzzleString[i]))
  {
    NumberValuesAreConsecutive();
    assert forall c :: c in PuzzleSymbols <==> c == Empty || c in NumberValues;
    var containsInvalidCharacters := ContainsOutside(puzzleString, PuzzleSymbols);
    var isIncorrectLength := |puzzleString| != 81;
    !(containsInvalidCharacters || isIncorrectLength)
  }

  /**
   * What `getIndexes` returns. `columnIndex` is None where JavaScript
   * computes NaN (`parseInt` of a missing or non-digit character, minus one).
   */
  datatype Indexes = Indexes(rowIndex: int, columnIndex: Option<int>)

  /**
   * `getIndexes`: the row is the position of the first character in
   * "abcdefghi" (-1 when absent: the lookup is case-sensitive), the column
   * is the second character's decimal value minus one.
   */
  function GetIndexes(coord: string): (ix: Indexes)
    ensures ix.rowIndex == -1 <==> |coord| == 0 || coord[0] !in Rows
    ensures 0 <= ix.rowIndex ==> ix.rowIndex < 9 && Rows[ix.rowIndex] == coord[0]
    ensures ix.columnIndex.Some? <==> |coord| >= 2 && '0' <= coord[1] <= '9'
    ensures ix.columnIndex.Some? ==>
      -1 <= ix.columnIndex.value < 9 && coord[1] as int == '1' as int + ix.columnIndex.value
  {
    var rowIndex := if |coord| == 0 then -1 else IndexOf(Rows, coord[0]);
    var column := if |coord| < 2 then None else ParseDigit(coord[1]);
    Indexes(rowIndex, if column.Some? then Some(column.value - 1) else None)
  }

  /** The lower-case coordinate that names the cell at (row, column), e.g. "a2" for (0, 1). */
  function Coordinate(row: int, column: int): (coord: string)
    requires 0 <= row < 9 && 0 <= column < 9
    ensures |coord| == 2 && 'a' <= coord[0] <= 'i' && IsDigit(coord[1])
  {
    RowsAreConsecutive();
    NumberValuesAreConsecutive();
    [Rows[row], NumberValues[column]]
  }

  /** Every cell's lower-case coordinate decodes back to that cell. */
  lemma GetIndexesRoundTrip(row: int, column: int)
    requires 0 <= row < 9 && 0 <= column < 9
    ensures GetIndexes(Coordinate(row, column)) == Indexes(row, Some(column))
  {
    RowsAreConsecutive();
    NumberValuesAreConsecutive();
    var ix := GetIndexes(Coordinate(row, column));
    assert Rows[row] in Rows;
    assert Rows[ix.rowIndex] == Rows[row];
  }

  /** An upper-case row letter is not found, so the row decodes to -1. */
  lemma GetIndexesUpperCase(coord: string)
    requires |coord| >= 1 && 'A' <= coord[0] <= 'I'
    ensures GetIndexes(coord).rowIndex == -1
  {
    RowsAreConsecutive();
  }

  // ---------------------------------------------------------------------
  // Placement checks
  // ---------------------------------------------------------------------

  /** The linear index of the cell at (row, column). */
  function Cell(row: int, column: int): int {
    9 * row + column
  }

  lemma CellRowColumn(row: int, column: int)
    requires 0 <= row < 9 && 0 <= column < 9
    ensures 0 <= Cell(row, column) < 81
    ensures Cell(row, column) / 9 == row && Cell(row, column) % 9 == column
  {
  }

  /**
   * `checkRowPlacement`: the digit may go in the row when it is absent from
   * all nine cells of the row, the target cell included (a digit already at
   * the target counts as a conflict with itself).
   */
  function CheckRowPlacement(puzzle: seq<char>, row: int, column: int, value: char): (valid: bool)
    requires |puzzle| == 81 && 0 <= row < 9
    ensures valid <==> forall j :: 0 <= j < 81 && j / 9 == row ==> puzzle[j] != value
  {
    var rowEntries := puzzle[9 * row .. 9 * row + 9];
    assert forall j :: 0 <= j < 81 && j / 9 == row ==> puzzle[j] == rowEntries[j - 9 * row];
    value !in rowEntries
  }

  /**
   * `checkColPlacement`: the digit may go in the column when it is absent
   * from all nine cells `column + 9k`, the target cell included.
   */
  function CheckColPlacement(puzzle: seq<char>, row: int, column: int, value: char): (valid: bool)
    requires |puzzle| == 81 && 0 <= column < 9
    ensures valid <==> forall j :: 0 <= j < 81 && j % 9 == column ==> puzzle[j] != value
  {
    var columnEntries := seq(9, i requires 0 <= i < 9 => puzzle[column + 9 * i]);
    assert forall j :: 0 <= j < 81 && j % 9 == column ==> puzzle[j] == columnEntries[j / 9];
    value !in columnEntries
  }

  /** `getRegionIndex`: `Math.floor(value / 3)`. */
  function RegionIndex(value: int): (region: int)
    ensures 3 * region <= value < 3 * region + 3
  {
    value / 3
  }

  /** The top-left cell of the box that holds (row, column). */
  function BoxStart(row: int, column: int): int {
    3 * RegionIndex(column) + 27 * RegionIndex(row)
  }

  /** The k-th cell (k in 0..8, row-major) of the box whose top-left cell is `start`. */
  function BoxCell(start: int, k: int): int {
    start + k % 3 + 9 * (k / 3)
  }

  lemma DivMod9(a: int, b: int)
    requires 0 <= b < 9
    ensures (9 * a + b) / 9 == a && (9 * a + b) % 9 == b
  {
  }

  lemma DivMod3(a: int, b: int)
    requires 0 <= b < 3
    ensures (3 * a + b) / 3 == a && (3 * a + b) % 3 == b
  {
  }

  /** Each of the nine listed cells lies in the box of (row, column). */
  lemma BoxCellInBox(row: int, column: int, k: int)
    requires 0 <= row < 9 && 0 <= column < 9 && 0 <= k < 9
    ensures 0 <= BoxCell(BoxStart(row, column), k) < 81
    ensures BoxCell(BoxStart(row, column), k) / 9 / 3 == row / 3
    ensures BoxCell(BoxStart(row, column), k) % 9 / 3 == column / 3
  {
    var r, c, x, y := row / 3, column / 3, k % 3, k / 3;
    assert BoxCell(BoxStart(row, column), k) == 9 * (3 * r + y) + (3 * c + x);
    DivMod9(3 * r + y, 3 * c + x);
    DivMod3(r, y);
    DivMod3(c, x);
  }

  /** Every cell of the box of (row, column) is one of the nine listed cells. */
  lemma BoxHasCell(row: int, column: int, j: int) returns (k: int)
    requires 0 <= row < 9 && 0 <= column < 9 && 0 <= j < 81
    requires j / 9 / 3 == row / 3 && j % 9 / 3 == column / 3
    ensures 0 <= k < 9 && j == BoxCell(BoxStart(row, column), k)
  {
    var r, c := row / 3, column / 3;
    var x, y := j % 9 - 3 * c, j / 9 - 3 * r;
    k := 3 * y + x;
    DivMod3(y, x);
  }

  /**
   * `checkRegionPlacement`: valid at once when the target cell already holds
   * the digit (the only self-exemption of the three checks); otherwise valid
   * when the digit is absent from the nine cells of the target's 3x3 box.
   */
  function CheckRegionPlacement(puzzle: seq<char>, row: int, column: int, value: char): (valid: bool)
    requires |puzzle| == 81 && 0 <= row < 9 && 0 <= column < 9
    ensures valid <==> (puzzle[Cell(row, column)] == value ||
      forall j :: 0 <= j < 81 && j / 9 / 3 == row / 3 && j % 9 / 3 == column / 3 ==> puzzle[j] != value)
  {
    var puzzleIndex := column + 9 * row;
    CellRowColumn(row, column);
    assert puzzleIndex == Cell(row, column);
    if puzzle[puzzleIndex] == value then true
    else
      var entries := BoxEntries(puzzle, row, column);
      RegionEntries(puzzle, row, column, value, entries);
      value !in entries
  }

  /** The nested `for (y …) for (x …)` loops of `checkRegionPlacement`: the box's nine cells, row by row. */
  function BoxEntries(puzzle: seq<char>, row: int, column: int): (entries: string)
    requires |puzzle| == 81 && 0 <= row < 9 && 0 <= column < 9
    ensures |entries| == 9
    ensures forall k :: 0 <= k < 9 ==>
      0 <= BoxCell(BoxStart(row, column), k) < 81 && entries[k] == puzzle[BoxCell(BoxStart(row, column), k)]
  {
    BoxCellsInRange(row, column);
    seq(9, k requires 0 <= k < 9 => puzzle[BoxCell(BoxStart(row, column), k)])
  }

  lemma BoxCellsInRange(row: int, column: int)
    requires 0 <= row < 9 && 0 <= column < 9
    ensures forall k :: 0 <= k < 9 ==> 0 <= BoxCell(BoxStart(row, column), k) < 81
  {
    forall k | 0 <= k < 9
      ensures 0 <= BoxCell(BoxStart(row, column), k) < 81
    {
      BoxCellInBox(row, column, k);
    }
  }

  lemma RegionEntries(puzzle: seq<char>, row: int, column: int, value: char, entries: seq<char>)
    requires |puzzle| == 81 && 0 <= row < 9 && 0 <= column < 9
    requires |entries| == 9
    requires forall k :: 0 <= k < 9 ==>
      0 <= BoxCell(BoxStart(row, column), k) < 81 && entries[k] == puzzle[BoxCell(BoxStart(row, column), k)]
    ensures value in entries <==>
      exists j :: 0 <= j < 81 && j / 9 / 3 == row / 3 && j % 9 / 3 == column / 3 && puzzle[j] == value
  {
    if value in entries {
      var k :| 0 <= k < 9 && entries[k] == value;
      BoxCellInBox(row, column, k);
      var j := BoxCell(BoxStart(row, column), k);
      assert puzzle[j] == value;
    }
    if exists j :: 0 <= j < 81 && j / 9 / 3 == row / 3 && j % 9 / 3 == column / 3 && puzzle[j] == value {
      var j :| 0 <= j < 81 && j / 9 / 3 == row / 3 && j % 9 / 3 == column / 3 && puzzle[j] == value;
      var k := BoxHasCell(row, column, j);
      assert entries[k] == value;
    }
  }

  /** The names `isValidCellValue` reports for failed checks. */
  datatype ConflictKind = Column | Row | Region

  /** Position of a check in the order `isValidCellValue` runs them. */
  function Rank(kind: ConflictKind): nat {
    match kind
    case Column => 0
    case Row => 1
    case Region => 2
  }

  /** The list follows the check order strictly, so it also has no duplicates. */
  predicate InCheckOrder(conflict: seq<ConflictKind>) {
    forall i, j :: 0 <= i < j < |conflict| ==> Rank(conflict[i]) < Rank(conflict[j])
  }

  /** The `{valid, conflict}` object `isValidCellValue` returns. */
  datatype Placement = Placement(valid: bool, conflict: seq<ConflictKind>)

  /**
   * `isValidCellValue`: runs the column, row and region checks in that order
   * and lists the name of each that fails; valid when none fails.
   */
  function IsValidCellValue(puzzle: seq<char>, row: int, column: int, value: char): (p: Placement)
    requires |puzzle| == 81 && 0 <= row < 9 && 0 <= column < 9
    ensures p.valid <==> p.conflict == []
    ensures Column in p.conflict <==> !CheckColPlacement(puzzle, row, column, value)
    ensures Row in p.conflict <==> !CheckRowPlacement(puzzle, row, column, value)
    ensures Region in p.conflict <==> !CheckRegionPlacement(puzzle, row, column, value)
    ensures InCheckOrder(p.conflict)
  {
    var columnValid := CheckColPlacement(puzzle, row, column, value);
    var rowValid := CheckRowPlacement(puzzle, row, column, value);
    var regionValid := CheckRegionPlacement(puzzle, row, column, value);
    var conflict :=
      (if columnValid then [] else [Column]) +
      (if rowValid then [] else [Row]) +
      (if regionValid then [] else [Region]);
    ConflictList(columnValid, rowValid, regionValid, conflict);
    Placement(|conflict| == 0, conflict)
  }

  lemma ConflictList(columnValid: bool, rowValid: bool, regionValid: bool, conflict: seq<ConflictKind>)
    requires conflict ==
      (if columnValid then [] else [Column]) + (if rowValid then [] else [Row]) + (if regionValid then [] else [Region])
    ensures (Column in conflict <==> !columnValid) && (Row in conflict <==> !rowValid)
    ensures Region in conflict <==> !regionValid
    ensures InCheckOrder(conflict)
  {
  }

  /**
   * A digit already at the target cell conflicts with its own row and
   * column but is exempt from the region check: the answer is exactly
   * `['column', 'row']`.
   */
  lemma SelfPlacementConflicts(puzzle: seq<char>, row: int, column: int)
    requires |puzzle| == 81 && 0 <= row < 9 && 0 <= column < 9
    ensures IsValidCellValue(puzzle, row, column, puzzle[Cell(row, column)]).conflict == [Column, Row]
  {
    CellRowColumn(row, column);
  }

  /**
   * On an empty target cell a valid answer means the digit occurs nowhere in
   * the cell's row, column or box.
   */
  lemma ValidMeansAbsentFromPeers(puzzle: seq<char>, row: int, column: int, value: char)
    requires |puzzle| == 81 && 0 <= row < 9 && 0 <= column < 9
    requires puzzle[Cell(row, column)] == Empty && value != Empty
    ensures IsValidCellValue(puzzle, row, column, value).valid <==>
      forall j :: 0 <= j < 81 && Peers(j, Cell(row, column)) ==> puzzle[j] != value
  {
    CellRowColumn(row, column);
    var t := Cell(row, column);
    var p := IsValidCellValue(puzzle, row, column, value);
    if p.valid {
      forall j | 0 <= j < 81 && Peers(j, t) ensures puzzle[j] != value {
        if SameRow(j, t) {
          assert !(Row in p.conflict);
        } else if SameColumn(j, t) {
          assert !(Column in p.conflict);
        } else {
          assert !(Region in p.conflict);
        }
      }
    } else {
      assert p.conflict[0] in p.conflict;
      if Column in p.conflict {
        var j :| 0 <= j < 81 && j % 9 == column && puzzle[j] == value;
        assert Peers(j, t);
      } else if Row in p.conflict {
        var j :| 0 <= j < 81 && j / 9 == row && puzzle[j] == value;
        assert Peers(j, t);
      } else {
        assert Region in p.conflict;
        var j :| 0 <= j < 81 && j / 9 / 3 == row / 3 && j % 9 / 3 == column / 3 && puzzle[j] == value;
        assert Peers(j, t);
      }
    }
  }

  // ---------------------------------------------------------------------
  // Sudoku rules on a whole grid
  // ---------------------------------------------------------------------

  predicate SameRow(i: int, j: int) {
    i / 9 == j / 9
  }

  predicate SameColumn(i: int, j: int) {
    i % 9 == j % 9
  }

  predicate SameBox(i: int, j: int) {
    i / 9 / 3 == j / 9 / 3 && i % 9 / 3 == j % 9 / 3
  }

  /** Two distinct cells that share a row, a column or a box. */
  predicate Peers(i: int, j: int) {
    i != j && (SameRow(i, j) || SameColumn(i, j) || SameBox(i, j))
  }

  /** No digit occurs twice in any row, column or box. */
  predicate Consistent(puzzle: seq<char>)
    requires |puzzle| == 81
  {
    forall i, j :: 0 <= i < 81 && 0 <= j < 81 && Peers(i, j) && puzzle[i] != Empty ==> puzzle[i] != puzzle[j]
  }

  /** `after` keeps every filled cell of `before` and fills empty cells only with digits. */
  predicate Extends(before: seq<char>, after: seq<char>) {
    |after| == |before| &&
    forall j :: 0 <= j < |before| ==> after[j] == before[j] || (before[j] == Empty && IsDigit(after[j]))
  }

  lemma ExtendsTransitive(a: seq<char>, b: seq<char>, c: seq<char>)
    requires Extends(a, b) && Extends(b, c)
    ensures Extends(a, c)
  {
  }

  /** The number of filled (non-empty) cells: what `solve` counts into `solvedCount`. */
  function CountFilled(s: seq<char>): (n: nat)
    ensures n <= |s|
    ensures n == |s| <==> Empty !in s
  {
    if s == [] then 0
    else
      var init := s[..|s| - 1];
      assert forall c :: c in s <==> c in init || c == s[|s| - 1];
      CountFilled(init) + if s[|s| - 1] != Empty then 1 else 0
  }

  /** Filling one empty cell raises the count by exactly one. */
  lemma {:induction false} CountFilledWrite(s: seq<char>, t: int, d: char)
    requires 0 <= t < |s| && s[t] == Empty && d != Empty
    ensures CountFilled(s[t := d]) == CountFilled(s) + 1
  {
    var n := |s|;
    if t == n - 1 {
      assert s[t := d][..n - 1] == s[..n - 1];
    } else {
      assert s[t := d][..n - 1] == s[..n - 1][t := d];
      CountFilledWrite(s[..n - 1], t, d);
    }
  }

  // ---------------------------------------------------------------------
  // Propagation
  // ---------------------------------------------------------------------

  /** Strictly increasing characters: sorted and free of duplicates. */
  predicate Increasing(s: string) {
    forall i, j :: 0 <= i < j < |s| ==> s[i] < s[j]
  }

  /** The characters of `digits`, in order, that `isValidCellValue` accepts at (row, column). */
  function FilterValid(puzzle: seq<char>, row: int, column: int, digits: string): string
    requires |puzzle| == 81 && 0 <= row < 9 && 0 <= column < 9
  {
    if digits == [] then []
    else
      var init := digits[..|digits| - 1];
      var d := digits[|digits| - 1];
      var rest := FilterValid(puzzle, row, column, init);
      if IsValidCellValue(puzzle, row, column, d).valid then rest + [d] else rest
  }

  /** Filtering keeps exactly the accepted characters. */
  lemma {:induction false} FilterValidMembers(puzzle: seq<char>, row: int, column: int, digits: string)
    requires |puzzle| == 81 && 0 <= row < 9 && 0 <= column < 9
    ensures forall d :: d in FilterValid(puzzle, row, column, digits) <==>
      d in digits && IsValidCellValue(puzzle, row, column, d).valid
  {
    if digits != [] {
      var init := digits[..|digits| - 1];
      assert digits == init + [digits[|digits| - 1]];
      FilterValidMembers(puzzle, row, column, init);
    }
  }

  /** Filtering keeps the order of the digits tried. */
  lemma {:induction false} FilterValidIncreasing(puzzle: seq<char>, row: int, column: int, digits: string)
    requires |puzzle| == 81 && 0 <= row < 9 && 0 <= column < 9
    requires Increasing(digits)
    ensures Increasing(FilterValid(puzzle, row, column, digits))
  {
    if digits != [] {
      var init := digits[..|digits| - 1];
      var d := digits[|digits| - 1];
      var rest := FilterValid(puzzle, row, column, init);
      FilterValidIncreasing(puzzle, row, column, init);
      FilterValidMembers(puzzle, row, column, init);
      if IsValidCellValue(puzzle, row, column, d).valid {
        forall i | 0 <= i < |rest| ensures rest[i] < d {
          assert rest[i] in init;
        }
      }
    }
  }

  /** The candidates `solveCell` lists for cell `index`: the digits 1-9, in order, that may go there. */
  function Candidates(puzzle: seq<char>, index: int): string
    requires |puzzle| == 81 && 0 <= index < 81
  {
    FilterValid(puzzle, index / 9, index % 9, NumberValues)
  }

  /** The candidates are exactly the accepted digits 1-9, each listed once and in increasing order. */
  lemma CandidatesSpec(puzzle: seq<char>, index: int)
    requires |puzzle| == 81 && 0 <= index < 81
    ensures forall d :: d in Candidates(puzzle, index) <==>
      IsDigit(d) && IsValidCellValue(puzzle, index / 9, index % 9, d).valid
    ensures Increasing(Candidates(puzzle, index))
  {
    NumberValuesAreConsecutive();
    FilterValidMembers(puzzle, index / 9, index % 9, NumberValues);
    FilterValidIncreasing(puzzle, index / 9, index % 9, NumberValues);
  }

  /** An empty cell with exactly one candidate: the only cells `solveCell` fills. */
  predicate Forced(puzzle: seq<char>, index: int)
    requires |puzzle| == 81 && 0 <= index < 81
  {
    puzzle[index] == Empty && |Candidates(puzzle, index)| == 1
  }

  /**
   * The grid after `solveCell` has examined cell `index`: a forced cell gets
   * its only candidate, every other grid is left as it is.
   */
  function Visit(puzzle: seq<char>, index: int): (next: seq<char>)
    requires |puzzle| == 81 && 0 <= index < 81
    ensures |next| == 81
    ensures forall j :: 0 <= j < 81 && j != index ==> next[j] == puzzle[j]
    ensures next == puzzle <==> !Forced(puzzle, index)
    ensures Forced(puzzle, index) ==> IsDigit(next[index]) && Candidates(puzzle, index) == [next[index]]
  {
    if Forced(puzzle, index) then
      var solutions := Candidates(puzzle, index);
      CandidatesSpec(puzzle, index);
      assert solutions[0] in solutions;
      assert puzzle[index := solutions[0]][index] != puzzle[index];
      puzzle[index := solutions[0]]
    else puzzle
  }

  /** The digit a visit writes is the one and only digit 1-9 that `isValidCellValue` accepts there. */
  lemma VisitWritesOnlyCandidate(puzzle: seq<char>, index: int)
    requires |puzzle| == 81 && 0 <= index < 81 && Forced(puzzle, index)
    ensures forall d :: IsDigit(d) ==>
      (IsValidCellValue(puzzle, index / 9, index % 9, d).valid <==> d == Visit(puzzle, index)[index])
  {
    var written := Visit(puzzle, index)[index];
    assert Candidates(puzzle, index) == [written];
    CandidatesSpec(puzzle, index);
    forall d | IsDigit(d)
      ensures IsValidCellValue(puzzle, index / 9, index % 9, d).valid <==> d == written
    {
      assert d in Candidates(puzzle, index) <==> d == written;
    }
  }

  /** A visit keeps the given cells and fills an empty cell only with a digit. */
  lemma VisitExtends(puzzle: seq<char>, index: int)
    requires |puzzle| == 81 && 0 <= index < 81
    ensures Extends(puzzle, Visit(puzzle, index))
  {
  }

  /** A visit adds one to the filled-cell count exactly when it fills its cell. */
  lemma VisitCount(puzzle: seq<char>, index: int)
    requires |puzzle| == 81 && 0 <= index < 81
    ensures CountFilled(Visit(puzzle, index)) == CountFilled(puzzle) + if Forced(puzzle, index) then 1 else 0
  {
    if Forced(puzzle, index) {
      var next := Visit(puzzle, index);
      assert next == puzzle[index := next[index]];
      CountFilledWrite(puzzle, index, next[index]);
    }
  }

  /**
   * Every write respects row, column and box uniqueness: the region check's
   * self-exemption cannot fire on an empty cell, so a consistent grid stays
   * consistent.
   */
  lemma {:induction false} VisitKeepsConsistent(puzzle: seq<char>, index: int)
    requires |puzzle| == 81 && 0 <= index < 81
    requires Consistent(puzzle)
    ensures Consistent(Visit(puzzle, index))
  {
    var next := Visit(puzzle, index);
    if Forced(puzzle, index) {
      var d := next[index];
      var row, column := index / 9, index % 9;
      assert Cell(row, column) == index;
      assert IsValidCellValue(puzzle, row, column, d).valid by {
        VisitWritesOnlyCandidate(puzzle, index);
      }
      ValidMeansAbsentFromPeers(puzzle, row, column, d);
      forall i, j | 0 <= i < 81 && 0 <= j < 81 && Peers(i, j) && next[i] != Empty
        ensures next[i] != next[j]
      {
        if i == index {
          assert Peers(j, index);
        } else if j == index {
          assert Peers(i, index);
        }
      }
    }
  }

  /** No empty cell has exactly one candidate, so no visit changes anything. */
  predicate Stuck(puzzle: seq<char>)
    requires |puzzle| == 81
  {
    forall index :: 0 <= index < 81 ==> !Forced(puzzle, index)
  }

  /** The state one call of `solveCell` receives. */
  datatype SolveState = SolveState(puzzle: seq<char>, solvedCount: int, index: int)

  predicate WellFormed(st: SolveState) {
    |st.puzzle| == 81 && 0 <= st.index <= 81
  }

  /** What one call of `solveCell` does: return the joined grid, or recurse with a new state. */
  datatype SolveCellCall = Return(solution: string) | Recurse(next: SolveState)

  /**
   * One call of `solveCell` as written: return once `solvedCount` reaches 81,
   * otherwise wrap the index at 81, visit the cell, count a write and
   * recurse on the next index.
   */
  function SolveCellStep(st: SolveState): (call: SolveCellCall)
    requires WellFormed(st)
    ensures call.Return? <==> st.solvedCount == 81
    ensures call.Return? ==> call.solution == st.puzzle
    ensures call.Recurse? ==> (WellFormed(call.next) && 1 <= call.next.index &&
      Extends(st.puzzle, call.next.puzzle) && st.solvedCount <= call.next.solvedCount)
  {
    if st.solvedCount == |st.puzzle| then Return(st.puzzle)
    else
      var index := if st.index == |st.puzzle| then 0 else st.index;
      VisitExtends(st.puzzle, index);
      var count := if Forced(st.puzzle, index) then st.solvedCount + 1 else st.solvedCount;
      Recurse(SolveState(Visit(st.puzzle, index), count, index + 1))
  }

  /** A one-call step that accepts every well-formed state and recurses only into well-formed ones. */
  ghost predicate KeepsWellFormed(step: SolveState --> SolveCellCall) {
    forall st :: WellFormed(st) ==> step.requires(st) && (step(st).Recurse? ==> WellFormed(step(st).next))
  }

  /**
   * Where the chain of recursive calls of a function whose one call is
   * `step` stands after `n` calls from `st`: still recursing into some
   * state, or returned.
   */
  ghost function Chain(step: SolveState --> SolveCellCall, st: SolveState, n: nat): (call: SolveCellCall)
    requires KeepsWellFormed(step) && WellFormed(st)
    ensures call.Recurse? ==> WellFormed(call.next)
    decreases n
  {
    if n == 0 then Recurse(st)
    else
      match step(st)
      case Return(s) => Return(s)
      case Recurse(next) => Chain(step, next, n - 1)
  }

  /** Continue a chain of calls of `step` for `n` more calls. */
  ghost function ResumeChain(step: SolveState --> SolveCellCall, call: SolveCellCall, n: nat): SolveCellCall
    requires KeepsWellFormed(step) && (call.Recurse? ==> WellFormed(call.next))
  {
    match call
    case Return(s) => Return(s)
    case Recurse(st) => Chain(step, st, n)
  }

  /** Following `a + b` calls is following `a` calls and then `b` more, whatever the step. */
  lemma {:induction false} ChainSplit(step: SolveState --> SolveCellCall, st: SolveState, a: nat, b: nat)
    requires KeepsWellFormed(step) && WellFormed(st)
    ensures Chain(step, st, a + b) == ResumeChain(step, Chain(step, st, a), b)
    decreases a
  {
    if a > 0 {
      match step(st)
      case Return(s) =>
      case Recurse(next) => ChainSplit(step, next, a - 1, b);
    }
  }

  lemma SolveCellStepKeepsWellFormed()
    ensures KeepsWellFormed(SolveCellStep)
  {
  }

  /** Where the chain of recursive `solveCell` calls starting at `st` stands after `n` calls. */
  ghost function Calls(st: SolveState, n: nat): (call: SolveCellCall)
    requires WellFormed(st)
    ensures call.Recurse? ==> WellFormed(call.next)
  {
    SolveCellStepKeepsWellFormed();
    Chain(SolveCellStep, st, n)
  }

  /** Continue a chain of `solveCell` calls for `n` more calls. */
  ghost function Resume(call: SolveCellCall, n: nat): SolveCellCall
    requires call.Recurse? ==> WellFormed(call.next)
  {
    SolveCellStepKeepsWellFormed();
    ResumeChain(SolveCellStep, call, n)
  }

  /** Following `a + b` calls of `solveCell` is following `a` calls and then `b` more. */
  lemma CallsSplit(st: SolveState, a: nat, b: nat)
    requires WellFormed(st)
    ensures Calls(st, a + b) == Resume(Calls(st, a), b)
  {
    SolveCellStepKeepsWellFormed();
    ChainSplit(SolveCellStep, st, a, b);
  }

  /**
   * On a stuck grid that is not yet full, a call of `solveCell` recurses
   * with the same grid and count, and so does every later call: the source
   * never returns.
   */
  lemma {:induction false} StuckNeverReturns(st: SolveState, n: nat)
    requires WellFormed(st) && Stuck(st.puzzle)
    requires st.solvedCount == CountFilled(st.puzzle) < 81
    ensures Calls(st, n).Recurse?
    ensures Calls(st, n).next.puzzle == st.puzzle && Calls(st, n).next.solvedCount == st.solvedCount
    decreases n
  {
    if n > 0 {
      match SolveCellStep(st)
      case Recurse(next) => StuckNeverReturns(next, n - 1);
    }
  }

  /** The grid of 81 empty cells. */
  const AllEmpty: seq<char> := seq(81, _ => Empty)

  /** On the empty grid every digit passes all three checks at every cell. */
  lemma AllEmptyAcceptsEveryDigit(row: int, column: int, d: char)
    requires 0 <= row < 9 && 0 <= column < 9 && IsDigit(d)
    ensures IsValidCellValue(AllEmpty, row, column, d).valid
  {
    var p := IsValidCellValue(AllEmpty, row, column, d);
    assert CheckColPlacement(AllEmpty, row, column, d);
    assert CheckRowPlacement(AllEmpty, row, column, d);
    assert CheckRegionPlacement(AllEmpty, row, column, d);
  }

  /** On the empty grid every digit is a candidate everywhere, so no cell is ever forced. */
  lemma AllEmptyIsStuck()
    ensures |AllEmpty| == 81 && Stuck(AllEmpty)
  {
    forall index | 0 <= index < 81 ensures !Forced(AllEmpty, index) {
      AllEmptyAcceptsEveryDigit(index / 9, index % 9, '1');
      AllEmptyAcceptsEveryDigit(index / 9, index % 9, '2');
      var solutions := Candidates(AllEmpty, index);
      CandidatesSpec(AllEmpty, index);
      assert '1' in solutions && '2' in solutions;
      var one :| 0 <= one < |solutions| && solutions[one] == '1';
      var two :| 0 <= two < |solutions| && solutions[two] == '2';
      assert one != two;
    }
  }

  /** `solve` on 81 empty cells: `solveCell` recurses for ever and never returns a grid. */
  lemma AllEmptyNeverSolved(n: nat)
    ensures Calls(SolveState(AllEmpty, 0, 0), n).Recurse?
  {
    AllEmptyIsStuck();
    assert AllEmpty[0] == Empty;
    assert CountFilled(AllEmpty) == 0 by {
      forall k | 0 <= k <= 81 ensures CountFilled(AllEmpty[..k]) == 0 {
        CountFilledEmpty(AllEmpty[..k]);
      }
      assert AllEmpty[..81] == AllEmpty;
    }
    StuckNeverReturns(SolveState(AllEmpty, 0, 0), n);
  }

  lemma {:induction false} CountFilledEmpty(s: seq<char>)
    requires forall j :: 0 <= j < |s| ==> s[j] == Empty
    ensures CountFilled(s) == 0
  {
    if s != [] {
      CountFilledEmpty(s[..|s| - 1]);
    }
  }

  /** What `solve` reports; Unsolvable stands for the source's endless recursion. */
  datatype SolveResult = Invalid | Solved(solution: string) | Unsolvable(stuck: string)

  /** How many visits ago cell `j` was visited, when the last visit was to cell `index - 1`. */
  function Behind(index: int, j: int): int {
    (index - 1 - j) % 81
  }

  /**
   * A visit that writes nothing extends by one the run of visits that wrote
   * nothing: the cells it covers are still not forced.
   */
  lemma IdleStep(grid: seq<char>, index: int, idle: int)
    requires |grid| == 81 && 0 <= index <= 81
    requires !Forced(grid, if index == 81 then 0 else index)
    requires forall j :: 0 <= j < 81 && Behind(index, j) < idle ==> !Forced(grid, j)
    ensures var visited := if index == 81 then 0 else index;
      forall j :: 0 <= j < 81 && Behind(visited + 1, j) < idle + 1 ==> !Forced(grid, j)
  {
    var visited := if index == 81 then 0 else index;
    forall j | 0 <= j < 81 && j != visited
      ensures Behind(visited + 1, j) == Behind(index, j) + 1
    {
    }
  }

  /** One more call of `solveCell`, from a state the chain of calls has reached. */
  lemma CallStep(start: SolveState, steps: nat, current: SolveState)
    requires WellFormed(start) && WellFormed(current)
    requires Calls(start, steps) == Recurse(current) && current.solvedCount != 81
    ensures var visited := if current.index == 81 then 0 else current.index;
      Calls(start, steps + 1) == Recurse(SolveState(
        Visit(current.puzzle, visited),
        if Forced(current.puzzle, visited) then current.solvedCount + 1 else current.solvedCount,
        visited + 1))
  {
    CallsSplit(start, steps, 1);
  }

  /** Once the count reaches 81 the next call returns the grid. */
  lemma CallReturns(start: SolveState, steps: nat, current: SolveState)
    requires WellFormed(start) && WellFormed(current)
    requires Calls(start, steps) == Recurse(current) && current.solvedCount == 81
    ensures Calls(start, steps + 1) == Return(current.puzzle)
  {
    CallsSplit(start, steps, 1);
  }

  /** Once the chain reaches a stuck state that is not full, no call ever returns. */
  lemma StuckChainNeverReturns(start: SolveState, steps: nat, current: SolveState)
    requires WellFormed(start) && WellFormed(current) && Calls(start, steps) == Recurse(current)
    requires Stuck(current.puzzle) && current.solvedCount == CountFilled(current.puzzle) < 81
    ensures forall n: nat :: Calls(start, n).Recurse?
  {
    forall n: nat ensures Calls(start, n).Recurse? {
      if n <= steps {
        CallsSplit(start, n, steps - n);
      } else {
        CallsSplit(start, steps, n - steps);
        StuckNeverReturns(current, n - steps);
      }
    }
  }

  ghost predicate Progress(start: SolveState, steps: nat, grid: seq<char>, count: int, index: int, idle: int)
    requires WellFormed(start)
  {
    |grid| == 81 && 0 <= index <= 81 && 0 <= idle <= 81 &&
    count == CountFilled(grid) &&
    Extends(start.puzzle, grid) &&
    (Consistent(start.puzzle) ==> Consistent(grid)) &&
    Calls(start, steps) == Recurse(SolveState(grid, count, index)) &&
    forall j :: 0 <= j < 81 && Behind(index, j) < idle ==> !Forced(grid, j)
  }

  lemma ProgressStep(start: SolveState, steps: nat, grid: seq<char>, count: int, index: int, idle: int,
                     visited: int, wrote: bool, next: seq<char>, count': int, idle': int)
    requires WellFormed(start) && Progress(start, steps, grid, count, index, idle)
    requires count != 81 && idle != 81
    requires visited == if index == 81 then 0 else index
    requires wrote == Forced(grid, visited) && next == Visit(grid, visited)
    requires count' == (if wrote then count + 1 else count) && idle' == if wrote then 0 else idle + 1
    ensures Progress(start, steps + 1, next, count', visited + 1, idle')
  {
    assert Calls(start, steps + 1) == Recurse(SolveState(next, count', visited + 1)) by {
      CallStep(start, steps, SolveState(grid, count, index));
    }
    assert CountFilled(next) == count' by {
      VisitCount(grid, visited);
    }
    assert Extends(start.puzzle, next) by {
      VisitExtends(grid, visited);
      ExtendsTransitive(start.puzzle, grid, next);
    }
    assert Consistent(start.puzzle) ==> Consistent(next) by {
      if Consistent(start.puzzle) {
        VisitKeepsConsistent(grid, visited);
      }
    }
    assert forall j :: 0 <= j < 81 && Behind(visited + 1, j) < idle' ==> !Forced(next, j) by {
      IdleNext(grid, index, idle, visited, next, idle');
    }
  }

  /** The run of visits that wrote nothing grows by one visit, or restarts at a write. */
  lemma IdleNext(grid: seq<char>, index: int, idle: int, visited: int, next: seq<char>, idle': int)
    requires |grid| == 81 && 0 <= index <= 81
    requires forall j :: 0 <= j < 81 && Behind(index, j) < idle ==> !Forced(grid, j)
    requires visited == if index == 81 then 0 else index
    requires next == Visit(grid, visited) && idle' == if Forced(grid, visited) then 0 else idle + 1
    ensures forall j :: 0 <= j < 81 && Behind(visited + 1, j) < idle' ==> !Forced(next, j)
  {
    var after := visited + 1;
    if Forced(grid, visited) {
      forall j | 0 <= j < 81
        ensures Behind(after, j) >= 0
      {
      }
    } else {
      assert next == grid;
      IdleStep(grid, index, idle);
    }
  }

  /** Where the loop of `SolveCell` leaves the chain of calls once it stops. */
  lemma ProgressEnd(start: SolveState, steps: nat, grid: seq<char>, count: int, index: int, idle: int)
    requires WellFormed(start) && Progress(start, steps, grid, count, index, idle)
    requires count == 81 || idle == 81
    ensures Extends(start.puzzle, grid) && (Consistent(start.puzzle) ==> Consistent(grid))
    ensures count == 81 ==> Empty !in grid && Calls(start, steps + 1) == Return(grid)
    ensures count != 81 ==> Empty in grid && Stuck(grid) && forall n: nat :: Calls(start, n).Recurse?
  {
    if count == 81 {
      CallReturns(start, steps, SolveState(grid, count, index));
    } else {
      assert Stuck(grid) by {
        forall j | 0 <= j < 81 ensures !Forced(grid, j) {
          assert Behind(index, j) < idle;
        }
      }
      StuckChainNeverReturns(start, steps, SolveState(grid, count, index));
    }
  }

  /**
   * `solveCell` on the grid `puzzle`, as a loop over the source's recursion:
   * the same order of visits, the same index wrap at 81, the same return once
   * `solvedCount` reaches 81. It stops instead of recursing for ever after
   * 81 visits in a row that wrote nothing, and then reports Unsolvable.
   */
  method SolveCell(puzzle: array<char>, solvedCount: nat) returns (result: SolveResult)
    requires puzzle.Length == 81
    requires solvedCount == CountFilled(puzzle[..])
    modifies puzzle
    ensures Extends(old(puzzle[..]), puzzle[..])
    ensures Consistent(old(puzzle[..])) ==> Consistent(puzzle[..])
    ensures result.Solved? ==> (result.solution == puzzle[..] && Empty !in puzzle[..] &&
      exists n: nat :: Calls(SolveState(old(puzzle[..]), solvedCount, 0), n) == Return(result.solution))
    ensures result.Unsolvable? ==> (result.stuck == puzzle[..] && Empty in puzzle[..] && Stuck(puzzle[..]) &&
      forall n: nat :: Calls(SolveState(old(puzzle[..]), solvedCount, 0), n).Recurse?)
    ensures result.Unsolvable? ==> exists n: nat ::
      Calls(SolveState(old(puzzle[..]), solvedCount, 0), n).Recurse? &&
      Calls(SolveState(old(puzzle[..]), solvedCount, 0), n).next.puzzle == result.stuck
    ensures !result.Invalid?
  {
    ghost var start := SolveState(puzzle[..], solvedCount, 0);
    ghost var steps: nat := 0;
    var count := solvedCount;
    var index := 0;
    var idle := 0;
    while count != 81 && idle != 81
      invariant Progress(start, steps, puzzle[..], count, index, idle)
      decreases 81 - count, 81 - idle
    {
      ghost var before, reached, countBefore, idleBefore := puzzle[..], index, count, idle;
      if index == 81 {
        index := 0;
      }
      var wrote := SolveCellAt(puzzle, index);
      if wrote {
        count := count + 1;
        idle := 0;
      } else {
        idle := idle + 1;
      }
      ProgressStep(start, steps, before, countBefore, reached, idleBefore, index, wrote, puzzle[..], count, idle);
      index := index + 1;
      steps := steps + 1;
    }
    ProgressEnd(start, steps, puzzle[..], count, index, idle);
    if count == 81 {
      result := Solved(puzzle[..]);
    } else {
      result := Unsolvable(puzzle[..]);
      assert Calls(start, steps).next.puzzle == result.stuck;
    }
  }

  /**
   * The body of one `solveCell` call on an empty or filled cell: list the
   * candidates and write the only one, if there is exactly one.
   */
  method SolveCellAt(puzzle: array<char>, index: int) returns (wrote: bool)
    requires puzzle.Length == 81 && 0 <= index < 81
    modifies puzzle
    ensures puzzle[..] == Visit(old(puzzle[..]), index)
    ensures wrote == Forced(old(puzzle[..]), index)
  {
    var value := puzzle[index];
    var row := index / 9;
    var column := index - 9 * row;
    if value != Empty {
      return false;
    }
    var solutions := CellSolutions(puzzle, row, column);
    if |solutions| == 1 {
      puzzle[index] := solutions[0];
      wrote := true;
    } else {
      wrote := false;
    }
  }

  /** The `for (const numVal of this.numberValues)` loop: the digits that pass `isValidCellValue`, in order. */
  method CellSolutions(puzzle: array<char>, row: int, column: int) returns (solutions: string)
    requires puzzle.Length == 81 && 0 <= row < 9 && 0 <= column < 9
    ensures solutions == Candidates(puzzle[..], Cell(row, column))
  {
    CellRowColumn(row, column);
    solutions := [];
    for k := 0 to 9
      invariant solutions == FilterValid(puzzle[..], row, column, NumberValues[..k])
    {
      var numVal := NumberValues[k];
      var isValidValue := IsValidCellValue(puzzle[..], row, column, numVal);
      FilterValidLast(puzzle[..], row, column, NumberValues[..k + 1]);
      assert NumberValues[..k + 1][..k] == NumberValues[..k];
      if isValidValue.valid {
        solutions := solutions + [numVal];
      }
    }
    assert NumberValues[..9] == NumberValues;
  }

  /** One more digit tried: appended exactly when it is accepted. */
  lemma FilterValidLast(puzzle: seq<char>, row: int, column: int, digits: string)
    requires |puzzle| == 81 && 0 <= row < 9 && 0 <= column < 9 && digits != []
    ensures var d := digits[|digits| - 1];
      FilterValid(puzzle, row, column, digits) ==
        FilterValid(puzzle, row, column, digits[..|digits| - 1]) +
        if IsValidCellValue(puzzle, row, column, d).valid then [d] else []
  {
  }

  /** A full grid whose filled cells are all digits and that keeps every given of `puzzleString`. */
  predicate IsCompletion(puzzleString: string, solution: string) {
    Extends(puzzleString, solution) &&
    forall j :: 0 <= j < |solution| ==> IsDigit(solution[j])
  }

  /**
   * `solve`: reject an invalid string, count the filled cells, then run
   * `solveCell` on a copy of the grid. A returned grid is exactly what the
   * source's recursion returns; Unsolvable is returned exactly where the
   * recursion would never end.
   */
  method Solve(puzzleString: string) returns (result: SolveResult)
    ensures result == Invalid <==> !Validate(puzzleString)
    ensures Validate(puzzleString) && Empty !in puzzleString ==> result == Solved(puzzleString)
    ensures result.Solved? ==> IsCompletion(puzzleString, result.solution)
    ensures result.Solved? && Consistent(puzzleString) ==> Consistent(result.solution)
    ensures result.Solved? ==>
      exists n: nat :: Calls(SolveState(puzzleString, CountFilled(puzzleString), 0), n) == Return(result.solution)
    ensures result.Unsolvable? ==>
      IsStalledExtension(puzzleString, result.stuck) &&
      (Consistent(puzzleString) ==> Consistent(result.stuck)) &&
      forall n: nat :: Calls(SolveState(puzzleString, CountFilled(puzzleString), 0), n).Recurse?
    ensures result.Unsolvable? ==> exists n: nat ::
      Calls(SolveState(puzzleString, CountFilled(puzzleString), 0), n).Recurse? &&
      Calls(SolveState(puzzleString, CountFilled(puzzleString), 0), n).next.puzzle == result.stuck
  {
    if !Validate(puzzleString) {
      return Invalid;
    }
    var puzzle := new char[81](i requires 0 <= i < 81 => puzzleString[i]);
    assert puzzle[..] == puzzleString;
    var solvedCount := 0;
    for i := 0 to 81
      invariant solvedCount == CountFilled(puzzle[..i])
    {
      assert puzzle[..i + 1][..i] == puzzle[..i];
      if puzzle[i] != Empty {
        solvedCount := solvedCount + 1;
      }
    }
    assert puzzle[..81] == puzzle[..];
    result := SolveCell(puzzle, solvedCount);
    if result.Solved? && Empty !in puzzleString {
      ghost var n: nat :| Calls(SolveState(puzzleString, solvedCount, 0), n) == Return(result.solution);
      CallsSplit(SolveState(puzzleString, solvedCount, 0), 1, n - 1);
    }
  }

  /** A stalled grid: it keeps the givens, still has an empty cell, and no cell is forced. */
  predicate IsStalledExtension(puzzleString: string, stuck: string) {
    Extends(puzzleString, stuck) && |stuck| == 81 && Empty in stuck && Stuck(stuck)
  }
}

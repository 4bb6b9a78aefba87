/**
 * The decisions of the request middleware in middlewares/validators.js:
 * whether each one calls `next()` (passes) or answers the request itself
 * (rejects). The Express plumbing and the response texts are not modelled.
 */
module Validators {
  import opened Text
  import SudokuSolver

  /** What `requiredFields` does with a request: pass it on, or stop at a missing field. */
  datatype FieldCheck = Next | Missing(field: string)

  /** The list `requiredFields()` checks when called without an argument. */
  const DefaultFields: seq<string> := ["puzzle"]

  /**
   * `requiredFields(fields)`: walks `fields` in order and stops at the first
   * one that is not a key of the request body; passes when there is none.
   */
  function RequiredFields(fields: seq<string>, bodyKeys: set<string>): (r: FieldCheck)
    ensures r.Next? <==> forall i :: 0 <= i < |fields| ==> fields[i] in bodyKeys
    ensures r.Missing? ==> exists k :: 0 <= k < |fields| && fields[k] == r.field && FirstMissingAt(fields, bodyKeys, k)
  {
    if fields == [] then Next
    else if fields[0] !in bodyKeys then
      assert FirstMissingAt(fields, bodyKeys, 0);
      Missing(fields[0])
    else
      var r := RequiredFields(fields[1..], bodyKeys);
      assert forall i :: 1 <= i < |fields| ==> fields[i] == fields[1..][i - 1];
      if r.Missing? then
        var k :| 0 <= k < |fields[1..]| && fields[1..][k] == r.field && FirstMissingAt(fields[1..], bodyKeys, k);
        assert FirstMissingAt(fields, bodyKeys, k + 1);
        r
      else r
  }

  /** `fields[k]` is missing from the body and every field before it is present. */
  predicate FirstMissingAt(fields: seq<string>, bodyKeys: set<string>, k: int) {
    0 <= k < |fields| && fields[k] !in bodyKeys && forall j :: 0 <= j < k ==> fields[j] in bodyKeys
  }

  /** With the default list, the only check is that the body has a `puzzle` key. */
  lemma DefaultFieldsNeedPuzzle(bodyKeys: set<string>)
    ensures RequiredFields(DefaultFields, bodyKeys) == if "puzzle" in bodyKeys then Next else Missing("puzzle")
  {
  }

  /** The symbols `validatePuzzleString` lets through: the complement of `/[^.0-9]/`. */
  const PuzzleStringSymbols: string := ".0123456789"

  /**
   * `validatePuzzleString` on a string puzzle: rejects it when it has a
   * character other than '.' and '0'-'9', or when its length is not 81.
   */
  function ValidatePuzzleString(puzzle: string): (pass: bool)
    ensures pass <==> (|puzzle| == 81 &&
      forall i :: 0 <= i < |puzzle| ==> puzzle[i] == '.' || '0' <= puzzle[i] <= '9')
  {
    assert forall c :: c in PuzzleStringSymbols <==> c == '.' || '0' <= c <= '9' by {
      forall c | '0' <= c <= '9' ensures c in PuzzleStringSymbols {
        assert PuzzleStringSymbols[c as int - '0' as int + 1] == c;
      }
    }
    var containsInvalidCharacters := ContainsOutside(puzzle, PuzzleStringSymbols);
    var hasMissingCharacters := |puzzle| != 81;
    !(containsInvalidCharacters || hasMissingCharacters)
  }

  /**
   * The middleware and the solver's own `validate` disagree on exactly the
   * strings that contain '0': the middleware lets them through, `validate`
   * rejects them. On every other string they agree.
   */
  lemma PuzzleValidatorsDisagreeOnZero(puzzle: string)
    ensures SudokuSolver.Validate(puzzle) ==> ValidatePuzzleString(puzzle)
    ensures ValidatePuzzleString(puzzle) ==> (SudokuSolver.Validate(puzzle) <==> '0' !in puzzle)
  {
    if ValidatePuzzleString(puzzle) && '0' in puzzle {
      var i :| 0 <= i < |puzzle| && puzzle[i] == '0';
      assert !(puzzle[i] == SudokuSolver.Empty || SudokuSolver.IsDigit(puzzle[i]));
    }
  }

  /** The upper-case coordinate that names the cell at (row, column), e.g. "A2" for (0, 1). */
  function UpperCoordinate(row: int, column: int): (coord: string)
    requires 0 <= row < 9 && 0 <= column < 9
    ensures |coord| == 2 && 'A' <= coord[0] <= 'I' && SudokuSolver.IsDigit(coord[1])
    ensures coord[1] == SudokuSolver.Coordinate(row, column)[1]
    ensures coord[0] as int == SudokuSolver.Coordinate(row, column)[0] as int - ('a' as int - 'A' as int)
  {
    SudokuSolver.RowsAreConsecutive();
    var lower := SudokuSolver.Coordinate(row, column);
    [(lower[0] as int - ('a' as int - 'A' as int)) as char, lower[1]]
  }

  /** `coordinate` names the cell at (row, column), with its row letter in either case. */
  predicate NamesCell(coordinate: string, row: int, column: int)
    requires 0 <= row < 9 && 0 <= column < 9
  {
    coordinate == SudokuSolver.Coordinate(row, column) || coordinate == UpperCoordinate(row, column)
  }

  /**
   * `validateCoords` on a string coordinate: `/^[a-i][1-9]$/i`, a row letter
   * in either case followed by a digit 1-9, and nothing else.
   */
  function ValidateCoords(coordinate: string): (pass: bool)
    ensures pass <==> exists row, column :: 0 <= row < 9 && 0 <= column < 9 && NamesCell(coordinate, row, column)
  {
    var pass := |coordinate| == 2 &&
      ('a' <= coordinate[0] <= 'i' || 'A' <= coordinate[0] <= 'I') && '1' <= coordinate[1] <= '9';
    CoordsWitness(coordinate, pass);
    pass
  }

  lemma CoordsWitness(coordinate: string, pass: bool)
    requires pass == (|coordinate| == 2 &&
      ('a' <= coordinate[0] <= 'i' || 'A' <= coordinate[0] <= 'I') && '1' <= coordinate[1] <= '9')
    ensures pass <==> exists row, column :: 0 <= row < 9 && 0 <= column < 9 && NamesCell(coordinate, row, column)
  {
    SudokuSolver.RowsAreConsecutive();
    SudokuSolver.NumberValuesAreConsecutive();
    if pass {
      var upper := 'A' <= coordinate[0] <= 'I';
      var row := if upper then coordinate[0] as int - 'A' as int else coordinate[0] as int - 'a' as int;
      var column := coordinate[1] as int - '1' as int;
      var lower := SudokuSolver.Coordinate(row, column);
      if upper {
        assert coordinate == UpperCoordinate(row, column);
      } else {
        assert coordinate == lower;
      }
      assert NamesCell(coordinate, row, column);
    }
  }

  /**
   * `validateValue` on the value's string form: `/^[1-9]$/`, exactly one
   * digit 1-9 (so 900, whose string form is "900", is rejected).
   */
  function ValidateValue(value: string): (pass: bool)
    ensures pass <==> exists k :: 0 <= k < 9 && value == [SudokuSolver.NumberValues[k]]
  {
    SudokuSolver.NumberValuesAreConsecutive();
    var pass := |value| == 1 && '1' <= value[0] <= '9';
    if pass then
      assert value == [SudokuSolver.NumberValues[value[0] as int - '1' as int]];
      pass
    else pass
  }

  // ---------------------------------------------------------------------
  // The row letter after `validateCoords`
  // ---------------------------------------------------------------------

  /**
   * As written, the two core files disagree on upper-case row letters:
   * `validateCoords` accepts every upper-case coordinate, and `getIndexes`
   * then decodes its row as -1, outside the grid.
   */
  lemma GetIndexesMisreadsUpperCase(row: int, column: int)
    requires 0 <= row < 9 && 0 <= column < 9
    ensures ValidateCoords(UpperCoordinate(row, column))
    ensures SudokuSolver.GetIndexes(UpperCoordinate(row, column)).rowIndex == -1
  {
    assert NamesCell(UpperCoordinate(row, column), row, column);
    SudokuSolver.GetIndexesUpperCase(UpperCoordinate(row, column));
  }

  /** The row letter in lower case: 'A'-'I' become 'a'-'i', anything else is kept. */
  function LowerRowLetter(c: char): (l: char)
    ensures 'A' <= c <= 'I' ==> l as int == c as int + ('a' as int - 'A' as int)
    ensures !('A' <= c <= 'I') ==> l == c
  {
    if 'A' <= c <= 'I' then (c as int + ('a' as int - 'A' as int)) as char else c
  }

  /**
   * Coordinate decoding that agrees with `validateCoords`: the row letter is
   * read case-insensitively, then decoded as `getIndexes` decodes it.
   */
  function DecodeCoordinate(coordinate: string): (cell: Option<(int, int)>)
    ensures cell.Some? <==> ValidateCoords(coordinate)
    ensures cell.Some? ==> 0 <= cell.value.0 < 9 && 0 <= cell.value.1 < 9 &&
                           NamesCell(coordinate, cell.value.0, cell.value.1)
  {
    if !ValidateCoords(coordinate) then None
    else
      var ix := SudokuSolver.GetIndexes([LowerRowLetter(coordinate[0]), coordinate[1]]);
      DecodeCell(coordinate, ix);
      Some((ix.rowIndex, ix.columnIndex.value))
  }

  lemma DecodeCell(coordinate: string, ix: SudokuSolver.Indexes)
    requires |coordinate| == 2 && ('a' <= coordinate[0] <= 'i' || 'A' <= coordinate[0] <= 'I')
    requires '1' <= coordinate[1] <= '9'
    requires ix == SudokuSolver.GetIndexes([LowerRowLetter(coordinate[0]), coordinate[1]])
    ensures 0 <= ix.rowIndex < 9 && ix.columnIndex.Some? && 0 <= ix.columnIndex.value < 9
    ensures NamesCell(coordinate, ix.rowIndex, ix.columnIndex.value)
  {
    var row, column := LoweredCell(coordinate);
    SudokuSolver.GetIndexesRoundTrip(row, column);
  }

  /** The cell a well-formed coordinate names, and its spelling with a lower-case row letter. */
  lemma LoweredCell(coordinate: string) returns (row: int, column: int)
    requires |coordinate| == 2 && ('a' <= coordinate[0] <= 'i' || 'A' <= coordinate[0] <= 'I')
    requires '1' <= coordinate[1] <= '9'
    ensures 0 <= row < 9 && 0 <= column < 9 && NamesCell(coordinate, row, column)
    ensures [LowerRowLetter(coordinate[0]), coordinate[1]] == SudokuSolver.Coordinate(row, column)
  {
    SudokuSolver.RowsAreConsecutive();
    SudokuSolver.NumberValuesAreConsecutive();
    row := LowerRowLetter(coordinate[0]) as int - 'a' as int;
    column := coordinate[1] as int - '1' as int;
    if 'A' <= coordinate[0] <= 'I' {
      assert coordinate == UpperCoordinate(row, column);
    }
  }

  /** A coordinate names at most one cell. */
  lemma NamesCellUnique(coordinate: string, row: int, column: int, row': int, column': int)
    requires 0 <= row < 9 && 0 <= column < 9 && NamesCell(coordinate, row, column)
    requires 0 <= row' < 9 && 0 <= column' < 9 && NamesCell(coordinate, row', column')
    ensures row == row' && column == column'
  {
    SudokuSolver.RowsAreConsecutive();
    SudokuSolver.NumberValuesAreConsecutive();
  }

  /** Both spellings of every cell's coordinate decode to that cell. */
  lemma DecodeCoordinateRoundTrip(row: int, column: int)
    requires 0 <= row < 9 && 0 <= column < 9
    ensures DecodeCoordinate(SudokuSolver.Coordinate(row, column)) == Some((row, column))
    ensures DecodeCoordinate(UpperCoordinate(row, column)) == Some((row, column))
  {
    var lower, upper := SudokuSolver.Coordinate(row, column), UpperCoordinate(row, column);
    assert DecodeCoordinate(lower) == Some((row, column)) by {
      assert NamesCell(lower, row, column);
      var cell := DecodeCoordinate(lower);
      NamesCellUnique(lower, cell.value.0, cell.value.1, row, column);
    }
    assert DecodeCoordinate(upper) == Some((row, column)) by {
      assert NamesCell(upper, row, column);
      var cell := DecodeCoordinate(upper);
      NamesCellUnique(upper, cell.value.0, cell.value.1, row, column);
    }
  }
}

/**
 * The expectations of tests/1_unit-tests.js and tests/2_functional-tests.js
 * that concern the core, stated about the model. `Fixture` is a grid on
 * which every one of those expectations holds; the tests' own fixture file
 * (controllers/puzzle-strings.js) is not part of this model.
 */
module Examples {
  import opened SudokuSolver
  import Validators

  /** The fixture grid, row by row. */
  const FixtureRows: seq<string> := ["1.5..2.84", "..63.12.7", ".2..5....", ".9..1....", "8.2.3674.",
                                     "3.7.2..9.", "47...8..1", "..16....9", "26914.37."]

  const Fixture: string := seq(81, i requires 0 <= i < 81 => FixtureRows[i / 9][i % 9])

  /** Eighty dots followed by one more character. */
  function DotsThen(c: char): (s: string)
    ensures |s| == 81 && s[80] == c
  {
    seq(80, _ => '.') + [c]
  }

  lemma FixtureSymbols()
    ensures forall i :: 0 <= i < 81 ==> Fixture[i] == Empty || IsDigit(Fixture[i])
  {
    forall i | 0 <= i < 81 ensures Fixture[i] == Empty || IsDigit(Fixture[i]) {
      assert Fixture[i] == FixtureRows[i / 9][i % 9];
    }
  }

  /** `validate` accepts the fixture and rejects the unit tests' malformed strings. */
  lemma ValidateOnTestStrings()
    ensures Validate(Fixture)
    ensures !Validate(DotsThen('a')) && !Validate(DotsThen('0'))
    ensures !Validate(seq(8, _ => '.')) && !Validate(seq(82, _ => '.'))
  {
    FixtureSymbols();
  }

  /** A digit missing from a row of the fixture passes the row check anywhere in that row. */
  lemma RowAbsent(row: int, column: int, value: char)
    requires 0 <= row < 9 && 0 <= column < 9
    requires value !in FixtureRows[row]
    ensures CheckRowPlacement(Fixture, row, column, value)
  {
    forall j | 0 <= j < 81 && j / 9 == row ensures Fixture[j] != value {
      assert Fixture[j] == FixtureRows[row][j % 9];
    }
  }

  /** A digit missing from a column of the fixture passes the column check anywhere in that column. */
  lemma ColumnAbsent(row: int, column: int, value: char)
    requires 0 <= row < 9 && 0 <= column < 9
    requires forall r :: 0 <= r < 9 ==> FixtureRows[r][column] != value
    ensures CheckColPlacement(Fixture, row, column, value)
  {
    forall j | 0 <= j < 81 && j % 9 == column ensures Fixture[j] != value {
      assert Fixture[j] == FixtureRows[j / 9][column];
    }
  }

  /** A digit missing from the fixture's top-left box passes the region check in that box. */
  lemma TopLeftBoxAbsent(row: int, column: int, value: char)
    requires 0 <= row < 3 && 0 <= column < 3
    requires forall r, c :: 0 <= r < 3 && 0 <= c < 3 ==> FixtureRows[r][c] != value
    ensures CheckRegionPlacement(Fixture, row, column, value)
  {
    forall j | 0 <= j < 81 && j / 9 / 3 == 0 && j % 9 / 3 == 0 ensures Fixture[j] != value {
      assert Fixture[j] == FixtureRows[j / 9][j % 9];
    }
  }

  /** A box mate holding the digit fails the region check, unless the target itself holds it. */
  lemma RegionHolds(puzzle: seq<char>, row: int, column: int, value: char, j: int)
    requires |puzzle| == 81 && 0 <= row < 9 && 0 <= column < 9 && 0 <= j < 81
    requires j / 9 / 3 == row / 3 && j % 9 / 3 == column / 3
    requires puzzle[j] == value && puzzle[Cell(row, column)] != value
    ensures !CheckRegionPlacement(puzzle, row, column, value)
  {
  }

  /** The unit tests' row checks at (0, 1). */
  lemma RowChecksOnFixture()
    ensures CheckRowPlacement(Fixture, 0, 1, '3') && !CheckRowPlacement(Fixture, 0, 1, '8')
  {
    assert CheckRowPlacement(Fixture, 0, 1, '3') by { RowAbsent(0, 1, '3'); }
    assert !CheckRowPlacement(Fixture, 0, 1, '8') by { assert Fixture[7] == '8'; }
  }

  /** The unit tests' column checks at (0, 3). */
  lemma ColumnChecksOnFixture()
    ensures CheckColPlacement(Fixture, 0, 3, '8') && !CheckColPlacement(Fixture, 0, 3, '3')
  {
    assert CheckColPlacement(Fixture, 0, 3, '8') by { ColumnAbsent(0, 3, '8'); }
    assert !CheckColPlacement(Fixture, 0, 3, '3') by { assert Fixture[12] == '3'; }
  }

  /** The unit tests' region checks at (0, 1). */
  lemma RegionChecksOnFixture()
    ensures CheckRegionPlacement(Fixture, 0, 1, '3') && !CheckRegionPlacement(Fixture, 0, 1, '5')
  {
    assert CheckRegionPlacement(Fixture, 0, 1, '3') by { TopLeftBoxAbsent(0, 1, '3'); }
    assert !CheckRegionPlacement(Fixture, 0, 1, '5') by {
      assert Fixture[1] == '.' && Fixture[2] == '5';
      RegionHolds(Fixture, 0, 1, '5', 2);
    }
  }

  /** `/api/check` at a2 with 3: valid. */
  lemma CheckA2Three()
    ensures IsValidCellValue(Fixture, 0, 1, '3') == Placement(true, [])
  {
    assert CheckColPlacement(Fixture, 0, 1, '3') by { ColumnAbsent(0, 1, '3'); }
    assert CheckRowPlacement(Fixture, 0, 1, '3') by { RowAbsent(0, 1, '3'); }
    assert CheckRegionPlacement(Fixture, 0, 1, '3') by { TopLeftBoxAbsent(0, 1, '3'); }
  }

  /** `/api/check` at a2 with 9: a single conflict, the column. */
  lemma CheckA2Nine()
    ensures IsValidCellValue(Fixture, 0, 1, '9') == Placement(false, [Column])
  {
    assert !CheckColPlacement(Fixture, 0, 1, '9') by { assert Fixture[28] == '9'; }
    assert CheckRowPlacement(Fixture, 0, 1, '9') by { RowAbsent(0, 1, '9'); }
    assert CheckRegionPlacement(Fixture, 0, 1, '9') by { TopLeftBoxAbsent(0, 1, '9'); }
  }

  /**
   * `/api/check` at e6 with 6: the cell already holds 6, so its row and
   * column conflict with it while the region check exempts it.
   */
  lemma CheckE6Six()
    ensures IsValidCellValue(Fixture, 4, 5, '6') == Placement(false, [Column, Row])
  {
    assert Fixture[41] == '6';
  }

  /** `/api/check` at a2 with 2: all three conflicts. */
  lemma CheckA2Two()
    ensures IsValidCellValue(Fixture, 0, 1, '2') == Placement(false, [Column, Row, Region])
  {
    assert !CheckColPlacement(Fixture, 0, 1, '2') by { assert Fixture[19] == '2'; }
    assert !CheckRowPlacement(Fixture, 0, 1, '2') by { assert Fixture[5] == '2'; }
    assert !CheckRegionPlacement(Fixture, 0, 1, '2') by {
      assert Fixture[1] == '.' && Fixture[19] == '2';
      RegionHolds(Fixture, 0, 1, '2', 19);
    }
    AllChecksFail(Fixture, 0, 1, '2');
  }

  lemma AllChecksFail(puzzle: seq<char>, row: int, column: int, value: char)
    requires |puzzle| == 81 && 0 <= row < 9 && 0 <= column < 9
    requires !CheckColPlacement(puzzle, row, column, value) && !CheckRowPlacement(puzzle, row, column, value)
    requires !CheckRegionPlacement(puzzle, row, column, value)
    ensures IsValidCellValue(puzzle, row, column, value) == Placement(false, [Column, Row, Region])
  {
  }

  /** The middleware's answers on the functional tests' malformed requests. */
  lemma MiddlewareOnTestRequests()
    ensures !Validators.ValidatePuzzleString(Fixture[30 := 'x'])
    ensures !Validators.ValidatePuzzleString(Fixture[..80])
    ensures Validators.ValidateCoords("a2") && Validators.ValidateCoords("e6")
    ensures !Validators.ValidateCoords("z-1")
    ensures !Validators.ValidateValue("900") && Validators.ValidateValue("3")
  {
    assert Fixture[30 := 'x'][30] == 'x';
  }
}

/**
 The Sudoku engine: the constraint check, the first-empty-cell search, the
 in-place backtracking solver, the puzzle generator and the solution check,
 each working on a mutable 9x9 board and specified by the rules over board
 values.
 */
module SudokuLogic {
  import opened Wrappers
  import opened Grid
  import opened Rules
  import opened Completion
  import opened Verdict
  import opened Lodash

  /**
   `isSafe`: whether `num` may stand at (row, col), by scanning the row, the
   column and the 3x3 box and skipping the target cell itself. An empty
   candidate is always safe.
   */
  method IsSafe(grid: array2<Cell>, row: int, col: int, num: Cell) returns (safe: bool)
    requires Is9x9(grid) && InRange(row, col)
    ensures safe == Safe(Snapshot(grid), row, col, num)
    ensures num.Empty? ==> safe
  {
    ghost var b := Snapshot(grid);
    if num.Empty? {
      return true;
    }

    // The row.
    for x := 0 to GridSize
      invariant forall y :: 0 <= y < x && y != col ==> grid[row, y] != num
    {
      if grid[row, x] == num && x != col {
        assert Peer(row, col, row, x) && b[row][x] == num;
        return false;
      }
    }

    // The column.
    for x := 0 to GridSize
      invariant forall y :: 0 <= y < x && y != row ==> grid[y, col] != num
    {
      if grid[x, col] == num && x != row {
        assert Peer(row, col, x, col) && b[x][col] == num;
        return false;
      }
    }

    // The 3x3 box.
    var startRow := row - row % SubgridSize;
    var startCol := col - col % SubgridSize;
    assert startRow == 0 || startRow == 3 || startRow == 6;
    assert startCol == 0 || startCol == 3 || startCol == 6;
    for i := 0 to SubgridSize
      invariant forall r, c ::
        (startRow <= r < startRow + i && startCol <= c < startCol + SubgridSize && (r != row || c != col))
        ==> grid[r, c] != num
    {
      var r := i + startRow;
      for j := 0 to SubgridSize
        invariant forall r, c ::
          (startRow <= r < startRow + i && startCol <= c < startCol + SubgridSize && (r != row || c != col))
          ==> grid[r, c] != num
        invariant forall c :: startCol <= c < startCol + j && (r != row || c != col) ==> grid[r, c] != num
      {
        if grid[r, j + startCol] == num && (r != row || j + startCol != col) {
          BoxOriginOffset(startRow, i);
          BoxOriginOffset(startCol, j);
          assert Peer(row, col, r, j + startCol) && b[r][j + startCol] == num;
          return false;
        }
      }
    }

    assert forall r, c :: Peer(row, col, r, c) ==> b[r][c] != num;
    return true;
  }

  /**
   `findEmpty`: the first empty cell in row-major order, or `None` when the
   board has no empty cell.
   */
  method FindEmpty(grid: array2<Cell>) returns (pos: Option<(int, int)>)
    requires Is9x9(grid)
    ensures pos.None? <==> Full(Snapshot(grid))
    ensures pos.Some? ==>
      && InRange(pos.value.0, pos.value.1)
      && grid[pos.value.0, pos.value.1] == Empty
      && forall r, c :: InRange(r, c) && Before(r, c, pos.value.0, pos.value.1) ==> grid[r, c].Num?
  {
    for r := 0 to GridSize
      invariant forall r', c' :: 0 <= r' < r && 0 <= c' < GridSize ==> grid[r', c'].Num?
    {
      for c := 0 to GridSize
        invariant forall r', c' :: 0 <= r' < r && 0 <= c' < GridSize ==> grid[r', c'].Num?
        invariant forall c' :: 0 <= c' < c ==> grid[r, c'].Num?
      {
        if grid[r, c] == Empty {
          return Some((r, c));
        }
      }
    }
    return None;
  }

  /**
   `checkSolution`: scans `current` in row-major order, noting whether an
   empty cell has been seen and stopping at the first filled cell that
   differs from `solution`.
   */
  method CheckSolution(current: array2<Cell>, solution: array2<Cell>) returns (res: CheckResult)
    requires Is9x9(current) && Is9x9(solution)
    ensures res == Check(Snapshot(current), Snapshot(solution))
  {
    ghost var p, s := Snapshot(current), Snapshot(solution);
    var isComplete := true;
    for r := 0 to GridSize
      invariant Check(p, s) == CheckFrom(p, s, r, 0, isComplete)
    {
      for c := 0 to GridSize
        invariant Check(p, s) == CheckFrom(p, s, r, c, isComplete)
      {
        if current[r, c] == Empty {
          isComplete := false;
        }
        if current[r, c] != Empty && current[r, c] != solution[r, c] {
          return CheckResult(false, isComplete, Some((r, c)));
        }
      }
    }
    return CheckResult(true, isComplete, None);
  }

  /** The candidates `[1, 2, ..., 9]` that the solver shuffles at every empty cell. */
  const Candidates: seq<int> := seq(9, i => i + 1)

  /** A shuffle of the candidates holds exactly the digits 1..9. */
  lemma ShuffledDigits(numbers: seq<int>)
    requires multiset(numbers) == multiset(Candidates)
    ensures forall k :: 0 <= k < |numbers| ==> 1 <= numbers[k] <= 9
    ensures forall d :: 1 <= d <= 9 ==> d in numbers
  {
    CandidateDigits();
    forall k | 0 <= k < |numbers|
      ensures 1 <= numbers[k] <= 9
    {
      assert numbers[k] in multiset(numbers);
      assert numbers[k] in multiset(Candidates);
    }
    forall d | 1 <= d <= 9
      ensures d in numbers
    {
      assert d in Candidates;
      assert d in multiset(Candidates);
    }
  }

  /** The candidates are the digits 1..9. */
  lemma CandidateDigits()
    ensures forall x :: x in Candidates <==> 1 <= x <= 9
  {
    forall x
      ensures x in Candidates <==> 1 <= x <= 9
    {
      if 1 <= x <= 9 {
        assert Candidates[x - 1] == x;
      }
    }
  }

  /**
   Trying one more candidate at (r, c) without finding a completion extends
   the run of candidates ruled out.
   */
  lemma RuledOut(b: Board, r: int, c: int, numbers: seq<int>, k: int)
    requires IsBoard(b) && InRange(r, c) && 0 <= k < |numbers|
    requires forall j :: 0 <= j < k ==> !SolvableWith(b, r, c, numbers[j])
    requires !SolvableWith(b, r, c, numbers[k])
    ensures forall j :: 0 <= j < k + 1 ==> !SolvableWith(b, r, c, numbers[j])
  {
  }

  /**
   A completion of a board with (r, c) empty puts at (r, c) one of the
   entries of any list that holds all of 1..9.
   */
  lemma SolvableHasCandidate(b: Board, r: int, c: int, numbers: seq<int>)
    requires IsBoard(b) && InRange(r, c) && b[r][c].Empty?
    requires forall d :: 1 <= d <= 9 ==> d in numbers
    ensures Solvable(b) ==> exists j :: 0 <= j < |numbers| && SolvableWith(b, r, c, numbers[j])
  {
    if Solvable(b) {
      SolvableHasDigit(b, r, c);
      var d :| 1 <= d <= 9 && SolvableWith(b, r, c, d);
      assert d in numbers;
      var j :| 0 <= j < |numbers| && numbers[j] == d;
    }
  }

  /**
   When every entry of a list holding all of 1..9 has been ruled out at the
   empty cell (r, c), the board has no completion.
   */
  lemma NoCandidateUnsolvable(b: Board, r: int, c: int, numbers: seq<int>)
    requires IsBoard(b) && InRange(r, c) && b[r][c].Empty?
    requires forall d :: 1 <= d <= 9 ==> d in numbers
    requires forall j :: 0 <= j < |numbers| ==> !SolvableWith(b, r, c, numbers[j])
    ensures !Solvable(b)
  {
    SolvableHasCandidate(b, r, c, numbers);
  }

  /**
   A board whose cell (r, c) holds `v` and whose other cells are those of
   `b` is `b` with `v` placed, and its empty count differs from that of `b`
   by that one cell.
   */
  lemma WrittenCell(grid: array2<Cell>, b: Board, r: int, c: int, v: Cell)
    requires Is9x9(grid) && IsBoard(b) && InRange(r, c)
    requires grid[r, c] == v
    requires forall x, y :: InRange(x, y) && (x, y) != (r, c) ==> grid[x, y] == b[x][y]
    ensures Snapshot(grid) == Place(b, r, c, v)
    ensures EmptyCount(Snapshot(grid)) == EmptyCount(b) - EmptyWeight(b[r][c]) + EmptyWeight(v)
    ensures b[r][c] == v ==> Snapshot(grid) == b
  {
    BoardsEqual(Snapshot(grid), Place(b, r, c, v));
    EmptyCountPlace(b, r, c, v);
    if b[r][c] == v {
      BoardsEqual(b, Place(b, r, c, v));
    }
  }

  /**
   `solveSudokuFill`: fills the first empty cell with each safe candidate in
   shuffled order and recurses, clearing the cell again when the rest cannot
   be filled. It reports true exactly when the board has a completion, and
   then the board is one; on false the board is exactly as it was.
   */
  method SolveSudokuFill(grid: array2<Cell>, rng: RandomSource) returns (solved: bool)
    requires Is9x9(grid)
    modifies grid, rng
    ensures solved == Solvable(old(Snapshot(grid)))
    ensures solved ==> Completes(old(Snapshot(grid)), Snapshot(grid))
    ensures !solved ==> Snapshot(grid) == old(Snapshot(grid))
    decreases EmptyCount(Snapshot(grid))
  {
    ghost var b0 := Snapshot(grid);
    var find := FindEmpty(grid);
    if find.None? {
      FullIsSolvable(b0);
      return true;
    }
    var (r, c) := find.value;

    var numbers := rng.Shuffle(Candidates);
    ShuffledDigits(numbers);
    for k := 0 to |numbers|
      invariant Snapshot(grid) == b0
      invariant forall j :: 0 <= j < k ==> !SolvableWith(b0, r, c, numbers[j])
    {
      var num := numbers[k];
      var safe := IsSafe(grid, r, c, Num(num));
      if safe {
        grid[r, c] := Num(num);
        WrittenCell(grid, b0, r, c, Num(num));
        solved := SolveSudokuFill(grid, rng);
        if solved {
          PlaceThenComplete(b0, r, c, num, Snapshot(grid));
          return true;
        }
        grid[r, c] := Empty; // Backtrack
        WrittenCell(grid, b0, r, c, Empty);
      }
      SolvableWithIff(b0, r, c, num);
      RuledOut(b0, r, c, numbers, k);
    }
    NoCandidateUnsolvable(b0, r, c, numbers);
    return false;
  }

  /** `createEmptyGrid`: a fresh 9x9 board with every cell empty. */
  method CreateEmptyGrid() returns (grid: array2<Cell>)
    ensures fresh(grid) && Is9x9(grid)
    ensures forall r, c :: InRange(r, c) ==> grid[r, c] == Empty
  {
    grid := new Cell[GridSize, GridSize]((r, c) => Empty);
  }

  /** `_.cloneDeep` of a board: a fresh board with the same cells. */
  method CloneGrid(grid: array2<Cell>) returns (copy: array2<Cell>)
    requires Is9x9(grid)
    ensures fresh(copy) && Is9x9(copy)
    ensures Snapshot(copy) == Snapshot(grid)
  {
    copy := new Cell[GridSize, GridSize];
    for r := 0 to GridSize
      invariant forall r', c' :: 0 <= r' < r && 0 <= c' < GridSize ==> copy[r', c'] == grid[r', c']
    {
      for c := 0 to GridSize
        invariant forall r', c' :: 0 <= r' < r && 0 <= c' < GridSize ==> copy[r', c'] == grid[r', c']
        invariant forall c' :: 0 <= c' < c ==> copy[r, c'] == grid[r, c']
      {
        copy[r, c] := grid[r, c];
      }
    }
    BoardsEqual(Snapshot(copy), Snapshot(grid));
  }

  /**
   The inclusive range the number of cells to remove is drawn from, by
   difficulty band: up to 0.3, up to 0.6, and above.
   */
  function RemovalBand(difficultyLevel: real): (band: (int, int))
    ensures 40 <= band.0 <= band.1 <= 58
  {
    if difficultyLevel <= 0.3 then (40, 46)
    else if difficultyLevel <= 0.6 then (47, 53)
    else (54, 58)
  }

  /**
   A harder difficulty never draws from a lower band: both ends of the band
   grow with the difficulty level.
   */
  lemma RemovalBandMonotone(d1: real, d2: real)
    requires d1 <= d2
    ensures RemovalBand(d1).0 <= RemovalBand(d2).0 && RemovalBand(d1).1 <= RemovalBand(d2).1
  {
  }

  /**
   The presets the game offers (easy 0.2, medium 0.5, hard 0.7, expert 0.85)
   fall in the three bands, with hard and expert sharing the top band.
   */
  lemma PresetBands()
    ensures RemovalBand(0.2) == (40, 46)
    ensures RemovalBand(0.5) == (47, 53)
    ensures RemovalBand(0.7) == RemovalBand(0.85) == (54, 58)
  {
  }

  /** The attempt budget of the carving loop: twice the number of cells. */
  const Attempts: nat := GridSize * GridSize * 2

  /**
   The carving loop of `generateSudoku`: up to `Attempts` times, pick a
   random cell and clear it if it is filled, until `cellsToRemove` cells have
   been cleared. Cleared cells are counted; no filled cell changes value.
   */
  method RemoveCells(puzzle: array2<Cell>, cellsToRemove: int, rng: RandomSource)
    returns (removedCount: nat, attemptsUsed: nat)
    requires Is9x9(puzzle) && 0 <= cellsToRemove
    modifies puzzle, rng
    ensures removedCount <= cellsToRemove && removedCount <= attemptsUsed <= Attempts
    ensures removedCount < cellsToRemove ==> attemptsUsed == Attempts
    ensures Agrees(Snapshot(puzzle), old(Snapshot(puzzle)))
    ensures EmptyCount(Snapshot(puzzle)) == EmptyCount(old(Snapshot(puzzle))) + removedCount
  {
    ghost var b0 := Snapshot(puzzle);
    removedCount := 0;
    var i := 0;
    while i < Attempts && removedCount < cellsToRemove
      invariant 0 <= i <= Attempts && removedCount <= i && removedCount <= cellsToRemove
      invariant Agrees(Snapshot(puzzle), b0)
      invariant EmptyCount(Snapshot(puzzle)) == EmptyCount(b0) + removedCount
    {
      var r := rng.Random(0, GridSize - 1);
      var c := rng.Random(0, GridSize - 1);
      if puzzle[r, c] != Empty {
        ghost var before := Snapshot(puzzle);
        puzzle[r, c] := Empty;
        WrittenCell(puzzle, before, r, c, Empty);
        removedCount := removedCount + 1;
      }
      i := i + 1;
    }
    attemptsUsed := i;
  }

  /**
   `generateSudoku`: fills an empty board with the solver, copies it, and
   clears cells of the copy, their number drawn from the difficulty's band.
   The solution is a solved grid; the puzzle keeps its clues and so still
   has a solution; its empty cells are the cells the carving loop cleared,
   which is the drawn target unless the attempt budget ran out first. The
   drawn target and the loop's counters are returned as ghost outputs so
   that the contract can speak of them.
   */
  method GenerateSudoku(rng: RandomSource, difficultyLevel: real := 0.5)
    returns (puzzle: array2<Cell>, solution: array2<Cell>,
             ghost cellsToRemove: int, ghost removedCount: nat, ghost attemptsUsed: nat)
    modifies rng
    ensures fresh(puzzle) && fresh(solution) && puzzle != solution
    ensures Is9x9(puzzle) && Is9x9(solution)
    ensures Solved(Snapshot(solution))
    ensures Agrees(Snapshot(puzzle), Snapshot(solution))
    ensures Consistent(Snapshot(puzzle)) && Solvable(Snapshot(puzzle))
    ensures RemovalBand(difficultyLevel).0 <= cellsToRemove <= RemovalBand(difficultyLevel).1
    ensures removedCount <= cellsToRemove && removedCount <= attemptsUsed <= Attempts
    ensures removedCount < cellsToRemove ==> attemptsUsed == Attempts
    ensures EmptyCount(Snapshot(puzzle)) == removedCount
    ensures Check(Snapshot(puzzle), Snapshot(solution)).isCorrect
    ensures Check(Snapshot(solution), Snapshot(solution)) == CheckResult(true, true, None)
  {
    solution := CreateEmptyGrid();
    ghost var empty := Snapshot(solution);
    AllEmptySolvable(empty);
    var _ := SolveSudokuFill(solution, rng);
    ghost var s := Snapshot(solution);
    CompletionKeepsConsistent(empty, s);
    ExtensionKeepsDigits(empty, s);
    EmptyCountFull(s);

    puzzle := CloneGrid(solution);

    var (lo, hi) := RemovalBand(difficultyLevel);
    var target := rng.Random(lo, hi);
    var removed, attempts := RemoveCells(puzzle, target, rng);
    cellsToRemove, removedCount, attemptsUsed := target, removed, attempts;

    ghost var p := Snapshot(puzzle);
    assert Snapshot(solution) == s;
    AgreesPreservesConsistent(p, s);
    ExtensionKeepsDigits(p, s);
    SolvableIffSolution(p);
    CheckCorrectIffAgrees(p, s);
    CheckSelf(s);
  }

  /**
   `findSolutionForPuzzle`: solves a copy of the board, leaving the board
   itself untouched. The copy is returned exactly when the board has a
   completion, and it is one; for a board whose clues are digits without
   conflicts it is a solved grid.
   */
  method FindSolutionForPuzzle(grid: array2<Cell>, rng: RandomSource) returns (result: Option<array2<Cell>>)
    requires Is9x9(grid)
    modifies rng
    ensures Snapshot(grid) == old(Snapshot(grid))
    ensures result.Some? <==> Solvable(Snapshot(grid))
    ensures result.Some? ==>
      && fresh(result.value) && Is9x9(result.value)
      && Completes(Snapshot(grid), Snapshot(result.value))
      && (Consistent(Snapshot(grid)) && DigitsOnly(Snapshot(grid)) ==> Solved(Snapshot(result.value)))
  {
    var newGrid := CloneGrid(grid);
    var solved := SolveSudokuFill(newGrid, rng);
    if solved {
      if Consistent(Snapshot(grid)) && DigitsOnly(Snapshot(grid)) {
        CompletionKeepsConsistent(Snapshot(grid), Snapshot(newGrid));
        ExtensionKeepsDigits(Snapshot(grid), Snapshot(newGrid));
      }
      return Some(newGrid);
    }
    return None;
  }
}

# Sudoku engine — a verified Dafny model

This project models the Sudoku engine of a single-player Sudoku game
(`src/utils/sudokuLogic.ts`): the constraint check `isSafe`, the search for
the first empty cell `findEmpty`, the in-place randomised backtracking solver
`solveSudokuFill`, the puzzle generator `generateSudoku`, the copy-and-solve
helper `findSolutionForPuzzle`, the board check `checkSolution` and
`createEmptyGrid`, on the board type `(number | null)[][]` of
`src/components/Grid.tsx`.

Files and modules:

- `grid.dfy` (`Grid`): the 9x9 board. A cell is `Empty` (`null`) or `Num(n)`.
  The engine mutates boards in place, so they are `array2<Cell>`; the ghost
  function `Snapshot` gives a board's contents as a value of type `Board`
  (`seq<seq<Cell>>`), on which the rules are stated.
- `rules.dfy` (`Rules`): peers of a cell (same row, column or 3x3 box, origin
  `i - i % 3`), `Safe`, `Consistent` (no filled cell conflicts with a peer),
  `Full`, `Solved`, `Agrees` (every clue of one board holds in the other),
  `FillsWithDigits`, the count of empty cells, and the lemmas about them.
- `completion.dfy` (`Completion`): what "solvable" means for the solver. A
  completion of a board keeps its filled cells and fills every empty cell
  with a digit 1..9 that is safe in the finished board; a board is
  `Solvable` when it has one. The module proves the backtracking step
  (a completion with digit `d` at an empty cell exists exactly when `d` is
  safe there and the board with `d` placed is solvable), and exhibits a
  solved grid, so an empty board is solvable.
- `verdict.dfy` (`Verdict`): the report of `checkSolution` as a row-major scan
  over board values, and what the report means.
- `lodash.dfy` (`Lodash`): `_.shuffle` and `_.random`, as a class whose
  methods promise only a permutation and a value in the inclusive range.
- `sudoku_logic.dfy` (`SudokuLogic`): the engine's operations as methods on
  `array2<Cell>`, each proved against the rules.

The scanning operations (`IsSafe`, `FindEmpty`, `CheckSolution`) keep the
source's nested loops and early returns and are proved equal to the
specification functions. `SolveSudokuFill` writes and clears cells of the
array in place and recurses; its termination measure is the number of empty
cells. Its contract is the promise of its comment: it returns true exactly
when the board is solvable, and then the board is a completion of the one it
was given; on false the board is as it was. The solver checks each
candidate against the board as it stands and never checks the clues it was
given, so `Solvable` does not check them either: a full board whose clues
conflict is its own completion, and the solver returns true on it without
changing anything. For clues that are digits without conflicts,
`Completion.SolvableIffSolution` shows that solvable means what it means in
the game: some solved grid keeps every clue. Since an empty board is
solvable, the generator's solver call always succeeds, and the generated
solution is a solved grid.

## Model

| member | source | states |
|---|---|---|
| `SudokuLogic.IsSafe` | src/utils/sudokuLogic.ts:26-59 | the result is true exactly when no peer of (row, col) holds the candidate (the target cell itself skipped); an empty candidate is always safe |
| `Rules.SafeIgnoresTarget` | src/utils/sudokuLogic.ts:35-57 | what the target cell holds never changes whether a value is safe there |
| `Rules.DuplicateInRowUnsafe` | src/utils/sudokuLogic.ts:35-39 | two 5s in row 0 at columns 0 and 1 make 5 unsafe at (0, 0) |
| `Completion.PeerSymmetric` | src/utils/sudokuLogic.ts:35-57 | if one cell is a peer of another, the other is a peer of the first |
| `SudokuLogic.FindEmpty` | src/utils/sudokuLogic.ts:14-23 | returns an empty cell with every earlier row-major cell filled; returns none exactly when the board is full |
| `SudokuLogic.SolveSudokuFill` | src/utils/sudokuLogic.ts:62-84 | returns true exactly when the board on entry has a completion; on true the board is one (full, clues kept, every formerly empty cell a digit 1..9 safe in the final board); on false the board is exactly as on entry; terminates because each recursive call has one empty cell fewer |
| `SudokuLogic.ShuffledDigits` | src/utils/sudokuLogic.ts:71 | a shuffle of the candidates holds only digits 1..9, and every one of them |
| `SudokuLogic.CandidateDigits` | src/utils/sudokuLogic.ts:71 | the candidate list holds exactly the digits 1..9 |
| `SudokuLogic.SolvableHasCandidate` | src/utils/sudokuLogic.ts:71-75 | any completion puts at the first empty cell one of the shuffled candidates |
| `SudokuLogic.NoCandidateUnsolvable` | src/utils/sudokuLogic.ts:73-83 | when every shuffled candidate has been ruled out at the empty cell, the board has no completion, which is why the solver may return false |
| `SudokuLogic.WrittenCell` | src/utils/sudokuLogic.ts:76-80 | writing one cell gives the board with that cell placed, changes the empty count by that cell alone, and writing back a cell's old value restores the board |
| `Completion.FullIsSolvable` | src/utils/sudokuLogic.ts:65-68 | a full board is its own completion, so the solver's true on a full board is right |
| `Completion.PlaceThenComplete` | src/utils/sudokuLogic.ts:75-78 | a digit safe at an empty cell, followed by a completion of the board with it placed, completes the original board: the digit stays safe because every later placement was checked against it |
| `Completion.CompletionPlaces` | src/utils/sudokuLogic.ts:73-77 | any completion puts at an empty cell a digit that was already safe there, and completes the board with that digit placed |
| `Completion.SolvableWithIff` | src/utils/sudokuLogic.ts:73-82 | a completion with digit `d` at an empty cell exists exactly when `d` is safe there and the board with `d` placed is solvable |
| `Completion.SolvableHasDigit` | src/utils/sudokuLogic.ts:71-83 | a solvable board has a completion with some digit 1..9 at any given empty cell |
| `Completion.CompletionKeepsConsistent` | src/utils/sudokuLogic.ts:74-77 | completing a board whose clues do not conflict gives a board without conflicts |
| `Completion.SolvableIffSolution` | src/utils/sudokuLogic.ts:63 | for clues that are digits without conflicts, solvable holds exactly when some solved grid keeps every clue |
| `Completion.PatternGridSolved` | src/utils/sudokuLogic.ts:93-94 | a fixed grid (row shifts 0, 3, 6, 1, 4, 7, 2, 5, 8) is a solved grid |
| `Completion.AllEmptySolvable` | src/utils/sudokuLogic.ts:93-94 | a board with every cell empty is solvable, so filling the empty grid succeeds |
| `Rules.EmptyCountPlace` | src/utils/sudokuLogic.ts:76-80 | filling an empty cell lowers the empty count by one, clearing a filled cell raises it by one |
| `Rules.EmptyCountFull` | src/utils/sudokuLogic.ts:65-68 | the empty count is zero exactly when the board is full, and never exceeds 81 |
| `Rules.UnitDistinct` | src/utils/sudokuLogic.ts:35-57 | nine mutually peer cells of a solved grid hold nine different values |
| `Rules.UnitHoldsAllDigits` | src/utils/sudokuLogic.ts:35-57 | nine mutually peer cells of a solved grid hold every digit 1..9 |
| `Rules.SolvedRow` | src/utils/sudokuLogic.ts:35-39 | in a full, consistent grid of digits each row holds every digit 1..9 exactly once |
| `Rules.SolvedColumn` | src/utils/sudokuLogic.ts:42-46 | in a full, consistent grid of digits each column holds every digit 1..9 exactly once |
| `Rules.SolvedBox` | src/utils/sudokuLogic.ts:49-57 | in a full, consistent grid of digits each 3x3 box holds every digit 1..9 |
| `Rules.NineDistinctDigits` | src/utils/sudokuLogic.ts:35-57 | nine pairwise different digits 1..9 include every digit |
| `SudokuLogic.GenerateSudoku` | src/utils/sudokuLogic.ts:92-140 | with difficulty 0.5 by default: the solution is a solved grid; every clue of the puzzle equals the solution's cell, so the puzzle is consistent and solvable; the drawn target lies in the difficulty's band; the puzzle's empty cells number exactly the cells cleared, which is the target unless all 162 attempts were spent; the check of the puzzle against the solution reports correct, and of the solution against itself correct and complete |
| `SudokuLogic.RemovalBand` | src/utils/sudokuLogic.ts:107-114 | the removal range is non-empty and lies within [40, 58] |
| `SudokuLogic.RemovalBandMonotone` | src/utils/sudokuLogic.ts:107-114 | a higher difficulty never gives a lower band, at either end |
| `SudokuLogic.PresetBands` | src/App.tsx:13-18 | easy draws from [40, 46], medium from [47, 53], hard and expert both from [54, 58] |
| `SudokuLogic.RemoveCells` | src/utils/sudokuLogic.ts:117-138 | the number of cleared cells is `removedCount`, never above the target; at most 162 attempts; stopping short of the target means the budget was spent; no filled cell changes value |
| `Rules.AgreesPreservesConsistent` | src/utils/sudokuLogic.ts:124-125 | clearing cells of a consistent grid cannot create a conflict |
| `SudokuLogic.CloneGrid` | src/utils/sudokuLogic.ts:96 | the copy is a fresh board with the same cells |
| `SudokuLogic.CreateEmptyGrid` | src/utils/sudokuLogic.ts:174-176 | a fresh 9x9 board with every cell empty |
| `SudokuLogic.FindSolutionForPuzzle` | src/utils/sudokuLogic.ts:143-149 | the argument is left unchanged; a board is returned exactly when the argument is solvable, and it is a fresh completion of the argument, a solved grid when the clues are digits without conflicts; `None` means no completion exists |
| `Rules.ExtensionKeepsDigits` | src/utils/sudokuLogic.ts:143-149 | extending a board of digits with digits gives a board of digits |
| `SudokuLogic.CheckSolution` | src/utils/sudokuLogic.ts:152-171 | the nested scan returns exactly the report of the row-major specification `Check` |
| `Verdict.CheckFromSound` | src/utils/sudokuLogic.ts:157-170 | the scan from any cell on reports the first mismatch after it, or none with every later cell matching, and completeness of what it scanned |
| `Verdict.CheckFirstError` | src/utils/sudokuLogic.ts:163-165 | a reported error cell is filled and differs from the solution, every earlier cell is empty or matches, and completeness means no earlier cell is empty |
| `Verdict.CheckNoError` | src/utils/sudokuLogic.ts:168-170 | with no error reported the board is correct, every filled cell matches, and it is complete exactly when full |
| `Verdict.CheckCorrectIffAgrees` | src/utils/sudokuLogic.ts:152-171 | correct exactly when every filled cell matches the solution, and exactly when no error is reported |
| `Verdict.CheckReportsFirstMismatch` | src/utils/sudokuLogic.ts:163-165 | a mismatching filled cell with no earlier mismatch is the one reported |
| `Verdict.CheckSelf` | src/utils/sudokuLogic.ts:152-171 | a full board checked against itself is correct and complete with no error |
| `Lodash.RandomSource.Shuffle` | src/utils/sudokuLogic.ts:9-11 | the shuffle is a permutation of its input |
| `Lodash.RandomSource.Random` | src/utils/sudokuLogic.ts:121-122 | the drawn value lies in the inclusive range |

## Left out

- Randomness: `_.shuffle` and `_.random` are modelled only by their contracts (a permutation; a value in the inclusive range). The bodies of `Lodash.RandomSource` are a deterministic stand-in, and no proof depends on them; the distribution of lodash's generator is not modelled.
- Floating point: the difficulty level is a `real`, compared with the literals 0.3 and 0.6 exactly as the source compares doubles with those literals.
- Dynamic typing: boards are exactly 9x9 and indices lie in 0..8 by `requires`, as the engine's callers guarantee; cells hold integers. Non-integer numbers, ragged rows and out-of-range indices are not modelled.
- Clue validation: the solver and `findSolutionForPuzzle` never check the clues they are given, and neither does `Completion.Solvable`; a board with conflicting clues and safely fillable empty cells counts as solvable, as the code treats it.
- Puzzle uniqueness: the generator does not check it (the check is commented out in the source), so nothing is stated about unique solutions.
- Argument order of `generateSudoku`: the random source comes first in `SudokuLogic.GenerateSudoku`, so that the difficulty keeps its default of 0.5 as the trailing argument.
- The user interface in `src/App.tsx` and `src/components/`: React state, the timer, `formatTime`, messages and rendering. The whole-board conflict highlighting calls `isSafe` on every filled cell; `Rules.Consistent` is exactly "that scan finds no conflict", but the scan is not modelled as a separate operation. Hint selection is not modelled.

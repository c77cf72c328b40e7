/**
 What it means for a board to be solvable, in the terms of the backtracking
 solver: a completion of a board fills every empty cell with a digit so that
 each filled-in digit is safe in the finished board, and leaves the given
 cells as they are. The given cells themselves are not checked, as the solver
 does not check them.
 */
module Completion {
  import opened Grid
  import opened Rules

  /** Every cell that is empty in `before` is safe, with what it holds, in `after`. */
  ghost predicate FillsSafely(before: Board, after: Board)
    requires IsBoard(before) && IsBoard(after)
  {
    forall r, c :: InRange(r, c) && before[r][c].Empty? ==> Safe(after, r, c, after[r][c])
  }

  /** `s` completes `b`: it is full, keeps the given cells, and fills the empty ones safely with digits. */
  ghost predicate Completes(b: Board, s: Board)
    requires IsBoard(b) && IsBoard(s)
  {
    Full(s) && Agrees(b, s) && FillsWithDigits(b, s) && FillsSafely(b, s)
  }

  /** Some board completes `b`. */
  ghost predicate Solvable(b: Board)
    requires IsBoard(b)
  {
    exists s :: IsBoard(s) && Completes(b, s)
  }

  /** Some board completes `b` with digit `d` at (r, c). */
  ghost predicate SolvableWith(b: Board, r: int, c: int, d: int)
    requires IsBoard(b) && InRange(r, c)
  {
    exists s :: IsBoard(s) && Completes(b, s) && s[r][c] == Num(d)
  }

  /** Being a peer is symmetric. */
  lemma PeerSymmetric(row: int, col: int, r: int, c: int)
    requires InRange(row, col) && Peer(row, col, r, c)
    ensures Peer(r, c, row, col)
  {
  }

  /** A full board is its own completion. */
  lemma FullIsSolvable(b: Board)
    requires IsBoard(b) && Full(b)
    ensures Completes(b, b) && Solvable(b)
  {
    assert Completes(b, b);
  }

  /**
   Filling an empty cell with a digit that is safe there, and then completing
   the result, completes the original board: the digit stays safe, because
   every cell filled after it was checked against a board that held it.
   */
  lemma PlaceThenComplete(b: Board, r: int, c: int, d: int, s: Board)
    requires IsBoard(b) && IsBoard(s) && InRange(r, c)
    requires b[r][c].Empty? && 1 <= d <= 9 && Safe(b, r, c, Num(d))
    requires Completes(Place(b, r, c, Num(d)), s)
    ensures Completes(b, s)
  {
    var b1 := Place(b, r, c, Num(d));
    assert Matches(b1, s, r, c);
    forall x, y | Peer(r, c, x, y)
      ensures s[x][y] != Num(d)
    {
      if b[x][y].Empty? {
        assert Safe(s, x, y, s[x][y]);
        PeerSymmetric(r, c, x, y);
      } else {
        assert Matches(b1, s, x, y);
      }
    }
  }

  /**
   A completion of a board with (r, c) empty puts a digit at (r, c) that was
   safe there already, and it completes the board with that digit placed.
   */
  lemma CompletionPlaces(b: Board, r: int, c: int, s: Board)
    requires IsBoard(b) && IsBoard(s) && InRange(r, c)
    requires b[r][c].Empty? && Completes(b, s)
    ensures s[r][c].Num? && 1 <= s[r][c].n <= 9 && Safe(b, r, c, s[r][c])
    ensures Completes(Place(b, r, c, s[r][c]), s)
  {
    assert Safe(s, r, c, s[r][c]);
    forall x, y | Peer(r, c, x, y)
      ensures b[x][y] != s[r][c]
    {
      assert Matches(b, s, x, y);
    }
  }

  /**
   The backtracking step: a completion with digit `d` at the empty cell
   (r, c) exists exactly when `d` is safe there and the board with `d`
   placed is solvable.
   */
  lemma SolvableWithIff(b: Board, r: int, c: int, d: int)
    requires IsBoard(b) && InRange(r, c) && b[r][c].Empty? && 1 <= d <= 9
    ensures SolvableWith(b, r, c, d) <==> Safe(b, r, c, Num(d)) && Solvable(Place(b, r, c, Num(d)))
  {
    if SolvableWith(b, r, c, d) {
      var s: Board :| IsBoard(s) && Completes(b, s) && s[r][c] == Num(d);
      CompletionPlaces(b, r, c, s);
    }
    if Safe(b, r, c, Num(d)) && Solvable(Place(b, r, c, Num(d))) {
      var s: Board :| IsBoard(s) && Completes(Place(b, r, c, Num(d)), s);
      PlaceThenComplete(b, r, c, d, s);
      assert Matches(Place(b, r, c, Num(d)), s, r, c);
    }
  }

  /** A solvable board with (r, c) empty has a completion with some digit at (r, c). */
  lemma SolvableHasDigit(b: Board, r: int, c: int)
    requires IsBoard(b) && InRange(r, c) && b[r][c].Empty? && Solvable(b)
    ensures exists d :: 1 <= d <= 9 && SolvableWith(b, r, c, d)
  {
    var s: Board :| IsBoard(s) && Completes(b, s);
    CompletionPlaces(b, r, c, s);
    assert SolvableWith(b, r, c, s[r][c].n);
  }

  /** Completing a consistent board gives a consistent board. */
  lemma CompletionKeepsConsistent(b: Board, s: Board)
    requires IsBoard(b) && IsBoard(s)
    requires Consistent(b) && Completes(b, s)
    ensures Consistent(s)
  {
    forall r, c | InRange(r, c) && b[r][c].Num?
      ensures Safe(s, r, c, s[r][c])
    {
      assert Matches(b, s, r, c);
      forall x, y | Peer(r, c, x, y)
        ensures s[x][y] != s[r][c]
      {
        if b[x][y].Empty? {
          assert Safe(s, x, y, s[x][y]);
          PeerSymmetric(r, c, x, y);
        } else {
          assert Matches(b, s, x, y);
        }
      }
    }
  }

  /**
   For a board whose clues are digits and do not conflict, solvable means
   what it means in the game: some solved grid keeps all of its clues.
   */
  lemma SolvableIffSolution(b: Board)
    requires IsBoard(b) && Consistent(b) && DigitsOnly(b)
    ensures Solvable(b) <==> exists s :: IsBoard(s) && Solved(s) && Agrees(b, s)
  {
    if Solvable(b) {
      var s: Board :| IsBoard(s) && Completes(b, s);
      CompletionKeepsConsistent(b, s);
      ExtensionKeepsDigits(b, s);
      assert Solved(s) && Agrees(b, s);
    }
    if exists s :: IsBoard(s) && Solved(s) && Agrees(b, s) {
      var s: Board :| IsBoard(s) && Solved(s) && Agrees(b, s);
      assert Completes(b, s);
    }
  }

  /** Row shift of the pattern grid: rows 0..8 start at 0, 3, 6, 1, 4, 7, 2, 5, 8. */
  function PatternShift(r: int): int {
    3 * (r % SubgridSize) + r / SubgridSize
  }

  /** A fixed solved grid, the witness that an empty board can be completed. */
  function PatternGrid(): (g: Board)
    ensures IsBoard(g)
  {
    seq(GridSize, r => seq(GridSize, c => Num((PatternShift(r) + c) % GridSize + 1)))
  }

  /** Two naturals less than 9 apart have the same remainder mod 9 only when equal. */
  lemma ModNineDistinct(a: int, b: int)
    requires 0 <= a && 0 <= b && a != b && -9 < a - b < 9
    ensures a % 9 != b % 9
  {
  }

  /** Two different cells of the pattern grid that are peers hold different digits. */
  lemma PatternPeersDiffer(r: int, c: int, x: int, y: int)
    requires InRange(r, c) && Peer(r, c, x, y)
    ensures (PatternShift(r) + c) % GridSize != (PatternShift(x) + y) % GridSize
  {
    var qr, mr, qx, mx := r / 3, r % 3, x / 3, x % 3;
    var qc, mc, qy, my := c / 3, c % 3, y / 3, y % 3;
    assert r == 3 * qr + mr && x == 3 * qx + mx && c == 3 * qc + mc && y == 3 * qy + my;
    assert PatternShift(r) == 3 * mr + qr && PatternShift(x) == 3 * mx + qx;
    if r != x && c != y {
      assert qr == qx && qc == qy;
    }
    ModNineDistinct(PatternShift(r) + c, PatternShift(x) + y);
  }

  /** The pattern grid is full, holds only digits, and no two peers share a digit. */
  lemma PatternGridSolved()
    ensures Solved(PatternGrid())
  {
    var g := PatternGrid();
    forall r, c, x, y | InRange(r, c) && Peer(r, c, x, y)
      ensures g[x][y] != g[r][c]
    {
      PatternPeersDiffer(r, c, x, y);
    }
  }

  /** A board with every cell empty is solvable. */
  lemma AllEmptySolvable(b: Board)
    requires IsBoard(b)
    requires forall r, c :: InRange(r, c) ==> b[r][c].Empty?
    ensures Solvable(b)
  {
    PatternGridSolved();
    assert Completes(b, PatternGrid());
  }
}

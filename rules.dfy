/**
 The rules of Sudoku over board values: which cells constrain one another,
 when a value may stand in a cell, and the relations between boards that the
 engine's operations establish (a solution extends a puzzle, a board is full,
 the count of empty cells).
 */
module Rules {
  import opened Grid

  /** First row (or column) of the box that row (or column) `i` lies in. */
  function BoxOrigin(i: int): int {
    i - i % SubgridSize
  }

  /**
   Cell (r, c) is a peer of the target (row, col): a different cell in the
   same row, the same column or the same 3x3 box.
   */
  predicate Peer(row: int, col: int, r: int, c: int) {
    && InRange(r, c)
    && (r != row || c != col)
    && (r == row || c == col || (BoxOrigin(r) == BoxOrigin(row) && BoxOrigin(c) == BoxOrigin(col)))
  }

  /**
   `v` may stand at (row, col): an empty value always may, a number may when
   no peer holds it. The target cell's own content plays no part.
   */
  ghost predicate Safe(b: Board, row: int, col: int, v: Cell)
    requires IsBoard(b) && InRange(row, col)
  {
    v.Empty? || forall r, c :: Peer(row, col, r, c) ==> b[r][c] != v
  }

  /** No filled cell conflicts with a peer: every filled cell is safe where it stands. */
  ghost predicate Consistent(b: Board)
    requires IsBoard(b)
  {
    forall r, c :: InRange(r, c) ==> Safe(b, r, c, b[r][c])
  }

  /** No cell is empty. */
  ghost predicate Full(b: Board)
    requires IsBoard(b)
  {
    forall r, c :: InRange(r, c) ==> b[r][c].Num?
  }

  /** Every filled cell holds one of the digits 1..9. */
  ghost predicate DigitsOnly(b: Board)
    requires IsBoard(b)
  {
    forall r, c :: InRange(r, c) && b[r][c].Num? ==> 1 <= b[r][c].n <= 9
  }

  /** A completed, valid Sudoku grid. */
  ghost predicate Solved(b: Board)
    requires IsBoard(b)
  {
    Full(b) && Consistent(b) && DigitsOnly(b)
  }

  /** Cell (r, c) of `p` is empty or equals the same cell of `s`. */
  predicate Matches(p: Board, s: Board, r: int, c: int)
    requires IsBoard(p) && IsBoard(s) && InRange(r, c)
  {
    p[r][c].Empty? || p[r][c] == s[r][c]
  }

  /** Every filled cell of `p` holds the value `s` has there (`s` extends `p`). */
  ghost predicate Agrees(p: Board, s: Board)
    requires IsBoard(p) && IsBoard(s)
  {
    forall r, c :: InRange(r, c) ==> Matches(p, s, r, c)
  }

  /** Every cell that is empty in `before` and filled in `after` holds a digit 1..9. */
  ghost predicate FillsWithDigits(before: Board, after: Board)
    requires IsBoard(before) && IsBoard(after)
  {
    forall r, c :: InRange(r, c) && before[r][c].Empty? && after[r][c].Num? ==> 1 <= after[r][c].n <= 9
  }

  /** (r1, c1) comes strictly before (r2, c2) in row-major order. */
  predicate Before(r1: int, c1: int, r2: int, c2: int) {
    r1 < r2 || (r1 == r2 && c1 < c2)
  }

  function CountEmpty(row: seq<Cell>): (n: nat)
    ensures n <= |row|
  {
    if row == [] then 0 else (if row[0].Empty? then 1 else 0) + CountEmpty(row[1..])
  }

  function CountEmptyRows(rows: seq<seq<Cell>>): nat {
    if rows == [] then 0 else CountEmpty(rows[0]) + CountEmptyRows(rows[1..])
  }

  /** The number of empty cells of a board. */
  function EmptyCount(b: Board): nat
    requires IsBoard(b)
  {
    CountEmptyRows(b)
  }

  /** Empty cells of a board, 1 for an empty value and 0 for a number. */
  function EmptyWeight(v: Cell): nat {
    if v.Empty? then 1 else 0
  }

  lemma {:induction false} CountEmptyUpdate(row: seq<Cell>, c: int, v: Cell)
    requires 0 <= c < |row|
    ensures CountEmpty(row[c := v]) == CountEmpty(row) - EmptyWeight(row[c]) + EmptyWeight(v)
  {
    if c > 0 {
      CountEmptyUpdate(row[1..], c - 1, v);
      assert row[c := v][1..] == row[1..][c - 1 := v];
    } else {
      assert row[c := v][1..] == row[1..];
    }
  }

  lemma {:induction false} CountEmptyRowsUpdate(rows: seq<seq<Cell>>, r: int, row: seq<Cell>)
    requires 0 <= r < |rows|
    ensures CountEmptyRows(rows[r := row]) == CountEmptyRows(rows) - CountEmpty(rows[r]) + CountEmpty(row)
  {
    if r > 0 {
      CountEmptyRowsUpdate(rows[1..], r - 1, row);
      assert rows[r := row][1..] == rows[1..][r - 1 := row];
    } else {
      assert rows[r := row][1..] == rows[1..];
    }
  }

  /**
   Writing `v` into cell (r, c) changes the number of empty cells by what
   leaves the cell and what enters it: filling an empty cell removes one,
   clearing a filled cell adds one.
   */
  lemma EmptyCountPlace(b: Board, r: int, c: int, v: Cell)
    requires IsBoard(b) && InRange(r, c)
    ensures EmptyCount(Place(b, r, c, v)) == EmptyCount(b) - EmptyWeight(b[r][c]) + EmptyWeight(v)
  {
    CountEmptyUpdate(b[r], c, v);
    CountEmptyRowsUpdate(b, r, b[r][c := v]);
  }

  lemma {:induction false} CountEmptyZero(row: seq<Cell>)
    ensures CountEmpty(row) == 0 <==> forall c :: 0 <= c < |row| ==> row[c].Num?
  {
    if row != [] {
      CountEmptyZero(row[1..]);
      assert forall c :: 1 <= c < |row| ==> row[c] == row[1..][c - 1];
    }
  }

  lemma {:induction false} CountEmptyRowsZero(rows: seq<seq<Cell>>)
    ensures CountEmptyRows(rows) == 0 <==> forall r :: 0 <= r < |rows| ==> CountEmpty(rows[r]) == 0
  {
    if rows != [] {
      CountEmptyRowsZero(rows[1..]);
      assert forall r :: 1 <= r < |rows| ==> rows[r] == rows[1..][r - 1];
    }
  }

  lemma {:induction false} CountEmptyRowsBound(rows: seq<seq<Cell>>, width: nat)
    requires forall r :: 0 <= r < |rows| ==> |rows[r]| == width
    ensures CountEmptyRows(rows) <= |rows| * width
  {
    if rows != [] {
      CountEmptyRowsBound(rows[1..], width);
      assert |rows| * width == width + |rows[1..]| * width;
    }
  }

  /** A board has no empty cell exactly when its empty count is zero, and never more than 81. */
  lemma EmptyCountFull(b: Board)
    requires IsBoard(b)
    ensures EmptyCount(b) == 0 <==> Full(b)
    ensures EmptyCount(b) <= GridSize * GridSize
  {
    CountEmptyRowsZero(b);
    CountEmptyRowsBound(b, GridSize);
    forall r | 0 <= r < GridSize
      ensures CountEmpty(b[r]) == 0 <==> forall c :: 0 <= c < GridSize ==> b[r][c].Num?
    {
      CountEmptyZero(b[r]);
    }
  }

  /**
   The safety of a value at (r, c) does not depend on what (r, c) itself
   holds: the check skips the target cell.
   */
  lemma SafeIgnoresTarget(b: Board, r: int, c: int, x: Cell, v: Cell)
    requires IsBoard(b) && InRange(r, c)
    ensures Safe(Place(b, r, c, x), r, c, v) <==> Safe(b, r, c, v)
  {
  }

  /** Two 5s in row 0, at columns 0 and 1, make 5 unsafe at (0, 0). */
  lemma DuplicateInRowUnsafe(b: Board)
    requires IsBoard(b) && b[0][0] == Num(5) && b[0][1] == Num(5)
    ensures !Safe(b, 0, 0, Num(5))
  {
  }

  /**
   A board whose filled cells all appear, with the same values, in a
   consistent board is itself consistent: carving clues out of a valid grid
   cannot create a conflict.
   */
  lemma AgreesPreservesConsistent(p: Board, s: Board)
    requires IsBoard(p) && IsBoard(s)
    requires Agrees(p, s) && Consistent(s)
    ensures Consistent(p)
  {
  }

  lemma {:induction false} DistinctSetSize(xs: seq<int>)
    requires forall i, j :: 0 <= i < j < |xs| ==> xs[i] != xs[j]
    ensures |set x | x in xs| == |xs|
  {
    if xs != [] {
      DistinctSetSize(xs[1..]);
      assert (set x | x in xs) == (set x | x in xs[1..]) + {xs[0]};
    }
  }

  /** Nine distinct digits 1..9 include every digit (pigeonhole). */
  lemma NineDistinctDigits(xs: seq<int>)
    requires |xs| == 9
    requires forall i :: 0 <= i < 9 ==> 1 <= xs[i] <= 9
    requires forall i, j :: 0 <= i < j < 9 ==> xs[i] != xs[j]
    ensures forall d :: 1 <= d <= 9 ==> d in xs
  {
    DistinctSetSize(xs);
    var seen := set x | x in xs;
    forall d | 1 <= d <= 9
      ensures d in xs
    {
      if d !in xs {
        var others := {1, 2, 3, 4, 5, 6, 7, 8, 9} - {d};
        assert seen <= others;
        assert |others| == 8;
        SubsetSize(seen, others);
      }
    }
  }

  lemma SubsetSize(a: set<int>, b: set<int>)
    requires a <= b
    ensures |a| <= |b|
  {
    assert b == a + (b - a);
  }

  /** Nine cells that are pairwise peers hold nine different values in a solved grid. */
  lemma UnitDistinct(b: Board, unit: seq<(int, int)>)
    requires IsBoard(b) && Solved(b)
    requires |unit| == 9
    requires forall i :: 0 <= i < 9 ==> InRange(unit[i].0, unit[i].1)
    requires forall i, j :: 0 <= i < j < 9 ==> Peer(unit[i].0, unit[i].1, unit[j].0, unit[j].1)
    ensures forall i, j :: 0 <= i < j < 9 ==> b[unit[i].0][unit[i].1] != b[unit[j].0][unit[j].1]
  {
    forall i, j | 0 <= i < j < 9
      ensures b[unit[i].0][unit[i].1] != b[unit[j].0][unit[j].1]
    {
      assert Safe(b, unit[i].0, unit[i].1, b[unit[i].0][unit[i].1]);
    }
  }

  /**
   Nine cells that are pairwise peers (a row, a column or a box) hold, in a
   solved grid, all of the digits 1..9.
   */
  lemma UnitHoldsAllDigits(b: Board, unit: seq<(int, int)>)
    requires IsBoard(b) && Solved(b)
    requires |unit| == 9
    requires forall i :: 0 <= i < 9 ==> InRange(unit[i].0, unit[i].1)
    requires forall i, j :: 0 <= i < j < 9 ==> Peer(unit[i].0, unit[i].1, unit[j].0, unit[j].1)
    ensures forall d :: 1 <= d <= 9 ==> exists i :: 0 <= i < 9 && b[unit[i].0][unit[i].1] == Num(d)
  {
    UnitDistinct(b, unit);
    var xs := seq(9, i requires 0 <= i < 9 => b[unit[i].0][unit[i].1].n);
    assert forall i :: 0 <= i < 9 ==> b[unit[i].0][unit[i].1] == Num(xs[i]);
    NineDistinctDigits(xs);
    forall d | 1 <= d <= 9
      ensures exists i :: 0 <= i < 9 && b[unit[i].0][unit[i].1] == Num(d)
    {
      assert d in xs;
      var i :| 0 <= i < 9 && xs[i] == d;
    }
  }

  /** In a solved grid every row holds each digit 1..9 exactly once. */
  lemma SolvedRow(b: Board, r: int, d: int)
    requires IsBoard(b) && Solved(b) && 0 <= r < GridSize && 1 <= d <= 9
    ensures exists c :: 0 <= c < GridSize && b[r][c] == Num(d)
    ensures forall c1, c2 :: 0 <= c1 < c2 < GridSize ==> b[r][c1] != b[r][c2]
  {
    var unit := seq(9, c requires 0 <= c < 9 => (r, c));
    UnitDistinct(b, unit);
    UnitHoldsAllDigits(b, unit);
    var i :| 0 <= i < 9 && b[unit[i].0][unit[i].1] == Num(d);
    assert b[r][i] == Num(d);
    forall c1, c2 | 0 <= c1 < c2 < GridSize
      ensures b[r][c1] != b[r][c2]
    {
      assert unit[c1] == (r, c1) && unit[c2] == (r, c2);
    }
  }

  /** In a solved grid every column holds each digit 1..9 exactly once. */
  lemma SolvedColumn(b: Board, c: int, d: int)
    requires IsBoard(b) && Solved(b) && 0 <= c < GridSize && 1 <= d <= 9
    ensures exists r :: 0 <= r < GridSize && b[r][c] == Num(d)
    ensures forall r1, r2 :: 0 <= r1 < r2 < GridSize ==> b[r1][c] != b[r2][c]
  {
    var unit := seq(9, r requires 0 <= r < 9 => (r, c));
    UnitDistinct(b, unit);
    UnitHoldsAllDigits(b, unit);
    var i :| 0 <= i < 9 && b[unit[i].0][unit[i].1] == Num(d);
    assert b[i][c] == Num(d);
    forall r1, r2 | 0 <= r1 < r2 < GridSize
      ensures b[r1][c] != b[r2][c]
    {
      assert unit[r1] == (r1, c) && unit[r2] == (r2, c);
    }
  }

  /** Offsets 0..2 from a box origin stay in that box. */
  lemma BoxOriginOffset(o: int, t: int)
    requires 0 <= o && o % SubgridSize == 0 && 0 <= t < SubgridSize
    ensures BoxOrigin(o + t) == o
  {
  }

  /**
   In a solved grid every 3x3 box, given by its origin (br, bc), holds each
   digit 1..9 (that no two of its cells are equal is Consistent itself).
   */
  lemma SolvedBox(b: Board, br: int, bc: int, d: int)
    requires IsBoard(b) && Solved(b) && 1 <= d <= 9
    requires InRange(br, bc) && br % SubgridSize == 0 && bc % SubgridSize == 0
    ensures exists r, c :: InRange(r, c) && BoxOrigin(r) == br && BoxOrigin(c) == bc && b[r][c] == Num(d)
  {
    var unit := seq(9, k requires 0 <= k < 9 => (br + k / 3, bc + k % 3));
    forall k | 0 <= k < 9
      ensures InRange(unit[k].0, unit[k].1)
      ensures BoxOrigin(unit[k].0) == br && BoxOrigin(unit[k].1) == bc
    {
      BoxOriginOffset(br, k / 3);
      BoxOriginOffset(bc, k % 3);
    }
    UnitHoldsAllDigits(b, unit);
    var k :| 0 <= k < 9 && b[unit[k].0][unit[k].1] == Num(d);
    assert InRange(unit[k].0, unit[k].1) && BoxOrigin(unit[k].0) == br && BoxOrigin(unit[k].1) == bc;
  }

  /**
   A board that extends `p`, with digits in the cells `p` left empty, holds
   only digits when `p` does.
   */
  lemma ExtensionKeepsDigits(p: Board, s: Board)
    requires IsBoard(p) && IsBoard(s)
    requires Agrees(p, s) && FillsWithDigits(p, s) && DigitsOnly(p)
    ensures DigitsOnly(s)
  {
  }
}

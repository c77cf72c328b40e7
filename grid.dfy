/**
 The Sudoku board: a 9x9 matrix whose cells are either empty (`null` in the
 source) or hold a number. The engine mutates boards in place, so a board the
 engine works on is an `array2<Cell>`; its contents at one moment are a value
 of type `Board`, on which the rules of the game are stated.
 */
module Grid {
  /** Number of rows and of columns. */
  const GridSize: nat := 9
  /** Side of one of the nine boxes. */
  const SubgridSize: nat := 3

  /** A cell value: empty, or a number (the engine itself places only 1..9). */
  datatype Cell = Empty | Num(n: int)

  /** The contents of a board, row by row. */
  type Board = seq<seq<Cell>>

  predicate IsBoard(b: Board) {
    |b| == GridSize && forall r :: 0 <= r < GridSize ==> |b[r]| == GridSize
  }

  predicate InRange(r: int, c: int) {
    0 <= r < GridSize && 0 <= c < GridSize
  }

  /** A mutable board has the fixed 9x9 shape. */
  predicate Is9x9(g: array2<Cell>) {
    g.Length0 == GridSize && g.Length1 == GridSize
  }

  /** The current contents of a mutable board. */
  ghost function Snapshot(g: array2<Cell>): (b: Board)
    reads g
    requires Is9x9(g)
    ensures IsBoard(b)
    ensures forall r, c :: InRange(r, c) ==> b[r][c] == g[r, c]
  {
    seq(GridSize, r requires 0 <= r < GridSize reads g =>
      seq(GridSize, c requires 0 <= c < GridSize reads g => g[r, c]))
  }

  /** The board `b` with cell (r, c) set to `v`. */
  function Place(b: Board, r: int, c: int, v: Cell): (b': Board)
    requires IsBoard(b) && InRange(r, c)
    ensures IsBoard(b')
    ensures b'[r][c] == v
    ensures forall x, y :: InRange(x, y) && (x, y) != (r, c) ==> b'[x][y] == b[x][y]
  {
    b[r := b[r][c := v]]
  }

  /** Two boards with the same cells are the same board. */
  lemma BoardsEqual(a: Board, b: Board)
    requires IsBoard(a) && IsBoard(b)
    requires forall r, c :: InRange(r, c) ==> a[r][c] == b[r][c]
    ensures a == b
  {
    forall r | 0 <= r < GridSize
      ensures a[r] == b[r]
    {
      assert forall c :: 0 <= c < GridSize ==> a[r][c] == b[r][c];
    }
  }
}

/**
 * Cells and the rectangular board of the Minesweeper engine in main.js.
 *
 * The board is a row-major sequence of rows; a position is a (row, col) pair.
 * Everything here is a pure value; the Game class in module Engine holds the
 * board that the game's event handlers reassign.
 */
module Grid {

  /** What the player sees of a cell: the three values of `cellState`. */
  datatype CellState = Hidden | Revealed | Flagged

  /** One board position: whether it holds a bomb, its visible state and its number. */
  datatype Cell = Cell(isBomb: bool, state: CellState, adjacentBombs: nat)

  type Coord = (int, int)

  type Board = seq<seq<Cell>>

  /** The cell every position starts with when the board is allocated. */
  const Fresh: Cell := Cell(false, Hidden, 0)

  /** `g` has `rows` rows of `cols` cells each. */
  ghost predicate Rectangular(g: Board, rows: nat, cols: nat) {
    |g| == rows && forall i | 0 <= i < |g| :: |g[i]| == cols
  }

  predicate InBounds(g: Board, i: int, j: int) {
    0 <= i < |g| && 0 <= j < |g[i]|
  }

  /** Two boards with the same number of rows and the same length of every row. */
  ghost predicate SameShape(g0: Board, g1: Board) {
    |g0| == |g1| && forall i | 0 <= i < |g0| :: |g0[i]| == |g1[i]|
  }

  /** The board with the cell at (i, j) replaced by `c`: one in-place cell update. */
  function Put(g: Board, i: int, j: int, c: Cell): (r: Board)
    requires InBounds(g, i, j)
    ensures SameShape(g, r)
    ensures r[i][j] == c
    ensures forall a, b | InBounds(g, a, b) && (a, b) != (i, j) :: r[a][b] == g[a][b]
  {
    g[i := g[i][j := c]]
  }

  /** A second update of the same cell overrides the first. */
  lemma PutPut(g: Board, i: int, j: int, c: Cell, d: Cell)
    requires InBounds(g, i, j)
    ensures Put(Put(g, i, j, c), i, j, d) == Put(g, i, j, d)
  {
    assert g[i][j := c][j := d] == g[i][j := d];
  }

  /** Writing back the cell already there leaves the board as it was. */
  lemma PutSelf(g: Board, i: int, j: int)
    requires InBounds(g, i, j)
    ensures Put(g, i, j, g[i][j]) == g
  {
    assert g[i][j := g[i][j]] == g[i];
  }

  /** Boards of the same shape that agree on every cell are the same board. */
  lemma BoardsEqual(g0: Board, g1: Board)
    requires SameShape(g0, g1)
    requires forall i, j | InBounds(g0, i, j) :: g0[i][j] == g1[i][j]
    ensures g0 == g1
  {
    forall i | 0 <= i < |g0| ensures g0[i] == g1[i] {
      assert forall j | 0 <= j < |g0[i]| :: InBounds(g0, i, j);
    }
  }

  /** The positions of `g` whose cell satisfies `p`. */
  function CellsWhere(g: Board, p: Cell -> bool): set<Coord> {
    set i, j | 0 <= i < |g| && 0 <= j < |g[i]| && p(g[i][j]) :: (i, j)
  }

  predicate IsBomb(c: Cell) { c.isBomb }

  predicate IsFlagged(c: Cell) { c.state == Flagged }

  /** A cell the flood fill may still reveal: hidden and not a bomb. */
  predicate IsHiddenSafe(c: Cell) { c.state == Hidden && !c.isBomb }

  function BombCells(g: Board): set<Coord> { CellsWhere(g, IsBomb) }

  function FlaggedCells(g: Board): set<Coord> { CellsWhere(g, IsFlagged) }

  function HiddenSafeCells(g: Board): set<Coord> { CellsWhere(g, IsHiddenSafe) }

  /** Replacing one cell moves that position in or out of a `CellsWhere` set and nothing else. */
  lemma CellsWherePut(g: Board, i: int, j: int, c: Cell, p: Cell -> bool)
    requires InBounds(g, i, j)
    ensures CellsWhere(Put(g, i, j, c), p)
            == (CellsWhere(g, p) - {(i, j)}) + (if p(c) then {(i, j)} else {})
  {
    var g' := Put(g, i, j, c);
    var lhs, rhs := CellsWhere(g', p), (CellsWhere(g, p) - {(i, j)}) + (if p(c) then {(i, j)} else {});
    forall x | x in lhs ensures x in rhs {
      var (a, b) := x;
      assert InBounds(g', a, b) && p(g'[a][b]);
    }
    forall x | x in rhs ensures x in lhs {
      var (a, b) := x;
      if x != (i, j) {
        assert InBounds(g, a, b) && p(g[a][b]);
        assert g'[a][b] == g[a][b];
      }
    }
  }

  /** Two boards that agree cell by cell on `p` have the same `p`-positions. */
  lemma CellsWhereAgree(g0: Board, g1: Board, p: Cell -> bool)
    requires SameShape(g0, g1)
    requires forall i, j | InBounds(g0, i, j) :: p(g0[i][j]) == p(g1[i][j])
    ensures CellsWhere(g0, p) == CellsWhere(g1, p)
  {
    forall x | x in CellsWhere(g0, p) ensures x in CellsWhere(g1, p) {
      var (a, b) := x;
      assert InBounds(g0, a, b) && p(g0[a][b]);
    }
    forall x | x in CellsWhere(g1, p) ensures x in CellsWhere(g0, p) {
      var (a, b) := x;
      assert InBounds(g1, a, b) && p(g1[a][b]);
    }
  }

  /** A board on which no cell satisfies `p` has no `p`-positions. */
  lemma CellsWhereNone(g: Board, p: Cell -> bool)
    requires forall i, j | InBounds(g, i, j) :: !p(g[i][j])
    ensures CellsWhere(g, p) == {}
  {
  }
}

/**
 * Neighbour counting: the number a non-bomb cell shows is the number of bombs
 * in its 3x3 Moore neighbourhood that lie on the board.
 *
 * `RowCount` and `BlockCount` follow the two inner loops of
 * `calculateAdjacentBombs` (dy inside dx, both from -1 to 1); `NeighbourBombs`
 * is the independent reference, the set of in-bounds bomb positions around a
 * cell, and `BombsAroundCountsNeighbours` proves the two agree.
 */
module Neighbours {
  import opened Grid

  /** 1 if (a, b) is on the board and holds a bomb: one check of the inner loop. */
  function BombAt(g: Board, a: int, b: int): nat {
    if InBounds(g, a, b) && g[a][b].isBomb then 1 else 0
  }

  /** Bombs at (i + dx, j + dy) for dy = -1 .. dyEnd - 1: the dy loop after it has run up to dyEnd. */
  function RowCount(g: Board, i: int, j: int, dx: int, dyEnd: int): nat
    requires -1 <= dyEnd <= 2
    decreases dyEnd + 1
  {
    if dyEnd == -1 then 0 else RowCount(g, i, j, dx, dyEnd - 1) + BombAt(g, i + dx, j + dyEnd - 1)
  }

  /** Bombs in rows i - 1 .. i + dxEnd - 1 of the 3x3 block: the dx loop after it has run up to dxEnd. */
  function BlockCount(g: Board, i: int, j: int, dxEnd: int): nat
    requires -1 <= dxEnd <= 2
    decreases dxEnd + 1
  {
    if dxEnd == -1 then 0 else BlockCount(g, i, j, dxEnd - 1) + RowCount(g, i, j, dxEnd - 1, 2)
  }

  /** What the 3x3 scan of `calculateAdjacentBombs` adds to the cell at (i, j). */
  function BombsAround(g: Board, i: int, j: int): nat {
    BlockCount(g, i, j, 2)
  }

  /** The in-bounds bomb positions of the 3x3 block centred on (i, j). */
  function NeighbourBombs(g: Board, i: int, j: int): set<Coord> {
    set a, b | i - 1 <= a <= i + 1 && j - 1 <= b <= j + 1 && InBounds(g, a, b) && g[a][b].isBomb :: (a, b)
  }

  /** The in-bounds bomb positions among (i + dx, j - 1) .. (i + dx, j + dyEnd - 1). */
  function RowBombs(g: Board, i: int, j: int, dx: int, dyEnd: int): set<Coord> {
    var a := i + dx;
    set b | j - 1 <= b < j + dyEnd && InBounds(g, a, b) && g[a][b].isBomb :: (a, b)
  }

  /** The in-bounds bomb positions in rows i - 1 .. i + dxEnd - 1 of the 3x3 block. */
  function BlockBombs(g: Board, i: int, j: int, dxEnd: int): set<Coord> {
    set a, b | i - 1 <= a < i + dxEnd && j - 1 <= b <= j + 1 && InBounds(g, a, b) && g[a][b].isBomb :: (a, b)
  }

  lemma {:induction false} RowCountIsRowBombs(g: Board, i: int, j: int, dx: int, dyEnd: int)
    requires -1 <= dyEnd <= 2
    ensures RowCount(g, i, j, dx, dyEnd) == |RowBombs(g, i, j, dx, dyEnd)|
    decreases dyEnd + 1
  {
    if dyEnd == -1 {
      assert RowBombs(g, i, j, dx, dyEnd) == {};
    } else {
      RowCountIsRowBombs(g, i, j, dx, dyEnd - 1);
      RowBombsStep(g, i, j, dx, dyEnd);
    }
  }

  /** One more step of the dy loop adds the position it looks at when that holds a bomb. */
  lemma RowBombsStep(g: Board, i: int, j: int, dx: int, dyEnd: int)
    requires 0 <= dyEnd
    ensures |RowBombs(g, i, j, dx, dyEnd)| == |RowBombs(g, i, j, dx, dyEnd - 1)| + BombAt(g, i + dx, j + dyEnd - 1)
  {
    var before, p := RowBombs(g, i, j, dx, dyEnd - 1), (i + dx, j + dyEnd - 1);
    var after := RowBombs(g, i, j, dx, dyEnd);
    assert p !in before;
    var added := if BombAt(g, i + dx, j + dyEnd - 1) == 1 then {p} else {};
    forall x | x in after ensures x in before + added {
      if x != p {
        assert x.1 < j + dyEnd - 1;
      }
    }
    assert after == before + added;
  }

  lemma {:induction false} BlockCountIsBlockBombs(g: Board, i: int, j: int, dxEnd: int)
    requires -1 <= dxEnd <= 2
    ensures BlockCount(g, i, j, dxEnd) == |BlockBombs(g, i, j, dxEnd)|
    decreases dxEnd + 1
  {
    if dxEnd == -1 {
      assert BlockBombs(g, i, j, dxEnd) == {};
    } else {
      BlockCountIsBlockBombs(g, i, j, dxEnd - 1);
      RowCountIsRowBombs(g, i, j, dxEnd - 1, 2);
      var before, row := BlockBombs(g, i, j, dxEnd - 1), RowBombs(g, i, j, dxEnd - 1, 2);
      assert BlockBombs(g, i, j, dxEnd) == before + row;
      assert before * row == {};
    }
  }

  /** The loop-shaped count equals the number of bombs in the 3x3 neighbourhood. */
  lemma BombsAroundCountsNeighbours(g: Board, i: int, j: int)
    ensures BombsAround(g, i, j) == |NeighbourBombs(g, i, j)|
  {
    BlockCountIsBlockBombs(g, i, j, 2);
    assert BlockBombs(g, i, j, 2) == NeighbourBombs(g, i, j);
  }

  /** A row of the block holds at most three bombs. */
  lemma {:induction false} RowCountBound(g: Board, i: int, j: int, dx: int, dyEnd: int)
    requires -1 <= dyEnd <= 2
    ensures RowCount(g, i, j, dx, dyEnd) <= dyEnd + 1
    decreases dyEnd + 1
  {
    if dyEnd != -1 {
      RowCountBound(g, i, j, dx, dyEnd - 1);
    }
  }

  /** A non-bomb cell's number lies in 0 .. 8: its own position never counts. */
  lemma BombsAroundBound(g: Board, i: int, j: int)
    requires InBounds(g, i, j) && !g[i][j].isBomb
    ensures BombsAround(g, i, j) <= 8
  {
    RowCountBound(g, i, j, -1, 2);
    RowCountBound(g, i, j, 1, 2);
    RowCountBound(g, i, j, 0, 0);
    assert RowCount(g, i, j, 0, 2) == RowCount(g, i, j, 0, 0) + BombAt(g, i, j + 1);
  }

  /**
   * The numbers of `g` are the ones a fresh allocation followed by
   * `calculateAdjacentBombs` leaves: the bomb count around every non-bomb
   * cell, and the allocated 0 on every bomb cell.
   */
  ghost predicate CountsCorrect(g: Board) {
    forall i, j | InBounds(g, i, j) ::
      g[i][j].adjacentBombs == if g[i][j].isBomb then 0 else |NeighbourBombs(g, i, j)|
  }

  /** Boards with the same shape and the same bombs and numbers. */
  ghost predicate SameLayout(g0: Board, g1: Board) {
    SameShape(g0, g1) &&
    forall i, j | InBounds(g0, i, j) ::
      g1[i][j].isBomb == g0[i][j].isBomb && g1[i][j].adjacentBombs == g0[i][j].adjacentBombs
  }

  /** The neighbour bombs depend only on where the bombs are. */
  lemma NeighbourBombsAgree(g0: Board, g1: Board, i: int, j: int)
    requires SameShape(g0, g1)
    requires forall a, b | InBounds(g0, a, b) :: g1[a][b].isBomb == g0[a][b].isBomb
    ensures NeighbourBombs(g0, i, j) == NeighbourBombs(g1, i, j)
  {
    forall x | x in NeighbourBombs(g0, i, j) ensures x in NeighbourBombs(g1, i, j) {
      var (a, b) := x;
      assert InBounds(g0, a, b) && g0[a][b].isBomb;
    }
    forall x | x in NeighbourBombs(g1, i, j) ensures x in NeighbourBombs(g0, i, j) {
      var (a, b) := x;
      assert InBounds(g1, a, b) && g1[a][b].isBomb;
    }
  }

  /** Changing only what the player sees keeps every number correct. */
  lemma SameLayoutKeepsCounts(g0: Board, g1: Board)
    requires SameLayout(g0, g1) && CountsCorrect(g0)
    ensures CountsCorrect(g1)
  {
    forall i, j | InBounds(g1, i, j)
      ensures g1[i][j].adjacentBombs == if g1[i][j].isBomb then 0 else |NeighbourBombs(g1, i, j)|
    {
      NeighbourBombsAgree(g0, g1, i, j);
    }
  }

  /** With correct numbers, every non-bomb cell shows a number from 0 to 8. */
  lemma CountsAtMostEight(g: Board, i: int, j: int)
    requires CountsCorrect(g) && InBounds(g, i, j) && !g[i][j].isBomb
    ensures g[i][j].adjacentBombs <= 8
  {
    BombsAroundCountsNeighbours(g, i, j);
    BombsAroundBound(g, i, j);
  }

  /** The cell at (i, j) once `calculateAdjacentBombs` has visited it. */
  ghost function Counted(g: Board, i: int, j: int): Cell
    requires InBounds(g, i, j)
  {
    if g[i][j].isBomb then g[i][j]
    else g[i][j].(adjacentBombs := g[i][j].adjacentBombs + BombsAround(g, i, j))
  }

  /** (a, b) comes before (i, j) in the row-major order of the scan. */
  predicate Before(a: int, b: int, i: int, j: int) {
    a < i || (a == i && b < j)
  }

  /**
   * `g` is `g0` after the scan of `calculateAdjacentBombs` has visited every
   * cell before (i, j) and no other.
   */
  ghost predicate ScannedUpTo(g0: Board, g: Board, i: int, j: int) {
    SameShape(g0, g) &&
    forall a, b | InBounds(g0, a, b) :: g[a][b] == if Before(a, b, i, j) then Counted(g0, a, b) else g0[a][b]
  }

  lemma ScanStart(g0: Board)
    ensures ScannedUpTo(g0, g0, 0, 0)
  {
  }

  /** Visiting (i, j) extends the scanned prefix by one cell. */
  lemma ScanCell(g0: Board, g: Board, i: int, j: int)
    requires ScannedUpTo(g0, g, i, j) && InBounds(g, i, j)
    ensures ScannedUpTo(g0, Put(g, i, j, Counted(g0, i, j)), i, j + 1)
  {
  }

  /** Finishing row i is starting row i + 1. */
  lemma ScanRow(g0: Board, g: Board, i: int, rows: nat, cols: nat)
    requires Rectangular(g0, rows, cols) && ScannedUpTo(g0, g, i, cols)
    ensures ScannedUpTo(g0, g, i + 1, 0)
  {
  }

  /** A scan that has finished every row has counted every cell. */
  lemma ScanDone(g0: Board, g: Board, rows: nat, cols: nat)
    requires Rectangular(g0, rows, cols) && ScannedUpTo(g0, g, rows, 0)
    ensures SameShape(g0, g)
    ensures forall a, b | InBounds(g, a, b) :: g[a][b] == Counted(g0, a, b)
  {
  }

  /** The scan never moves a bomb, so it counts the bombs it started with. */
  lemma ScannedBombs(g0: Board, g: Board, i: int, j: int)
    requires ScannedUpTo(g0, g, i, j)
    ensures forall a, b | InBounds(g0, a, b) :: g[a][b].isBomb == g0[a][b].isBomb
    ensures forall a, b :: BombsAround(g, a, b) == BombsAround(g0, a, b)
  {
    forall a, b ensures BombsAround(g, a, b) == BombsAround(g0, a, b) {
      BombsAroundCountsNeighbours(g, a, b);
      BombsAroundCountsNeighbours(g0, a, b);
      NeighbourBombsAgree(g0, g, a, b);
    }
  }
}

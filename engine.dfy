/**
 * The board engine of main.js: the global board and the three global
 * counters as the fields of one `Game` object, and the engine's functions
 * (`initialise`, `placeBombs`, `calculateAdjacentBombs`, `handleCellClick`,
 * `revealAllBombs`, `floodFill`, `checkForWin`, `handleCellRightClick`) as
 * its methods. Rendering, the timer and the DOM are not part of this model.
 */
module Engine {
  import opened Grid
  import opened Neighbours
  import opened Flood
  import opened Mines
  import Difficulty

  /** Some cell is hidden and not a bomb: the game is not won yet. */
  ghost predicate HasHiddenSafe(g: Board) {
    exists i, j :: HiddenSafeAt(g, i, j)
  }

  ghost predicate AnyBombRevealed(g: Board) {
    exists i, j :: InBounds(g, i, j) && g[i][j].isBomb && g[i][j].state == Revealed
  }

  /** `g1` is `g0` with every bomb cell revealed and every other cell as it was. */
  ghost predicate BombsShown(g0: Board, g1: Board) {
    SameShape(g0, g1) &&
    forall i, j | InBounds(g0, i, j) :: g1[i][j] == if g0[i][j].isBomb then Reveal(g0[i][j]) else g0[i][j]
  }

  /** A board keeps its own layout and its revealed cells. */
  lemma SameLayoutRefl(g: Board)
    ensures SameLayout(g, g) && RevealedStay(g, g)
  {
  }

  /** Every cell revealed in `g0` is unchanged in `g1`. */
  ghost predicate RevealedStay(g0: Board, g1: Board) {
    SameShape(g0, g1) &&
    forall i, j | InBounds(g0, i, j) && g0[i][j].state == Revealed :: g1[i][j] == g0[i][j]
  }

  /**
   * The invariant every handler keeps, on plain values: the board is
   * `rows` x `cols`, its numbers are right, a revealed bomb means the game is
   * over, and while the game runs the flag counter is the number of flagged cells.
   */
  ghost predicate Coherent(g: Board, rows: nat, cols: nat, flags: int, active: bool) {
    && Rectangular(g, rows, cols)
    && CountsCorrect(g)
    && (AnyBombRevealed(g) ==> !active)
    && (active ==> flags == |FlaggedCells(g)|)
  }

  /**
   * Flagging a hidden cell or unflagging a flagged one keeps the state
   * coherent when the counter moves by one the same way.
   */
  lemma FlagToggled(g0: Board, rows: nat, cols: nat, flags: int, i: int, j: int, s: CellState)
    requires Coherent(g0, rows, cols, flags, true) && InBounds(g0, i, j)
    requires (g0[i][j].state == Hidden && s == Flagged) || (g0[i][j].state == Flagged && s == Hidden)
    ensures Coherent(Put(g0, i, j, g0[i][j].(state := s)), rows, cols, flags + (if s == Flagged then 1 else -1), true)
    ensures SameLayout(g0, Put(g0, i, j, g0[i][j].(state := s)))
    ensures RevealedStay(g0, Put(g0, i, j, g0[i][j].(state := s)))
  {
    var g := Put(g0, i, j, g0[i][j].(state := s));
    CellsWherePut(g0, i, j, g[i][j], IsFlagged);
    StateChanged(g0, g, i, j);
    SameLayoutKeepsCounts(g0, g);
  }

  /** Changing one unrevealed cell between hidden and flagged moves no bomb and reveals nothing. */
  lemma StateChanged(g0: Board, g: Board, i: int, j: int)
    requires InBounds(g0, i, j) && SameShape(g0, g) && g0[i][j].state != Revealed
    requires g[i][j].state != Revealed && g[i][j] == g0[i][j].(state := g[i][j].state)
    requires forall a, b | InBounds(g0, a, b) && (a, b) != (i, j) :: g[a][b] == g0[a][b]
    ensures SameLayout(g0, g) && RevealedStay(g0, g)
    ensures AnyBombRevealed(g) ==> AnyBombRevealed(g0)
  {
    forall a, b | InBounds(g, a, b) && g[a][b].isBomb && g[a][b].state == Revealed
      ensures g0[a][b].isBomb && g0[a][b].state == Revealed
    {
      assert InBounds(g0, a, b);
    }
  }

  /**
   * Writing a cell's state and then writing back the state it had restores
   * the board: the step that makes two right clicks on a cell cancel out.
   */
  lemma FlagTwice(g: Board, i: int, j: int, s: CellState)
    requires InBounds(g, i, j)
    ensures var g1 := Put(g, i, j, g[i][j].(state := s));
      Put(g1, i, j, g1[i][j].(state := g[i][j].state)) == g
  {
    var g1 := Put(g, i, j, g[i][j].(state := s));
    PutPut(g, i, j, g[i][j].(state := s), g[i][j]);
    PutSelf(g, i, j);
  }

  /** Revealing a clicked bomb and then every bomb ends the game with a coherent state. */
  lemma BombClickShown(g0: Board, g: Board, rows: nat, cols: nat, flags: int, i: int, j: int)
    requires Coherent(g0, rows, cols, flags, true) && InBounds(g0, i, j) && g0[i][j].isBomb
    requires BombsShown(Put(g0, i, j, Reveal(g0[i][j])), g)
    ensures Coherent(g, rows, cols, flags, false)
    ensures SameLayout(g0, g) && RevealedStay(g0, g) && BombsShown(g0, g)
  {
    SameLayoutKeepsCounts(g0, g);
  }

  /**
   * Revealing hidden safe cells keeps the state coherent, whether or not
   * the game goes on: no bomb is revealed and no flag is touched.
   */
  lemma RevealsCoherent(g0: Board, g: Board, rows: nat, cols: nat, flags: int, active: bool)
    requires Coherent(g0, rows, cols, flags, true) && OnlyReveals(g0, g)
    ensures Coherent(g, rows, cols, flags, active)
    ensures SameLayout(g0, g) && RevealedStay(g0, g)
  {
    SameLayoutKeepsCounts(g0, g);
    CellsWhereAgree(g0, g, IsFlagged);
    forall a, b | InBounds(g, a, b) && g[a][b].isBomb ensures g[a][b].state != Revealed {
      assert InBounds(g0, a, b);
    }
  }

  /**
   * The board `initialise` allocates: `rows` rows of `cols` fresh cells. The
   * ensures only spell this definition out for the callers' proofs.
   */
  function FreshBoard(rows: nat, cols: nat): (g: Board)
    ensures Rectangular(g, rows, cols)
    ensures forall i, j | InBounds(g, i, j) :: g[i][j] == Fresh
  {
    seq(rows, _ => seq(cols, _ => Fresh))
  }

  /**
   * Counting the bombs of a board whose cells are all hidden and show 0
   * gives a board with correct numbers, the same bombs, no flags and no
   * revealed bomb.
   */
  lemma NewGameCounted(g0: Board, g: Board, rows: nat, cols: nat)
    requires Rectangular(g0, rows, cols) && SameShape(g0, g)
    requires forall i, j | InBounds(g0, i, j) :: g0[i][j].state == Hidden && g0[i][j].adjacentBombs == 0
    requires forall i, j | InBounds(g, i, j) :: g[i][j] == Counted(g0, i, j)
    ensures Coherent(g, rows, cols, 0, true)
    ensures forall i, j | InBounds(g, i, j) :: g[i][j].state == Hidden
    ensures BombCells(g) == BombCells(g0)
  {
    forall i, j | InBounds(g, i, j)
      ensures g[i][j].adjacentBombs == if g[i][j].isBomb then 0 else |NeighbourBombs(g, i, j)|
    {
      BombsAroundCountsNeighbours(g0, i, j);
      NeighbourBombsAgree(g0, g, i, j);
    }
    CellsWhereAgree(g0, g, IsBomb);
    CellsWhereNone(g, IsFlagged);
  }

  class Game {
    var rows: nat
    var cols: nat
    var board: Board
    var flagsPlaced: int
    var gameActive: bool
    var firstClick: bool

    ghost predicate Valid()
      reads this
    {
      Rectangular(board, rows, cols)
    }

    /**
     * What every handler keeps: the numbers are right, a revealed bomb means
     * the game is over, and while the game runs the flag counter is the
     * number of flagged cells.
     */
    ghost predicate Consistent()
      reads this
    {
      Coherent(board, rows, cols, flagsPlaced, gameActive)
    }

    /** The globals as declared, before the first `initialise`. */
    constructor ()
      ensures Consistent()
      ensures board == [] && flagsPlaced == 0 && !gameActive && !firstClick
    {
      rows, cols := 0, 0;
      board := [];
      flagsPlaced := 0;
      gameActive := false;
      firstClick := false;
    }

    /**
     * Starts a game on the preset of `level`, the selected difficulty;
     * `picks` are the successive random positions `placeBombs` draws.
     */
    method Initialise(level: Difficulty.Level, picks: seq<Coord>)
      requires forall k | 0 <= k < |picks| ::
        0 <= picks[k].0 < Difficulty.Preset(level).rows && 0 <= picks[k].1 < Difficulty.Preset(level).cols
      modifies this
      ensures Consistent()
      ensures rows == Difficulty.Preset(level).rows && cols == Difficulty.Preset(level).cols
      ensures gameActive && flagsPlaced == 0 && !firstClick
      ensures forall i, j | InBounds(board, i, j) :: board[i][j].state == Hidden
      ensures Placed({}, BombCells(board), PickSet(picks), Difficulty.Preset(level).bombs)
    {
      NewGame(Difficulty.Preset(level), picks);
    }

    /**
     * The body of `initialise` once the preset is looked up: a fresh board of
     * `cfg.rows` by `cfg.cols` cells, the bombs drawn from `picks`, the numbers.
     */
    method NewGame(cfg: Difficulty.Config, picks: seq<Coord>)
      requires forall k | 0 <= k < |picks| :: 0 <= picks[k].0 < cfg.rows && 0 <= picks[k].1 < cfg.cols
      modifies this
      ensures Consistent()
      ensures rows == cfg.rows && cols == cfg.cols
      ensures gameActive && flagsPlaced == 0 && !firstClick
      ensures forall i, j | InBounds(board, i, j) :: board[i][j].state == Hidden
      ensures Placed({}, BombCells(board), PickSet(picks), cfg.bombs)
    {
      rows, cols := cfg.rows, cfg.cols;
      board := FreshBoard(cfg.rows, cfg.cols);
      ghost var empty := board;
      CellsWhereNone(empty, IsBomb);
      PlaceBombs(cfg.bombs, picks);
      DrawBombsOnlyArms(empty, picks, cfg.bombs);
      DrawBombsPlaces(empty, picks, cfg.bombs);
      ghost var placed := board;
      CalculateAdjacentBombs();
      NewGameCounted(placed, board, rows, cols);
      // main.js resets these three before building the board; nothing in between reads them
      gameActive := true;
      flagsPlaced := 0;
      firstClick := false;
    }

    /**
     * Rejection sampling: each draw that hits a cell without a bomb turns it
     * into a bomb, a draw that hits a bomb is wasted; the loop stops once
     * `numberOfBombs` bombs are placed or the draws run out.
     */
    method PlaceBombs(numberOfBombs: nat, picks: seq<Coord>)
      requires Valid() && DrawsInBounds(board, picks)
      modifies this`board
      ensures Valid()
      ensures board == DrawBombs(old(board), picks, numberOfBombs)
    {
      var placedBombs := 0;
      var k := 0;
      while placedBombs < numberOfBombs && k < |picks|
        invariant 0 <= k <= |picks| && placedBombs <= numberOfBombs
        invariant Valid() && DrawsInBounds(board, picks[k..])
        invariant DrawBombs(board, picks[k..], numberOfBombs - placedBombs) == DrawBombs(old(board), picks, numberOfBombs)
      {
        var (row, col) := picks[k];
        assert picks[k..][1..] == picks[k + 1..];
        if !board[row][col].isBomb {
          board := Arm(board, (row, col));
          placedBombs := placedBombs + 1;
        }
        k := k + 1;
      }
    }

    /** Adds to every non-bomb cell the number of bombs in its 3x3 neighbourhood. */
    method CalculateAdjacentBombs()
      requires Valid()
      modifies this`board
      ensures Valid()
      ensures forall i, j | InBounds(board, i, j) :: board[i][j] == Counted(old(board), i, j)
    {
      ghost var g0: Board := board;
      ScanStart(g0);
      var i := 0;
      while i < rows
        invariant 0 <= i <= rows && Valid() && ScannedUpTo(g0, board, i, 0)
      {
        var j := 0;
        while j < cols
          invariant 0 <= j <= cols && Valid() && ScannedUpTo(g0, board, i, j)
        {
          ghost var gc: Board := board;
          ScannedBombs(g0, gc, i, j);
          if !board[i][j].isBomb {
            CountAround(i, j, gc);
          } else {
            PutSelf(gc, i, j);
          }
          ScanCell(g0, gc, i, j);
          j := j + 1;
        }
        ScanRow(g0, board, i, rows, cols);
        i := i + 1;
      }
      ScanDone(g0, board, rows, cols);
    }

    /** The two inner loops of `calculateAdjacentBombs`: the 3x3 scan around (i, j). */
    method CountAround(i: int, j: int, ghost gc: Board)
      requires Valid() && board == gc && 0 <= i < rows && 0 <= j < cols
      modifies this`board
      ensures board == Put(gc, i, j, gc[i][j].(adjacentBombs := gc[i][j].adjacentBombs + BombsAround(gc, i, j)))
    {
      ghost var n := gc[i][j].adjacentBombs;
      PutSelf(gc, i, j);
      var dx := -1;
      while dx <= 1
        invariant -1 <= dx <= 2 && n == gc[i][j].adjacentBombs + BlockCount(gc, i, j, dx)
        invariant board == Put(gc, i, j, gc[i][j].(adjacentBombs := n))
      {
        n := CountRow(i, j, dx, gc, n);
        dx := dx + 1;
      }
      assert dx == 2;
      assert BlockCount(gc, i, j, dx) == BombsAround(gc, i, j);
    }

    /**
     * The innermost loop of `calculateAdjacentBombs`: row i + dx of the 3x3
     * block around (i, j). `gc` is the board before the scan of (i, j) began,
     * `n` the number (i, j) shows when this row's scan starts and `n'` when it ends.
     */
    method CountRow(i: int, j: int, dx: int, ghost gc: Board, ghost n: nat) returns (ghost n': nat)
      requires Rectangular(gc, rows, cols) && 0 <= i < rows && 0 <= j < cols
      requires board == Put(gc, i, j, gc[i][j].(adjacentBombs := n))
      modifies this`board
      ensures n' == n + RowCount(gc, i, j, dx, 2)
      ensures board == Put(gc, i, j, gc[i][j].(adjacentBombs := n'))
    {
      n' := n;
      var dy := -1;
      while dy <= 1
        invariant -1 <= dy <= 2 && n' == n + RowCount(gc, i, j, dx, dy)
        invariant board == Put(gc, i, j, gc[i][j].(adjacentBombs := n'))
      {
        var nx := i + dx;
        var ny := j + dy;
        assert InBounds(gc, nx, ny) <==> nx >= 0 && nx < rows && ny >= 0 && ny < cols;
        if nx >= 0 && nx < rows && ny >= 0 && ny < cols && board[nx][ny].isBomb {
          PutPut(gc, i, j, gc[i][j].(adjacentBombs := n'), gc[i][j].(adjacentBombs := n' + 1));
          board := Put(board, i, j, board[i][j].(adjacentBombs := board[i][j].adjacentBombs + 1));
          n' := n' + 1;
        }
        dy := dy + 1;
      }
      assert dy == 2;
    }

    /**
     * A left click on (row, col): ignored once the game is over or when the
     * cell is not hidden; otherwise a bomb loses the game and shows every
     * bomb, and a safe cell is flood-filled and the board checked for a win.
     */
    method HandleCellClick(row: int, col: int)
      requires Consistent() && (gameActive ==> 0 <= row < rows && 0 <= col < cols)
      modifies this`board, this`gameActive, this`firstClick
      ensures Consistent()
      ensures SameLayout(old(board), board) && RevealedStay(old(board), board)
      ensures !old(gameActive) || old(board)[row][col].state != Hidden ==>
                board == old(board) && gameActive == old(gameActive) && firstClick == old(firstClick)
      ensures old(gameActive) && old(board)[row][col].state == Hidden ==> firstClick
      ensures old(gameActive) && old(board)[row][col].state == Hidden && old(board)[row][col].isBomb ==>
                !gameActive && BombsShown(old(board), board)
      ensures old(gameActive) && HiddenSafeAt(old(board), row, col) ==>
                FloodFilled(old(board), board, row, col) && gameActive == HasHiddenSafe(board)
    {
      if !gameActive || board[row][col].state != Hidden {
        SameLayoutRefl(board);
        return;
      }
      if !firstClick {
        firstClick := true;
      }
      ghost var g0: Board := board;
      if board[row][col].isBomb {
        board := Put(board, row, col, Reveal(board[row][col]));
        gameActive := false;
        RevealAllBombs();
        BombClickShown(g0, board, rows, cols, flagsPlaced, row, col);
      } else {
        FloodFill(row, col);
        CheckForWin();
        RevealsCoherent(g0, board, rows, cols, flagsPlaced, gameActive);
      }
    }

    /** Turns every bomb cell face up, whatever its state. */
    method RevealAllBombs()
      requires Valid()
      modifies this`board
      ensures Valid() && BombsShown(old(board), board)
    {
      ghost var g0: Board := board;
      var i := 0;
      while i < |board|
        invariant 0 <= i <= |board| && Valid()
        invariant forall a, b | InBounds(board, a, b) ::
          board[a][b] == if a < i && g0[a][b].isBomb then Reveal(g0[a][b]) else g0[a][b]
      {
        var j := 0;
        while j < |board[i]|
          invariant Valid() && i < |board| && 0 <= j <= |board[i]|
          invariant forall a, b | InBounds(board, a, b) ::
            board[a][b] == if (a < i || (a == i && b < j)) && g0[a][b].isBomb then Reveal(g0[a][b]) else g0[a][b]
        {
          if board[i][j].isBomb {
            board := Put(board, i, j, Reveal(board[i][j]));
          }
          j := j + 1;
        }
        i := i + 1;
      }
    }

    /**
     * Reveals (row, col) if it is on the board, hidden and not a bomb, and,
     * when it shows 0, continues into its four orthogonal neighbours.
     */
    method FloodFill(row: int, col: int)
      requires Valid()
      modifies this`board
      ensures Valid()
      ensures FloodFilled(old(board), board, row, col)
      decreases HiddenSafeCells(board), 0
    {
      if row < 0 || row >= |board| || col < 0 || col >= |board[0]| {
        FloodFilledNothing(board, row, col);
        return;
      }
      if board[row][col].state != Hidden || board[row][col].isBomb {
        FloodFilledNothing(board, row, col);
        return;
      }
      ghost var g0: Board := board;
      ghost var rank := RevealStart(board, row, col);
      board := Put(board, row, col, Reveal(board[row][col]));
      CellsWherePut(g0, row, col, board[row][col], IsHiddenSafe);
      if board[row][col].adjacentBombs > 0 {
        return;
      }
      rank := FillFrom(row, col, row - 1, col, g0, rank);
      ghost var g1 := board;
      rank := FillFrom(row, col, row + 1, col, g0, rank);
      ghost var g2 := board;
      rank := FillFrom(row, col, row, col - 1, g0, rank);
      ghost var g3 := board;
      rank := FillFrom(row, col, row, col + 1, g0, rank);
      FillDone(g0, g1, g2, g3, board, row, col, rank);
    }

    /**
     * One recursive call `floodFill(a, b)` made by the fill from (r, c) on a
     * neighbour, with the bookkeeping that carries the fill's invariant across it.
     */
    method FillFrom(r: int, c: int, a: int, b: int, ghost g0: Board, ghost rank: map<Coord, nat>)
      returns (ghost rank': map<Coord, nat>)
      requires Valid() && Filling(g0, board, r, c, rank)
      requires (a, b) == (r - 1, c) || (a, b) == (r + 1, c) || (a, b) == (r, c - 1) || (a, b) == (r, c + 1)
      modifies this`board
      ensures Valid() && Filling(g0, board, r, c, rank')
      ensures OnlyReveals(old(board), board) && Settled(board, a, b)
      ensures HiddenSafeCells(board) <= old(HiddenSafeCells(board))
      decreases HiddenSafeCells(board), 1
    {
      ghost var gk := board;
      FloodFill(a, b);
      ghost var sub :| RankedFrom(gk, board, a, b, sub);
      rank' := FillStep(g0, gk, board, r, c, a, b, rank, sub);
      OnlyRevealsShrinks(gk, board);
    }

    /** Ends the game when no cell is both hidden and safe; flagged safe cells do not count. */
    method CheckForWin()
      requires Valid()
      modifies this`gameActive
      ensures gameActive == (old(gameActive) && HasHiddenSafe(board))
    {
      var i := 0;
      while i < |board|
        invariant 0 <= i <= |board|
        invariant forall a, b | 0 <= a < i && InBounds(board, a, b) :: !IsHiddenSafe(board[a][b])
      {
        var j := 0;
        while j < |board[i]|
          invariant 0 <= j <= |board[i]|
          invariant forall b | 0 <= b < j :: !IsHiddenSafe(board[i][b])
        {
          if board[i][j].state == Hidden && !board[i][j].isBomb {
            assert HiddenSafeAt(board, i, j);
            return;
          }
          j := j + 1;
        }
        i := i + 1;
      }
      gameActive := false;
    }

    /**
     * A right click on (row, col): ignored once the game is over or on a
     * revealed cell; otherwise a flag is removed or placed and the counter
     * follows, with no cap.
     */
    method HandleCellRightClick(row: int, col: int)
      requires Consistent() && (gameActive ==> 0 <= row < rows && 0 <= col < cols)
      modifies this`board, this`flagsPlaced
      ensures Consistent()
      ensures SameLayout(old(board), board) && RevealedStay(old(board), board)
      ensures !old(gameActive) || old(board)[row][col].state == Revealed ==>
                board == old(board) && flagsPlaced == old(flagsPlaced)
      ensures old(gameActive) && old(board)[row][col].state == Flagged ==>
                board == Put(old(board), row, col, old(board)[row][col].(state := Hidden)) &&
                flagsPlaced == old(flagsPlaced) - 1
      ensures old(gameActive) && old(board)[row][col].state == Hidden ==>
                board == Put(old(board), row, col, old(board)[row][col].(state := Flagged)) &&
                flagsPlaced == old(flagsPlaced) + 1
    {
      if !gameActive || board[row][col].state == Revealed {
        SameLayoutRefl(board);
        return;
      }
      if board[row][col].state == Flagged {
        FlagToggled(board, rows, cols, flagsPlaced, row, col, Hidden);
        board := Put(board, row, col, board[row][col].(state := Hidden));
        flagsPlaced := flagsPlaced - 1;
      } else if board[row][col].state == Hidden {
        FlagToggled(board, rows, cols, flagsPlaced, row, col, Flagged);
        board := Put(board, row, col, board[row][col].(state := Flagged));
        flagsPlaced := flagsPlaced + 1;
      }
    }

    /**
     * Two right clicks on the same hidden or flagged cell of a running game
     * cancel out: the board and the flag counter are as before.
     */
    method RightClickTwice(row: int, col: int)
      requires Consistent() && 0 <= row < rows && 0 <= col < cols
      requires gameActive && board[row][col].state != Revealed
      modifies this`board, this`flagsPlaced
      ensures Consistent()
      ensures board == old(board) && flagsPlaced == old(flagsPlaced)
    {
      FlagTwice(board, row, col, if board[row][col].state == Hidden then Flagged else Hidden);
      HandleCellRightClick(row, col);
      HandleCellRightClick(row, col);
    }
  }
}

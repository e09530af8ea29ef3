/**
 * What `floodFill` does to the board, stated as relations between the board
 * before (`g0`) and after (`g1`) a fill started at (r, c):
 *
 *  - `OnlyReveals`: cells change only from hidden to revealed, and only
 *    non-bomb cells do; flagged and revealed cells and all bombs keep their state.
 *  - `Closed`: every cell the fill revealed whose number is 0 has no hidden
 *    non-bomb cell left among its four orthogonal neighbours.
 *  - `ConnectedFrom`: every other cell the fill revealed is reached from (r, c)
 *    through orthogonal steps over 0-cells the fill revealed (a rank map
 *    witnesses the path);
 *    cells with a number > 0 and diagonal cells are never stepped from.
 *
 * `FloodFilledIsUnique` shows that these relations fix the resulting board.
 */
module Flood {
  import opened Grid

  /** The cell turned face up. */
  function Reveal(c: Cell): Cell {
    c.(state := Revealed)
  }

  /** (i, j) is on the board, hidden and not a bomb: the cells the fill may open. */
  ghost predicate HiddenSafeAt(g: Board, i: int, j: int) {
    InBounds(g, i, j) && IsHiddenSafe(g[i][j])
  }

  /** Nothing for the fill to do at (i, j). */
  ghost predicate Settled(g: Board, i: int, j: int) {
    !HiddenSafeAt(g, i, j)
  }

  /** None of the four orthogonal neighbours of (i, j) is a hidden non-bomb cell. */
  ghost predicate NeighboursSettled(g: Board, i: int, j: int) {
    Settled(g, i - 1, j) && Settled(g, i + 1, j) && Settled(g, i, j - 1) && Settled(g, i, j + 1)
  }

  /** `g1` is `g0` with some hidden non-bomb cells revealed and nothing else changed. */
  ghost predicate OnlyReveals(g0: Board, g1: Board) {
    SameShape(g0, g1) &&
    forall i, j | InBounds(g0, i, j) ::
      g1[i][j] == g0[i][j] || (IsHiddenSafe(g0[i][j]) && g1[i][j] == Reveal(g0[i][j]))
  }

  ghost predicate NewlyRevealed(g0: Board, g1: Board, i: int, j: int) {
    InBounds(g0, i, j) && InBounds(g1, i, j) && g0[i][j].state == Hidden && g1[i][j].state == Revealed
  }

  /** A cell the fill revealed that shows 0: the fill propagates from it. */
  ghost predicate ZeroSeed(g0: Board, g1: Board, i: int, j: int) {
    NewlyRevealed(g0, g1, i, j) && g1[i][j].adjacentBombs == 0
  }

  /** The fill left no hidden non-bomb cell next to a 0-cell it revealed. */
  ghost predicate Closed(g0: Board, g1: Board) {
    forall i, j | ZeroSeed(g0, g1, i, j) :: NeighboursSettled(g1, i, j)
  }

  /** `Closed`, except possibly around (r, c): the state half-way through a fill from (r, c). */
  ghost predicate ClosedExcept(g0: Board, g1: Board, r: int, c: int) {
    forall i, j | ZeroSeed(g0, g1, i, j) && (i, j) != (r, c) :: NeighboursSettled(g1, i, j)
  }

  /** (a, b) is a 0-cell the fill revealed, nearer the start than (i, j). */
  ghost predicate Closer(g0: Board, g1: Board, rank: map<Coord, nat>, i: int, j: int, a: int, b: int) {
    (a, b) in rank && (i, j) in rank && rank[(a, b)] < rank[(i, j)] && ZeroSeed(g0, g1, a, b)
  }

  ghost predicate HasCloserSeed(g0: Board, g1: Board, rank: map<Coord, nat>, i: int, j: int) {
    Closer(g0, g1, rank, i, j, i - 1, j) || Closer(g0, g1, rank, i, j, i + 1, j) ||
    Closer(g0, g1, rank, i, j, i, j - 1) || Closer(g0, g1, rank, i, j, i, j + 1)
  }

  /**
   * `rank` numbers exactly the cells the fill revealed, and every one of them
   * other than (r, c) has an orthogonal neighbour that is a 0-cell the fill
   * revealed, of smaller rank: following those steps leads back to (r, c).
   */
  ghost predicate RankedFrom(g0: Board, g1: Board, r: int, c: int, rank: map<Coord, nat>) {
    (forall i, j :: (i, j) in rank <==> NewlyRevealed(g0, g1, i, j)) &&
    (forall i, j | (i, j) in rank && (i, j) != (r, c) :: HasCloserSeed(g0, g1, rank, i, j))
  }

  ghost predicate ConnectedFrom(g0: Board, g1: Board, r: int, c: int) {
    exists rank :: RankedFrom(g0, g1, r, c, rank)
  }

  /** The board `floodFill(r, c)` leaves behind, given the board `g0` it started from. */
  ghost predicate FloodFilled(g0: Board, g1: Board, r: int, c: int) {
    && OnlyReveals(g0, g1)
    && Settled(g1, r, c)
    && Closed(g0, g1)
    && ConnectedFrom(g0, g1, r, c)
    // out of bounds, not hidden, or a bomb: nothing happens
    && (!HiddenSafeAt(g0, r, c) ==> g1 == g0)
    // a numbered cell is revealed and the fill stops there
    && (HiddenSafeAt(g0, r, c) && g0[r][c].adjacentBombs > 0 ==> g1 == Put(g0, r, c, Reveal(g0[r][c])))
  }

  /**
   * Half-way through a fill from (r, c) that revealed (r, c) as a 0-cell:
   * what is revealed so far is ranked from (r, c), and only (r, c) may still
   * have hidden safe neighbours.
   */
  ghost predicate Filling(g0: Board, g: Board, r: int, c: int, rank: map<Coord, nat>) {
    && OnlyReveals(g0, g)
    && ZeroSeed(g0, g, r, c)
    && RankedFrom(g0, g, r, c, rank) && (r, c) in rank && rank[(r, c)] == 0
    && ClosedExcept(g0, g, r, c)
  }

  lemma OnlyRevealsTransitive(g0: Board, g1: Board, g2: Board)
    requires OnlyReveals(g0, g1) && OnlyReveals(g1, g2)
    ensures OnlyReveals(g0, g2)
  {
    forall i, j | InBounds(g0, i, j)
      ensures g2[i][j] == g0[i][j] || (IsHiddenSafe(g0[i][j]) && g2[i][j] == Reveal(g0[i][j]))
    {
      assert InBounds(g1, i, j);
    }
  }

  /** Revealing only ever removes cells from the set the fill may still open. */
  lemma OnlyRevealsShrinks(g0: Board, g1: Board)
    requires OnlyReveals(g0, g1)
    ensures HiddenSafeCells(g1) <= HiddenSafeCells(g0)
  {
    forall x | x in HiddenSafeCells(g1) ensures x in HiddenSafeCells(g0) {
      var (a, b) := x;
      assert InBounds(g1, a, b) && IsHiddenSafe(g1[a][b]);
    }
  }

  /** A settled position stays settled while cells are only revealed. */
  lemma SettledStays(g0: Board, g1: Board, i: int, j: int)
    requires OnlyReveals(g0, g1) && Settled(g0, i, j)
    ensures Settled(g1, i, j)
  {
    if InBounds(g1, i, j) {
      assert InBounds(g0, i, j);
    }
  }

  lemma NeighboursSettledStay(g0: Board, g1: Board, i: int, j: int)
    requires OnlyReveals(g0, g1) && NeighboursSettled(g0, i, j)
    ensures NeighboursSettled(g1, i, j)
  {
    SettledStays(g0, g1, i - 1, j);
    SettledStays(g0, g1, i + 1, j);
    SettledStays(g0, g1, i, j - 1);
    SettledStays(g0, g1, i, j + 1);
  }

  /** A cell revealed by an earlier stretch of the fill is still a revealed cell of the whole fill. */
  lemma ZeroSeedWidens(g0: Board, g1: Board, g2: Board, g3: Board, i: int, j: int)
    requires OnlyReveals(g0, g1) && OnlyReveals(g1, g2) && OnlyReveals(g2, g3)
    requires ZeroSeed(g1, g2, i, j)
    ensures ZeroSeed(g0, g3, i, j)
  {
    assert InBounds(g0, i, j) && InBounds(g2, i, j);
  }

  /** A fill that changes nothing satisfies every clause of `FloodFilled`. */
  lemma FloodFilledNothing(g: Board, r: int, c: int)
    requires !HiddenSafeAt(g, r, c)
    ensures FloodFilled(g, g, r, c)
  {
    var empty: map<Coord, nat> := map[];
    assert RankedFrom(g, g, r, c, empty);
  }

  /** Revealing the start cell alone: the first step of a fill, and all of it when the cell shows a number. */
  lemma RevealStart(g0: Board, r: int, c: int) returns (rank: map<Coord, nat>)
    requires HiddenSafeAt(g0, r, c)
    ensures g0[r][c].adjacentBombs == 0 ==> Filling(g0, Put(g0, r, c, Reveal(g0[r][c])), r, c, rank)
    ensures g0[r][c].adjacentBombs > 0 ==> FloodFilled(g0, Put(g0, r, c, Reveal(g0[r][c])), r, c)
  {
    var g1 := Put(g0, r, c, Reveal(g0[r][c]));
    rank := map[(r, c) := 0];
    forall i, j ensures (i, j) in rank <==> NewlyRevealed(g0, g1, i, j) {
      if (i, j) != (r, c) && InBounds(g0, i, j) {
        assert g1[i][j] == g0[i][j];
      }
    }
    assert RankedFrom(g0, g1, r, c, rank);
  }

  /** The ranks of a fill from (r, c) joined with those of a call on a neighbour, one step further out. */
  ghost function Shifted(rank: map<Coord, nat>, sub: map<Coord, nat>): map<Coord, nat> {
    rank + map x | x in sub.Keys :: sub[x] + 1
  }

  /**
   * One recursive call of the fill from (r, c), made on the orthogonal
   * neighbour (a, b), extends a half-done fill from (r, c) to a half-done
   * fill that also covers what the call revealed.
   */
  lemma FillStep(g0: Board, gk: Board, gk1: Board, r: int, c: int, a: int, b: int,
                 rank: map<Coord, nat>, sub: map<Coord, nat>) returns (rank': map<Coord, nat>)
    requires (a, b) == (r - 1, c) || (a, b) == (r + 1, c) || (a, b) == (r, c - 1) || (a, b) == (r, c + 1)
    requires Filling(g0, gk, r, c, rank)
    requires OnlyReveals(gk, gk1) && RankedFrom(gk, gk1, a, b, sub) && Closed(gk, gk1)
    ensures Filling(g0, gk1, r, c, rank')
  {
    OnlyRevealsTransitive(g0, gk, gk1);
    rank' := Shifted(rank, sub);
    ShiftedDomain(g0, gk, gk1, r, c, a, b, rank, sub);
    forall i, j | (i, j) in rank' && (i, j) != (r, c) ensures HasCloserSeed(g0, gk1, rank', i, j) {
      if (i, j) in sub {
        ShiftedCloserNew(g0, gk, gk1, r, c, a, b, rank, sub, i, j);
      } else {
        ShiftedCloserOld(g0, gk, gk1, r, c, a, b, rank, sub, i, j);
      }
    }
    FillStepClosed(g0, gk, gk1, r, c);
  }

  /** The joined ranks number exactly the cells revealed by both stretches, which are disjoint. */
  lemma ShiftedDomain(g0: Board, gk: Board, gk1: Board, r: int, c: int, a: int, b: int,
                      rank: map<Coord, nat>, sub: map<Coord, nat>)
    requires Filling(g0, gk, r, c, rank)
    requires OnlyReveals(gk, gk1) && RankedFrom(gk, gk1, a, b, sub)
    ensures forall i, j :: (i, j) in Shifted(rank, sub) <==> NewlyRevealed(g0, gk1, i, j)
    ensures forall i, j | (i, j) in sub :: (i, j) !in rank
    ensures Shifted(rank, sub)[(r, c)] == 0
  {
    assert InBounds(gk, r, c);
    assert (r, c) !in sub;
    forall i, j ensures (i, j) in Shifted(rank, sub) <==> NewlyRevealed(g0, gk1, i, j) {
      if InBounds(g0, i, j) {
        assert InBounds(gk, i, j);
      }
    }
    forall i, j | (i, j) in sub ensures (i, j) !in rank {
      assert NewlyRevealed(gk, gk1, i, j);
    }
  }

  /** A cell the call revealed leads back to (a, b) and from there to (r, c). */
  lemma ShiftedCloserNew(g0: Board, gk: Board, gk1: Board, r: int, c: int, a: int, b: int,
                         rank: map<Coord, nat>, sub: map<Coord, nat>, i: int, j: int)
    requires (a, b) == (r - 1, c) || (a, b) == (r + 1, c) || (a, b) == (r, c - 1) || (a, b) == (r, c + 1)
    requires Filling(g0, gk, r, c, rank) && OnlyReveals(g0, gk1)
    requires OnlyReveals(gk, gk1) && RankedFrom(gk, gk1, a, b, sub)
    requires forall i, j | (i, j) in sub :: (i, j) !in rank
    requires (i, j) in sub
    ensures HasCloserSeed(g0, gk1, Shifted(rank, sub), i, j)
  {
    if (i, j) == (a, b) {
      ZeroSeedWidens(g0, g0, gk, gk1, r, c);
      ShiftedCloserStart(g0, gk1, r, c, a, b, rank, sub);
    } else {
      assert HasCloserSeed(gk, gk1, sub, i, j);
      ShiftedCloserInner(g0, gk, gk1, sub, rank, i, j);
    }
  }

  /** The neighbour (a, b) the call started from is one rank above (r, c), a revealed 0-cell. */
  lemma ShiftedCloserStart(g0: Board, g1: Board, r: int, c: int, a: int, b: int,
                           rank: map<Coord, nat>, sub: map<Coord, nat>)
    requires (a, b) == (r - 1, c) || (a, b) == (r + 1, c) || (a, b) == (r, c - 1) || (a, b) == (r, c + 1)
    requires ZeroSeed(g0, g1, r, c) && (r, c) in rank && rank[(r, c)] == 0 && (r, c) !in sub
    requires (a, b) in sub
    ensures HasCloserSeed(g0, g1, Shifted(rank, sub), a, b)
  {
    assert Closer(g0, g1, Shifted(rank, sub), a, b, r, c);
  }

  /** A cell the call revealed past (a, b) keeps the closer 0-cell the call ranked it by. */
  lemma ShiftedCloserInner(g0: Board, gk: Board, gk1: Board, sub: map<Coord, nat>, rank: map<Coord, nat>,
                           i: int, j: int)
    requires OnlyReveals(g0, gk) && OnlyReveals(gk, gk1)
    requires HasCloserSeed(gk, gk1, sub, i, j)
    ensures HasCloserSeed(g0, gk1, Shifted(rank, sub), i, j)
  {
    var rank' := Shifted(rank, sub);
    forall p, q | Closer(gk, gk1, sub, i, j, p, q) ensures Closer(g0, gk1, rank', i, j, p, q) {
      ZeroSeedWidens(g0, gk, gk1, gk1, p, q);
    }
  }

  /** A cell revealed before the call keeps the closer 0-cell it had. */
  lemma ShiftedCloserOld(g0: Board, gk: Board, gk1: Board, r: int, c: int, a: int, b: int,
                         rank: map<Coord, nat>, sub: map<Coord, nat>, i: int, j: int)
    requires Filling(g0, gk, r, c, rank) && OnlyReveals(g0, gk1)
    requires OnlyReveals(gk, gk1) && RankedFrom(gk, gk1, a, b, sub)
    requires forall i, j | (i, j) in sub :: (i, j) !in rank
    requires (i, j) in rank && (i, j) != (r, c)
    ensures HasCloserSeed(g0, gk1, Shifted(rank, sub), i, j)
  {
    var rank' := Shifted(rank, sub);
    assert HasCloserSeed(g0, gk, rank, i, j);
    forall p, q | Closer(g0, gk, rank, i, j, p, q) ensures Closer(g0, gk1, rank', i, j, p, q) {
      ZeroSeedWidens(g0, g0, gk, gk1, p, q);
    }
  }

  /** Every 0-cell revealed so far, other than (r, c), still has no hidden safe neighbour. */
  lemma FillStepClosed(g0: Board, gk: Board, gk1: Board, r: int, c: int)
    requires OnlyReveals(g0, gk) && OnlyReveals(gk, gk1) && OnlyReveals(g0, gk1)
    requires ClosedExcept(g0, gk, r, c) && Closed(gk, gk1)
    ensures ClosedExcept(g0, gk1, r, c)
  {
    forall i, j | ZeroSeed(g0, gk1, i, j) && (i, j) != (r, c) ensures NeighboursSettled(gk1, i, j) {
      assert InBounds(gk, i, j);
      if gk[i][j].state == Revealed {
        NeighboursSettledStay(gk, gk1, i, j);
      }
    }
  }

  /**
   * The four calls made: once each neighbour was settled by its own call
   * (and stayed so under the later ones), the half-done fill is a whole one.
   */
  lemma FillDone(g0: Board, g1: Board, g2: Board, g3: Board, g: Board, r: int, c: int, rank: map<Coord, nat>)
    requires HiddenSafeAt(g0, r, c) && Filling(g0, g, r, c, rank)
    requires OnlyReveals(g1, g2) && OnlyReveals(g2, g3) && OnlyReveals(g3, g)
    requires Settled(g1, r - 1, c) && Settled(g2, r + 1, c) && Settled(g3, r, c - 1) && Settled(g, r, c + 1)
    ensures FloodFilled(g0, g, r, c)
  {
    OnlyRevealsTransitive(g1, g2, g3);
    OnlyRevealsTransitive(g1, g3, g);
    OnlyRevealsTransitive(g2, g3, g);
    SettledStays(g1, g, r - 1, c);
    SettledStays(g2, g, r + 1, c);
    SettledStays(g3, g, r, c - 1);
    assert g[r][c].adjacentBombs == 0;
  }
  /**
   * `FloodFilled` fixes the board: two boards that both satisfy it for the
   * same start board and start cell are equal. So the relations above say
   * all there is to say about the result of `floodFill`.
   */
  lemma FloodFilledIsUnique(g0: Board, g1: Board, g2: Board, r: int, c: int)
    requires FloodFilled(g0, g1, r, c) && FloodFilled(g0, g2, r, c)
    ensures g1 == g2
  {
    if HiddenSafeAt(g0, r, c) {
      var rank1 :| RankedFrom(g0, g1, r, c, rank1);
      var rank2 :| RankedFrom(g0, g2, r, c, rank2);
      forall i, j | InBounds(g0, i, j) ensures g1[i][j] == g2[i][j] {
        if (i, j) in rank1 {
          ReachedRevealed(g0, g1, g2, r, c, rank1, i, j);
        } else if (i, j) in rank2 {
          ReachedRevealed(g0, g2, g1, r, c, rank2, i, j);
        }
      }
      BoardsEqual(g1, g2);
    }
  }

  /** Every cell one fill ranks is revealed by any other fill from the same cell. */
  lemma {:induction false} ReachedRevealed(g0: Board, g1: Board, g2: Board, r: int, c: int,
                                           rank: map<Coord, nat>, i: int, j: int)
    requires HiddenSafeAt(g0, r, c) && OnlyReveals(g0, g2) && Settled(g2, r, c) && Closed(g0, g2)
    requires OnlyReveals(g0, g1) && RankedFrom(g0, g1, r, c, rank) && (i, j) in rank
    ensures NewlyRevealed(g0, g2, i, j)
    decreases rank[(i, j)], 1
  {
    if (i, j) == (r, c) {
      assert InBounds(g0, r, c);
      return;
    }
    assert NewlyRevealed(g0, g1, i, j);
    assert HasCloserSeed(g0, g1, rank, i, j);
    if Closer(g0, g1, rank, i, j, i - 1, j) {
      ReachedStep(g0, g1, g2, r, c, rank, i, j, i - 1, j);
    } else if Closer(g0, g1, rank, i, j, i + 1, j) {
      ReachedStep(g0, g1, g2, r, c, rank, i, j, i + 1, j);
    } else if Closer(g0, g1, rank, i, j, i, j - 1) {
      ReachedStep(g0, g1, g2, r, c, rank, i, j, i, j - 1);
    } else {
      ReachedStep(g0, g1, g2, r, c, rank, i, j, i, j + 1);
    }
  }

  /**
   * (i, j) sits next to a closer 0-cell (p, q) of the first fill; the other
   * fill revealed (p, q) too, so it cannot have left (i, j) hidden.
   */
  lemma {:induction false} ReachedStep(g0: Board, g1: Board, g2: Board, r: int, c: int,
                                       rank: map<Coord, nat>, i: int, j: int, p: int, q: int)
    requires (i, j) == (p - 1, q) || (i, j) == (p + 1, q) || (i, j) == (p, q - 1) || (i, j) == (p, q + 1)
    requires HiddenSafeAt(g0, r, c) && OnlyReveals(g0, g2) && Settled(g2, r, c) && Closed(g0, g2)
    requires OnlyReveals(g0, g1) && RankedFrom(g0, g1, r, c, rank)
    requires NewlyRevealed(g0, g1, i, j) && Closer(g0, g1, rank, i, j, p, q)
    ensures NewlyRevealed(g0, g2, i, j)
    decreases rank[(i, j)], 0
  {
    ReachedRevealed(g0, g1, g2, r, c, rank, p, q);
    assert InBounds(g0, p, q) && InBounds(g0, i, j);
    assert g0[p][q].adjacentBombs == g1[p][q].adjacentBombs == 0;
    assert IsHiddenSafe(g0[i][j]);
    NextToSeed(g0, g2, i, j, p, q);
  }

  /** A hidden safe cell next to a 0-cell that a closed fill revealed is revealed by it. */
  lemma NextToSeed(g0: Board, g2: Board, i: int, j: int, p: int, q: int)
    requires (i, j) == (p - 1, q) || (i, j) == (p + 1, q) || (i, j) == (p, q - 1) || (i, j) == (p, q + 1)
    requires OnlyReveals(g0, g2) && Closed(g0, g2)
    requires NewlyRevealed(g0, g2, p, q) && g0[p][q].adjacentBombs == 0
    requires InBounds(g0, i, j) && IsHiddenSafe(g0[i][j])
    ensures NewlyRevealed(g0, g2, i, j)
  {
    assert ZeroSeed(g0, g2, p, q);
    assert Settled(g2, i, j);
  }
}

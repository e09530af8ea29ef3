/**
 * Mine placement by rejection sampling (`placeBombs`). The random draws are
 * an input: `picks` lists the positions `Math.random` yields, in order.
 *
 * `DrawBombs` is what the placement loop computes from a board, the draws
 * still to come and the number of bombs still to place; `DrawBombsPlaces`
 * proves what that means for the set of bomb positions.
 */
module Mines {
  import opened Grid

  /** The positions among the draws. */
  function PickSet(picks: seq<Coord>): set<Coord> {
    set k | 0 <= k < |picks| :: picks[k]
  }

  /** Every draw lies on the board, as `Math.floor(Math.random() * rows)` and its column twin do. */
  predicate DrawsInBounds(g: Board, picks: seq<Coord>) {
    forall k | 0 <= k < |picks| :: InBounds(g, picks[k].0, picks[k].1)
  }

  /**
   * The board after drawing from `picks` until `n` more bombs are placed or
   * the draws run out: a draw on a cell without a bomb makes it a bomb, a
   * draw on a bomb is wasted.
   */
  function DrawBombs(g: Board, picks: seq<Coord>, n: nat): Board
    requires DrawsInBounds(g, picks)
    decreases |picks|
  {
    if n == 0 || picks == [] then g
    else if g[picks[0].0][picks[0].1].isBomb then DrawBombs(g, picks[1..], n)
    else DrawBombs(Arm(g, picks[0]), picks[1..], n - 1)
  }

  /** The board with a bomb put on cell `p`. */
  function Arm(g: Board, p: Coord): (r: Board)
    requires InBounds(g, p.0, p.1)
    ensures SameShape(g, r)
  {
    Put(g, p.0, p.1, g[p.0][p.1].(isBomb := true))
  }

  lemma PickSetCons(picks: seq<Coord>)
    requires picks != []
    ensures PickSet(picks) == PickSet(picks[1..]) + {picks[0]}
  {
    assert picks == [picks[0]] + picks[1..];
  }

  /** Arming a cell without a bomb adds exactly that position to the bombs. */
  lemma ArmBombs(g: Board, p: Coord)
    requires InBounds(g, p.0, p.1) && !g[p.0][p.1].isBomb
    ensures BombCells(Arm(g, p)) == BombCells(g) + {p}
    ensures p !in BombCells(g)
  {
    CellsWherePut(g, p.0, p.1, g[p.0][p.1].(isBomb := true), IsBomb);
  }

  /** The remaining draws stay on a board of the same shape. */
  lemma DrawsInBoundsRest(g: Board, g': Board, picks: seq<Coord>)
    requires DrawsInBounds(g, picks) && picks != [] && SameShape(g, g')
    ensures DrawsInBounds(g', picks[1..])
  {
    forall k | 0 <= k < |picks| - 1 ensures InBounds(g', picks[1..][k].0, picks[1..][k].1) {
      assert picks[1..][k] == picks[k + 1];
    }
  }

  /** Placement keeps the board's shape and changes nothing but bomb flags. */
  lemma {:induction false} DrawBombsOnlyArms(g: Board, picks: seq<Coord>, n: nat)
    requires DrawsInBounds(g, picks)
    ensures SameShape(g, DrawBombs(g, picks, n))
    ensures forall i, j | InBounds(g, i, j) ::
      DrawBombs(g, picks, n)[i][j] == g[i][j].(isBomb := DrawBombs(g, picks, n)[i][j].isBomb)
    decreases |picks|
  {
    if picks != [] && n != 0 {
      if g[picks[0].0][picks[0].1].isBomb {
        DrawsInBoundsRest(g, g, picks);
        DrawBombsOnlyArms(g, picks[1..], n);
      } else {
        var g' := Arm(g, picks[0]);
        DrawsInBoundsRest(g, g', picks);
        DrawBombsOnlyArms(g', picks[1..], n - 1);
      }
    }
  }

  /**
   * What placement promises about the bomb positions: `b0` before, `b` after,
   * `drawn` the drawn positions, `n` the bombs asked for.
   */
  ghost predicate Placed(b0: set<Coord>, b: set<Coord>, drawn: set<Coord>, n: nat) {
    && b0 <= b <= b0 + drawn
    && (|drawn - b0| >= n ==> |b| == |b0| + n)
    && (|drawn - b0| < n ==> b == b0 + drawn)
  }

  /**
   * Placement only adds bombs, and only on drawn cells; it adds exactly `n`
   * bombs when the draws hit at least `n` distinct cells without a bomb, and
   * otherwise turns every drawn cell into a bomb.
   */
  lemma {:induction false} DrawBombsPlaces(g: Board, picks: seq<Coord>, n: nat)
    requires DrawsInBounds(g, picks)
    ensures Placed(BombCells(g), BombCells(DrawBombs(g, picks, n)), PickSet(picks), n)
    decreases |picks|, 1
  {
    if picks == [] {
      assert PickSet(picks) == {};
      PlacedNothing(BombCells(g), {}, n);
    } else if n == 0 {
      PlacedNothing(BombCells(g), PickSet(picks), n);
    } else if g[picks[0].0][picks[0].1].isBomb {
      DrawWasted(g, picks, n);
    } else {
      DrawArmed(g, picks, n);
    }
  }

  /** The first draw hits a bomb: the rest of the draws do all the work. */
  lemma {:induction false} DrawWasted(g: Board, picks: seq<Coord>, n: nat)
    requires DrawsInBounds(g, picks) && picks != [] && n > 0
    requires g[picks[0].0][picks[0].1].isBomb
    ensures Placed(BombCells(g), BombCells(DrawBombs(g, picks, n)), PickSet(picks), n)
    decreases |picks|, 0
  {
    var rest := picks[1..];
    DrawsInBoundsRest(g, g, picks);
    DrawBombsPlaces(g, rest, n);
    assert picks[0] in BombCells(g);
    PickSetCons(picks);
    PlacedWasted(BombCells(g), BombCells(DrawBombs(g, rest, n)), PickSet(rest), picks[0], n);
  }

  /** The first draw hits a cell without a bomb: it is armed, and one bomb fewer is left to place. */
  lemma {:induction false} DrawArmed(g: Board, picks: seq<Coord>, n: nat)
    requires DrawsInBounds(g, picks) && picks != [] && n > 0
    requires !g[picks[0].0][picks[0].1].isBomb
    ensures Placed(BombCells(g), BombCells(DrawBombs(g, picks, n)), PickSet(picks), n)
    decreases |picks|, 0
  {
    var rest, m := picks[1..], n - 1;
    var g' := Arm(g, picks[0]);
    DrawsInBoundsRest(g, g', picks);
    DrawBombsPlaces(g', rest, m);
    var b := BombCells(DrawBombs(g', rest, m));
    assert Placed(BombCells(g'), b, PickSet(rest), m);
    ArmBombs(g, picks[0]);
    PickSetCons(picks);
    PlacedArmed(BombCells(g), BombCells(g'), b, PickSet(rest), picks[0], n);
  }

  lemma PlacedNothing(b0: set<Coord>, drawn: set<Coord>, n: nat)
    requires drawn == {} || n == 0
    ensures Placed(b0, b0, drawn, n)
  {
    if drawn == {} {
      assert drawn - b0 == {};
    }
  }

  /** A draw on a bomb changes nothing. */
  lemma PlacedWasted(b0: set<Coord>, b: set<Coord>, rest: set<Coord>, x: Coord, n: nat)
    requires x in b0 && Placed(b0, b, rest, n)
    ensures Placed(b0, b, rest + {x}, n)
  {
    assert (rest + {x}) - b0 == rest - b0;
  }

  /** A draw on a cell without a bomb arms it and leaves one bomb fewer to place. */
  lemma PlacedArmed(b0: set<Coord>, b1: set<Coord>, b: set<Coord>, rest: set<Coord>, x: Coord, n: nat)
    requires x !in b0 && b1 == b0 + {x} && n > 0 && Placed(b1, b, rest, n - 1)
    ensures Placed(b0, b, rest + {x}, n)
  {
    var open0, open1 := (rest + {x}) - b0, rest - (b0 + {x});
    assert open0 == open1 + {x} && x !in open1;
    assert |b0 + {x}| == |b0| + 1;
  }
}

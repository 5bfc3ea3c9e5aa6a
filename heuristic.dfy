/** The static evaluation of AIPlayer.evaluate, as pure functions over a grid. */
module Heuristic {
  import opened Rules

  /** Points for a run of `count` stones, in the "open" column iff openEnds >= 1. */
  function Table(count: int, openEnds: int): int
  {
    if count == 2 then (if openEnds >= 1 then 50 else 10)
    else if count == 3 then (if openEnds >= 1 then 500 else 100)
    else if count == 4 then (if openEnds >= 1 then 5000 else 1000)
    else if count >= 5 then 100000
    else 0
  }

  /** v * multiplier, where the multiplier is 1 for the AI (2) and -1 otherwise. */
  function Signed(p: int, v: int): int
  {
    if p == 2 then v else -v
  }

  /** Signed is multiplication by the multiplier. */
  lemma SignedIsProduct(p: int, v: int, multiplier: int)
    requires multiplier == if p == 2 then 1 else -1
    ensures v * multiplier == Signed(p, v)
  {
    if p == 2 {
      assert multiplier == 1;
    } else {
      assert multiplier == -1;
    }
  }

  /** The counters after looking at window position (nx, ny): `count` resets on a mismatch or
      off the board, `openEnds` grows on every empty cell and is never reset. */
  function NextCount(g: Grid, nx: int, ny: int, p: int, count: int): int
    requires WellFormed(g)
  {
    if InRange(nx, ny) && At(g, nx, ny) == p then count + 1 else 0
  }

  function NextOpen(g: Grid, nx: int, ny: int, p: int, openEnds: int): int
    requires WellFormed(g)
  {
    if InRange(nx, ny) && At(g, nx, ny) != p && At(g, nx, ny) == 0 then openEnds + 1 else openEnds
  }

  /** Unsigned points of window positions i..4 of the 9-cell window through (x, y). */
  function Window(g: Grid, x: int, y: int, dx: int, dy: int, p: int, i: int, count: int, openEnds: int): int
    requires WellFormed(g) && -4 <= i <= 5
    decreases 5 - i, g
  {
    if i == 5 then 0
    else
      var nx, ny := Along(x, i, dx), Along(y, i, dy);
      var c, o := NextCount(g, nx, ny, p, count), NextOpen(g, nx, ny, p, openEnds);
      Table(c, o) + Window(g, x, y, dx, dy, p, i + 1, c, o)
  }

  /** Unsigned points of one direction for the stone at (x, y): the window, plus the centre bonus
      that sits inside the direction loop. */
  function DirScore(g: Grid, x: int, y: int, dx: int, dy: int, p: int): int
    requires WellFormed(g) && InRange(x, y)
  {
    Window(g, x, y, dx, dy, p, -4, 0, 0) + (if Central(x, y) && At(g, x, y) == p then 5 else 0)
  }

  /** Unsigned points of the directions Dir(k), ..., Dir(3) for the stone at (x, y). */
  function DirsFrom(g: Grid, x: int, y: int, p: int, k: int): int
    requires WellFormed(g) && InRange(x, y) && 0 <= k <= 4
    decreases 4 - k, g
  {
    if k == 4 then 0 else DirScore(g, x, y, Dir(k).0, Dir(k).1, p) + DirsFrom(g, x, y, p, k + 1)
  }

  /** Signed contribution of cell (x, y) over the four directions; 0 for an empty cell. */
  function CellScore(g: Grid, x: int, y: int): int
    requires WellFormed(g) && InRange(x, y)
  {
    var p := At(g, x, y);
    if p == 0 then 0 else Signed(p, DirsFrom(g, x, y, p, 0))
  }

  /** Sum of CellScore over the cells from (x, y) on, in row-major order. */
  function EvalFrom(g: Grid, y: int, x: int): int
    requires WellFormed(g) && 0 <= y <= 15 && 0 <= x <= 15
    decreases |g| - 15 * y, 15 - x
  {
    if y == 15 then 0
    else if x == 15 then EvalFrom(g, y + 1, 0)
    else CellScore(g, x, y) + EvalFrom(g, y, x + 1)
  }

  /** evaluate() */
  function Evaluate(g: Grid): int
    requires WellFormed(g)
  {
    EvalFrom(g, 0, 0)
  }

  // ---------------------------------------------------------------------
  // Properties of evaluate

  /** Window points are never negative: every table entry is. */
  lemma {:induction false} WindowNonneg(g: Grid, x: int, y: int, dx: int, dy: int, p: int, i: int, count: int, openEnds: int)
    requires WellFormed(g) && -4 <= i <= 5
    ensures Window(g, x, y, dx, dy, p, i, count, openEnds) >= 0
    decreases 5 - i
  {
    if i < 5 {
      var nx, ny := Along(x, i, dx), Along(y, i, dy);
      WindowNonneg(g, x, y, dx, dy, p, i + 1, NextCount(g, nx, ny, p, count), NextOpen(g, nx, ny, p, openEnds));
    }
  }

  /** The unsigned points of a stone's directions are never negative. */
  lemma {:induction false} DirsFromNonneg(g: Grid, x: int, y: int, p: int, k: int)
    requires WellFormed(g) && InRange(x, y) && 0 <= k <= 4
    ensures DirsFrom(g, x, y, p, k) >= 0
    decreases 4 - k
  {
    if k < 4 {
      WindowNonneg(g, x, y, Dir(k).0, Dir(k).1, p, -4, 0, 0);
      DirsFromNonneg(g, x, y, p, k + 1);
    }
  }

  /** A cell contributes with the sign of its owner: never negative for an AI stone, never
      positive for any other content (the multiplier is -1 for everything but 2). */
  lemma CellScoreSign(g: Grid, x: int, y: int)
    requires WellFormed(g) && InRange(x, y)
    ensures At(g, x, y) == 2 ==> CellScore(g, x, y) >= 0
    ensures At(g, x, y) != 2 ==> CellScore(g, x, y) <= 0
  {
    DirsFromNonneg(g, x, y, At(g, x, y), 0);
  }

  /** The sum from (x, y) on has the sign of the stones on the board. */
  lemma {:induction false} EvalFromSign(g: Grid, y: int, x: int)
    requires WellFormed(g) && 0 <= y <= 15 && 0 <= x <= 15
    ensures (forall i :: 0 <= i < |g| ==> g[i] == 0 || g[i] == 2) ==> EvalFrom(g, y, x) >= 0
    ensures (forall i :: 0 <= i < |g| ==> g[i] != 2) ==> EvalFrom(g, y, x) <= 0
    decreases |g| - 15 * y, 15 - x
  {
    if y == 15 {
    } else if x == 15 {
      EvalFromSign(g, y + 1, 0);
    } else {
      CellScoreSign(g, x, y);
      EvalFromSign(g, y, x + 1);
    }
  }

  /** evaluate() is never negative on a board holding only AI stones and never positive on a
      board holding no AI stone; in particular it is 0 on the empty board. */
  lemma EvaluateSign(g: Grid)
    requires WellFormed(g)
    ensures (forall i :: 0 <= i < |g| ==> g[i] == 0 || g[i] == 2) ==> Evaluate(g) >= 0
    ensures (forall i :: 0 <= i < |g| ==> g[i] != 2) ==> Evaluate(g) <= 0
    ensures g == Empty() ==> Evaluate(g) == 0
  {
    EvalFromSign(g, 0, 0);
  }

  /** In the window through a lone p-stone the run never reaches 2, so no table entry scores. */
  lemma {:induction false} LoneWindow(g: Grid, x: int, y: int, dx: int, dy: int, p: int, i: int, count: int, openEnds: int)
    requires WellFormed(g) && IsDir(dx, dy) && -4 <= i <= 5
    requires forall x', y' :: InRange(x', y') && (x', y') != (x, y) ==> At(g, x', y') != p
    requires 0 <= count <= 1 && (i <= 0 ==> count == 0)
    ensures Window(g, x, y, dx, dy, p, i, count, openEnds) == 0
    decreases 5 - i
  {
    if i < 5 {
      var nx, ny := Along(x, i, dx), Along(y, i, dy);
      if i != 0 {
        assert (nx, ny) != (x, y);
      }
      LoneWindow(g, x, y, dx, dy, p, i + 1, NextCount(g, nx, ny, p, count), NextOpen(g, nx, ny, p, openEnds));
    }
  }

  /** A lone p-stone earns, over the directions k..3, only the centre bonus once per direction. */
  lemma {:induction false} LoneDirs(g: Grid, x: int, y: int, p: int, k: int)
    requires WellFormed(g) && InRange(x, y) && 0 <= k <= 4 && At(g, x, y) == p
    requires forall x', y' :: InRange(x', y') && (x', y') != (x, y) ==> At(g, x', y') != p
    ensures DirsFrom(g, x, y, p, k) == (4 - k) * (if Central(x, y) then 5 else 0)
    decreases 4 - k
  {
    if k < 4 {
      LoneWindow(g, x, y, Dir(k).0, Dir(k).1, p, -4, 0, 0);
      LoneDirs(g, x, y, p, k + 1);
    }
  }

  /** On a board whose only possibly non-empty cell is (x, y), the sum from (x0, y0) on is that
      cell's score if the scan still reaches it, and 0 otherwise. */
  lemma {:induction false} LoneEvalFrom(g: Grid, x: int, y: int, y0: int, x0: int)
    requires WellFormed(g) && InRange(x, y) && 0 <= y0 <= 15 && 0 <= x0 <= 15
    requires forall x', y' :: InRange(x', y') && (x', y') != (x, y) ==> At(g, x', y') == 0
    ensures EvalFrom(g, y0, x0) == if Before(x, y, x0, y0) then 0 else CellScore(g, x, y)
    decreases |g| - 15 * y0, 15 - x0
  {
    if y0 == 15 {
    } else if x0 == 15 {
      LoneEvalFrom(g, x, y, y0 + 1, 0);
    } else {
      LoneEvalFrom(g, x, y, y0, x0 + 1);
    }
  }

  /** A board holding a single stone scores only its centre bonus, which sits inside the
      direction loop and so counts four times: +-20 on the 25 central cells, 0 elsewhere. */
  lemma LoneStone(x: int, y: int, p: int)
    requires InRange(x, y) && p != 0
    ensures Evaluate(Place(Empty(), x, y, p)) == Signed(p, if Central(x, y) then 20 else 0)
  {
    var g := Place(Empty(), x, y, p);
    LoneDirs(g, x, y, p, 0);
    LoneEvalFrom(g, x, y, 0, 0);
  }
}

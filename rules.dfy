/** Board geometry and the pure meaning of the board queries of gomoku_board.py.
    A grid is the 15x15 board flattened row by row: cell (x, y) is g[y * 15 + x],
    so the row-major order of every scan in the source is the order of the sequence.
    Cell values: 0 empty, 1 human, 2 AI. */
module Rules {

  datatype Option<T> = None | Some(value: T)

  /** GRID_SIZE */
  const N: int := 15
  /** size // 2 */
  const Centre: int := 7

  type Grid = seq<int>
  type Coord = (int, int)

  predicate WellFormed(g: Grid) { |g| == 225 }

  predicate InRange(x: int, y: int) { 0 <= x < 15 && 0 <= y < 15 }

  function Index(x: int, y: int): (i: int)
    requires InRange(x, y)
    ensures 0 <= i < 225
  {
    y * 15 + x
  }

  function At(g: Grid, x: int, y: int): int
    requires WellFormed(g) && InRange(x, y)
  {
    g[Index(x, y)]
  }

  /** The grid with cell (x, y) overwritten by v. */
  function Place(g: Grid, x: int, y: int, v: int): (r: Grid)
    requires WellFormed(g) && InRange(x, y)
    ensures WellFormed(r) && At(r, x, y) == v
    ensures forall x', y' :: InRange(x', y') && (x', y') != (x, y) ==> At(r, x', y') == At(g, x', y')
  {
    g[Index(x, y) := v]
  }

  /** The empty board. */
  function Empty(): (g: Grid)
    ensures WellFormed(g) && forall i :: 0 <= i < |g| ==> g[i] == 0
  {
    seq(225, _ => 0)
  }

  predicate AllInRange(moves: seq<Coord>)
  {
    forall i :: 0 <= i < |moves| ==> InRange(moves[i].0, moves[i].1)
  }

  /** is_valid_move */
  predicate IsValidMove(g: Grid, x: int, y: int)
    requires WellFormed(g)
  {
    InRange(x, y) && At(g, x, y) == 0
  }

  /** The 5x5 centre region used by both evaluate and order_moves. */
  predicate Central(x: int, y: int) { 5 <= x <= 9 && 5 <= y <= 9 }

  // ---------------------------------------------------------------------
  // Lines and check_win

  /** A step direction: each component in {-1, 0, 1}, not both zero. */
  predicate IsDir(dx: int, dy: int) { -1 <= dx <= 1 && -1 <= dy <= 1 && (dx != 0 || dy != 0) }

  /** The k-th of the four axes [(1, 0), (0, 1), (1, 1), (1, -1)] scanned by check_win and
      evaluate: horizontal, vertical and the two diagonals. */
  function Dir(k: int): (d: (int, int))
    requires 0 <= k < 4
    ensures IsDir(d.0, d.1)
  {
    if k == 0 then (1, 0) else if k == 1 then (0, 1) else if k == 2 then (1, 1) else (1, -1)
  }

  /** c + i * d for a direction component d in {-1, 0, 1}, kept linear. */
  function Along(c: int, i: int, d: int): int
  {
    if d > 0 then c + i else if d < 0 then c - i else c
  }

  /** Along is the product form c + i * d used by the source. */
  lemma AlongIsProduct(c: int, i: int, d: int)
    requires -1 <= d <= 1
    ensures c + i * d == Along(c, i, d)
  {
    if d == 1 {
    } else if d == -1 {
    } else {
    }
  }

  /** The re-indexings between a five that starts a steps behind c and the two runs that
      check_win counts from the neighbours c + d and c - d. */
  lemma AlongShifts(c: int, d: int, a: int, i: int)
    requires -1 <= d <= 1
    ensures Along(c - d, a - i - 1, -d) == Along(Along(c, -a, d), i, d)
    ensures Along(c + d, i - a - 1, d) == Along(Along(c, -a, d), i, d)
    ensures Along(Along(c, -a, d), a, d) == c
    ensures Along(c + d, i, d) == Along(Along(c, -a, d), i + a + 1, d)
    ensures Along(c - d, i, -d) == Along(Along(c, -a, d), a - i - 1, d)
  {
  }

  /** How many more steps along d can stay on the board from c (a termination measure). */
  function Reach(c: int, d: int): int
  {
    if d > 0 then 15 - c else if d < 0 then c + 1 else 0
  }

  predicate Owns(g: Grid, x: int, y: int, p: int)
    requires WellFormed(g)
  {
    InRange(x, y) && At(g, x, y) == p
  }

  /** Number of consecutive on-board cells owned by p, starting AT (x, y) and stepping by (dx, dy). */
  function Stretch(g: Grid, x: int, y: int, dx: int, dy: int, p: int): nat
    requires WellFormed(g) && IsDir(dx, dy)
    decreases Reach(x, dx) + Reach(y, dy)
  {
    if Owns(g, x, y, p) then 1 + Stretch(g, x + dx, y + dy, dx, dy, p) else 0
  }

  /** count(dx, dy) + count(-dx, -dy) + 1 inside check_win: the cell itself is always counted. */
  function LineLength(g: Grid, x: int, y: int, dx: int, dy: int, p: int): nat
    requires WellFormed(g) && IsDir(dx, dy)
  {
    Stretch(g, x + dx, y + dy, dx, dy, p) + Stretch(g, x - dx, y - dy, -dx, -dy, p) + 1
  }

  /** check_win(x, y, p): some axis has a line of length >= 5 through (x, y). */
  predicate Wins(g: Grid, x: int, y: int, p: int)
    requires WellFormed(g)
  {
    exists k :: 0 <= k < 4 && LineLength(g, x, y, Dir(k).0, Dir(k).1, p) >= 5
  }

  // ---------------------------------------------------------------------
  // Properties of check_win

  /** A stretch of at least n covers n owned cells. */
  lemma {:induction false} StretchCovers(g: Grid, x: int, y: int, dx: int, dy: int, p: int, n: nat)
    requires WellFormed(g) && IsDir(dx, dy) && Stretch(g, x, y, dx, dy, p) >= n
    ensures forall i :: 0 <= i < n ==> Owns(g, Along(x, i, dx), Along(y, i, dy), p)
    decreases n
  {
    if n > 0 {
      var x1, y1 := x + dx, y + dy;
      StretchCovers(g, x1, y1, dx, dy, p, n - 1);
      forall i | 0 <= i < n
        ensures Owns(g, Along(x, i, dx), Along(y, i, dy), p)
      {
        if i > 0 {
          assert Owns(g, Along(x1, i - 1, dx), Along(y1, i - 1, dy), p);
        }
      }
    }
  }

  /** n owned cells in a row make a stretch of at least n. */
  lemma {:induction false} CoveredStretch(g: Grid, x: int, y: int, dx: int, dy: int, p: int, n: nat)
    requires WellFormed(g) && IsDir(dx, dy)
    requires forall i :: 0 <= i < n ==> Owns(g, Along(x, i, dx), Along(y, i, dy), p)
    ensures Stretch(g, x, y, dx, dy, p) >= n
    decreases n
  {
    if n > 0 {
      var x1, y1 := x + dx, y + dy;
      assert Owns(g, Along(x, 0, dx), Along(y, 0, dy), p);
      forall i | 0 <= i < n - 1
        ensures Owns(g, Along(x1, i, dx), Along(y1, i, dy), p)
      {
        assert Owns(g, Along(x, i + 1, dx), Along(y, i + 1, dy), p);
      }
      CoveredStretch(g, x1, y1, dx, dy, p, n - 1);
    }
  }

  /** Stretch measures a run: it is at least n exactly when the n cells from (x, y) on, stepping
      by (dx, dy), are all on the board and owned by p. */
  lemma StretchRun(g: Grid, x: int, y: int, dx: int, dy: int, p: int, n: nat)
    requires WellFormed(g) && IsDir(dx, dy)
    ensures Stretch(g, x, y, dx, dy, p) >= n <==>
            forall i :: 0 <= i < n ==> Owns(g, Along(x, i, dx), Along(y, i, dy), p)
  {
    if Stretch(g, x, y, dx, dy, p) >= n {
      StretchCovers(g, x, y, dx, dy, p, n);
    }
    if forall i :: 0 <= i < n ==> Owns(g, Along(x, i, dx), Along(y, i, dy), p) {
      CoveredStretch(g, x, y, dx, dy, p, n);
    }
  }

  /** Five consecutive cells from (x, y) on, stepping by (dx, dy), all on the board and owned by p. */
  predicate FiveFrom(g: Grid, x: int, y: int, dx: int, dy: int, p: int)
    requires WellFormed(g)
  {
    forall i :: 0 <= i < 5 ==> Owns(g, Along(x, i, dx), Along(y, i, dy), p)
  }

  /** Five p-stones in a row along (dx, dy) that start a steps behind (x, y), so cover it. */
  predicate FiveThrough(g: Grid, x: int, y: int, dx: int, dy: int, p: int, a: int)
    requires WellFormed(g)
  {
    FiveFrom(g, Along(x, -a, dx), Along(y, -a, dy), dx, dy, p)
  }

  /** The back run of check_win from (x - dx, y - dy) covers the first a cells of the five
      that starts at (sx, sy), a steps behind (x, y), when it is at least a long. */
  lemma BackCells(g: Grid, x: int, y: int, dx: int, dy: int, p: int, a: int, sx: int, sy: int)
    requires WellFormed(g) && IsDir(dx, dy) && 0 <= a <= Stretch(g, x - dx, y - dy, -dx, -dy, p)
    requires sx == Along(x, -a, dx) && sy == Along(y, -a, dy)
    ensures forall i :: 0 <= i < a ==> Owns(g, Along(sx, i, dx), Along(sy, i, dy), p)
  {
    StretchCovers(g, x - dx, y - dy, -dx, -dy, p, a);
    forall i | 0 <= i < a
      ensures Owns(g, Along(sx, i, dx), Along(sy, i, dy), p)
    {
      AlongShifts(x, dx, a, i);
      AlongShifts(y, dy, a, i);
      assert Owns(g, Along(x - dx, a - i - 1, -dx), Along(y - dy, a - i - 1, -dy), p);
    }
  }

  /** The forward run of check_win from (x + dx, y + dy) covers the cells after (x, y) of the
      five that starts at (sx, sy), a steps behind (x, y), when it is at least 4 - a long. */
  lemma FrontCells(g: Grid, x: int, y: int, dx: int, dy: int, p: int, a: int, sx: int, sy: int)
    requires WellFormed(g) && IsDir(dx, dy) && 0 <= a <= 4 && Stretch(g, x + dx, y + dy, dx, dy, p) >= 4 - a
    requires sx == Along(x, -a, dx) && sy == Along(y, -a, dy)
    ensures forall i :: a < i < 5 ==> Owns(g, Along(sx, i, dx), Along(sy, i, dy), p)
  {
    StretchCovers(g, x + dx, y + dy, dx, dy, p, 4 - a);
    forall i | a < i < 5
      ensures Owns(g, Along(sx, i, dx), Along(sy, i, dy), p)
    {
      AlongShifts(x, dx, a, i);
      AlongShifts(y, dy, a, i);
      assert Owns(g, Along(x + dx, i - a - 1, dx), Along(y + dy, i - a - 1, dy), p);
    }
  }

  /** A check_win count of 5 on one axis gives five p-stones in a row covering the p-stone at (x, y). */
  lemma LineToFive(g: Grid, x: int, y: int, dx: int, dy: int, p: int) returns (a: int)
    requires WellFormed(g) && IsDir(dx, dy) && Owns(g, x, y, p)
    requires LineLength(g, x, y, dx, dy, p) >= 5
    ensures 0 <= a <= 4 && FiveThrough(g, x, y, dx, dy, p, a)
  {
    var b := Stretch(g, x - dx, y - dy, -dx, -dy, p);
    a := if b < 4 then b else 4;
    var sx, sy := Along(x, -a, dx), Along(y, -a, dy);
    BackCells(g, x, y, dx, dy, p, a, sx, sy);
    FrontCells(g, x, y, dx, dy, p, a, sx, sy);
    AlongShifts(x, dx, a, a);
    AlongShifts(y, dy, a, a);
    assert Owns(g, Along(sx, a, dx), Along(sy, a, dy), p);
  }

  /** The cells after (x, y) of a five that starts at (sx, sy), a steps behind (x, y), make the
      forward run of check_win at least 4 - a long. */
  lemma FrontRun(g: Grid, x: int, y: int, dx: int, dy: int, p: int, a: int, sx: int, sy: int)
    requires WellFormed(g) && IsDir(dx, dy) && 0 <= a <= 4 && FiveFrom(g, sx, sy, dx, dy, p)
    requires sx == Along(x, -a, dx) && sy == Along(y, -a, dy)
    ensures Stretch(g, x + dx, y + dy, dx, dy, p) >= 4 - a
  {
    var xf, yf := x + dx, y + dy;
    forall i | 0 <= i < 4 - a
      ensures Owns(g, Along(xf, i, dx), Along(yf, i, dy), p)
    {
      AlongShifts(x, dx, a, i);
      AlongShifts(y, dy, a, i);
      assert Owns(g, Along(sx, i + a + 1, dx), Along(sy, i + a + 1, dy), p);
    }
    CoveredStretch(g, xf, yf, dx, dy, p, 4 - a);
  }

  /** The cells before (x, y) of a five that starts at (sx, sy), a steps behind (x, y), make the
      back run of check_win at least a long. */
  lemma BackRun(g: Grid, x: int, y: int, dx: int, dy: int, p: int, a: int, sx: int, sy: int)
    requires WellFormed(g) && IsDir(dx, dy) && 0 <= a <= 4 && FiveFrom(g, sx, sy, dx, dy, p)
    requires sx == Along(x, -a, dx) && sy == Along(y, -a, dy)
    ensures Stretch(g, x - dx, y - dy, -dx, -dy, p) >= a
  {
    var xb, yb, ex, ey := x - dx, y - dy, -dx, -dy;
    forall i | 0 <= i < a
      ensures Owns(g, Along(xb, i, ex), Along(yb, i, ey), p)
    {
      AlongShifts(x, dx, a, i);
      AlongShifts(y, dy, a, i);
      assert Owns(g, Along(sx, a - i - 1, dx), Along(sy, a - i - 1, dy), p);
    }
    CoveredStretch(g, xb, yb, ex, ey, p, a);
  }

  /** Five p-stones in a row covering (x, y) give a check_win count of at least 5 on that axis. */
  lemma FiveToLine(g: Grid, x: int, y: int, dx: int, dy: int, p: int, a: int)
    requires WellFormed(g) && IsDir(dx, dy) && 0 <= a <= 4 && FiveThrough(g, x, y, dx, dy, p, a)
    ensures LineLength(g, x, y, dx, dy, p) >= 5
  {
    var sx, sy := Along(x, -a, dx), Along(y, -a, dy);
    assert FiveFrom(g, sx, sy, dx, dy, p);
    FrontRun(g, x, y, dx, dy, p, a, sx, sy);
    BackRun(g, x, y, dx, dy, p, a, sx, sy);
  }

  /** check_win through a p-stone is an independent five-in-a-row test: it holds exactly when,
      on one of the four axes, five p-stones in a row cover (x, y). */
  lemma WinsIffFive(g: Grid, x: int, y: int, p: int)
    requires WellFormed(g) && Owns(g, x, y, p)
    ensures Wins(g, x, y, p) <==>
            exists k, a :: 0 <= k < 4 && 0 <= a <= 4 && FiveThrough(g, x, y, Dir(k).0, Dir(k).1, p, a)
  {
    if Wins(g, x, y, p) {
      var k :| 0 <= k < 4 && LineLength(g, x, y, Dir(k).0, Dir(k).1, p) >= 5;
      var a := LineToFive(g, x, y, Dir(k).0, Dir(k).1, p);
    }
    if exists k, a :: 0 <= k < 4 && 0 <= a <= 4 && FiveThrough(g, x, y, Dir(k).0, Dir(k).1, p, a) {
      var k, a :| 0 <= k < 4 && 0 <= a <= 4 && FiveThrough(g, x, y, Dir(k).0, Dir(k).1, p, a);
      FiveToLine(g, x, y, Dir(k).0, Dir(k).1, p, a);
    }
  }

  /** c lies strictly behind x along the direction component d (level with it when d is 0). */
  predicate Behind(c: int, x: int, d: int) { if d > 0 then c < x else if d < 0 then c > x else c == x }

  /** A run that starts ahead of (cx, cy) and moves away from it never looks at (cx, cy), so
      overwriting that cell does not change it. */
  lemma {:induction false} StretchAway(g: Grid, cx: int, cy: int, v: int, x: int, y: int, dx: int, dy: int, p: int)
    requires WellFormed(g) && InRange(cx, cy) && IsDir(dx, dy) && Behind(cx, x, dx) && Behind(cy, y, dy)
    ensures Stretch(Place(g, cx, cy, v), x, y, dx, dy, p) == Stretch(g, x, y, dx, dy, p)
    decreases Reach(x, dx) + Reach(y, dy)
  {
    if Owns(g, x, y, p) {
      StretchAway(g, cx, cy, v, x + dx, y + dy, dx, dy, p);
    }
  }

  /** In particular the run that starts next to (cx, cy) does not read (cx, cy). */
  lemma StretchFromNext(g: Grid, cx: int, cy: int, v: int, dx: int, dy: int, p: int)
    requires WellFormed(g) && InRange(cx, cy) && IsDir(dx, dy)
    ensures Stretch(Place(g, cx, cy, v), cx + dx, cy + dy, dx, dy, p) == Stretch(g, cx + dx, cy + dy, dx, dy, p)
  {
    StretchAway(g, cx, cy, v, cx + dx, cy + dy, dx, dy, p);
  }

  /** The check_win count along one axis through (x, y) does not read cell (x, y). */
  lemma LineIgnoresOwnCell(g: Grid, x: int, y: int, dx: int, dy: int, p: int, v: int)
    requires WellFormed(g) && InRange(x, y) && IsDir(dx, dy)
    ensures LineLength(Place(g, x, y, v), x, y, dx, dy, p) == LineLength(g, x, y, dx, dy, p)
  {
    StretchFromNext(g, x, y, v, dx, dy, p);
    StretchFromNext(g, x, y, v, -dx, -dy, p);
  }

  /** check_win(x, y, p) never reads cell (x, y): its outcome is the same whatever that cell holds. */
  lemma WinsIgnoresOwnCell(g: Grid, x: int, y: int, p: int, v: int)
    requires WellFormed(g) && InRange(x, y)
    ensures Wins(Place(g, x, y, v), x, y, p) <==> Wins(g, x, y, p)
  {
    forall k | 0 <= k < 4
      ensures LineLength(Place(g, x, y, v), x, y, Dir(k).0, Dir(k).1, p) == LineLength(g, x, y, Dir(k).0, Dir(k).1, p)
    {
      LineIgnoresOwnCell(g, x, y, Dir(k).0, Dir(k).1, p, v);
    }
  }

  /** A p-stone placed on an empty cell wins exactly when it completes five p-stones in a row. */
  lemma CompletesIffFive(g: Grid, x: int, y: int, p: int)
    requires WellFormed(g) && InRange(x, y)
    ensures Completes(g, x, y, p) <==>
            At(g, x, y) == 0 &&
            exists k, a :: 0 <= k < 4 && 0 <= a <= 4 && FiveThrough(Place(g, x, y, p), x, y, Dir(k).0, Dir(k).1, p, a)
  {
    WinsIffFive(Place(g, x, y, p), x, y, p);
  }

  // ---------------------------------------------------------------------
  // Stone count (the sum comprehensions of get_best_move and get_dynamic_depth)

  /** Number of non-empty cells. */
  function Stones(g: seq<int>): nat
  {
    if g == [] then 0 else Stones(g[..|g| - 1]) + (if g[|g| - 1] != 0 then 1 else 0)
  }

  // ---------------------------------------------------------------------
  // Row-major scans: each function describes the scan from (x, y) to the end of the board.

  /** First occupied cell, from (x, y) on, whose owner satisfies check_win there: its owner. */
  function FirstWinnerFrom(g: Grid, y: int, x: int): Option<int>
    requires WellFormed(g) && 0 <= y <= 15 && 0 <= x <= 15
    decreases |g| - 15 * y, 15 - x
  {
    if y == 15 then None
    else if x == 15 then FirstWinnerFrom(g, y + 1, 0)
    else if At(g, x, y) != 0 && Wins(g, x, y, At(g, x, y)) then Some(At(g, x, y))
    else FirstWinnerFrom(g, y, x + 1)
  }

  /** The terminal scan at the head of minimax. */
  function FirstWinner(g: Grid): Option<int>
    requires WellFormed(g)
  {
    FirstWinnerFrom(g, 0, 0)
  }

  /** Cell (x, y) is empty and a p-stone placed there satisfies check_win for p. */
  predicate Completes(g: Grid, x: int, y: int, p: int)
    requires WellFormed(g) && InRange(x, y)
  {
    At(g, x, y) == 0 && Wins(Place(g, x, y, p), x, y, p)
  }

  /** First empty cell, from (x, y) on, where a p-stone wins. */
  function FirstCompletionFrom(g: Grid, p: int, y: int, x: int): Option<Coord>
    requires WellFormed(g) && 0 <= y <= 15 && 0 <= x <= 15
    decreases |g| - 15 * y, 15 - x
  {
    if y == 15 then None
    else if x == 15 then FirstCompletionFrom(g, p, y + 1, 0)
    else if Completes(g, x, y, p) then Some((x, y))
    else FirstCompletionFrom(g, p, y, x + 1)
  }

  /** The immediate-win (p = 2) and immediate-block (p = 1) scans of get_best_move. */
  function FirstCompletion(g: Grid, p: int): Option<Coord>
    requires WellFormed(g)
  {
    FirstCompletionFrom(g, p, 0, 0)
  }

  // ---------------------------------------------------------------------
  // Properties of the row-major scans

  /** (x, y) comes strictly before (x', y') in row-major order (y outer, x inner). */
  predicate Before(x: int, y: int, x': int, y': int) { y < y' || (y == y' && x < x') }

  /** An occupied cell whose owner satisfies check_win there. */
  predicate WinningStone(g: Grid, x: int, y: int)
    requires WellFormed(g) && InRange(x, y)
  {
    At(g, x, y) != 0 && Wins(g, x, y, At(g, x, y))
  }

  /** r is the answer of a scan for winning stones that starts at (x, y): the owner of the first
      winning stone at or after (x, y) in row-major order, or None when there is none. */
  ghost predicate ScanAnswers(g: Grid, y: int, x: int, r: Option<int>)
    requires WellFormed(g)
  {
    match r
    case None => forall x', y' :: InRange(x', y') && !Before(x', y', x, y) ==> !WinningStone(g, x', y')
    case Some(w) =>
      exists x', y' :: InRange(x', y') && !Before(x', y', x, y) && WinningStone(g, x', y') && At(g, x', y') == w &&
        forall x'', y'' :: InRange(x'', y'') && !Before(x'', y'', x, y) && Before(x'', y'', x', y') ==>
          !WinningStone(g, x'', y'')
  }

  /** A winning stone at (x, y) is the first one at or after (x, y). */
  lemma ScanHit(g: Grid, y: int, x: int)
    requires WellFormed(g) && InRange(x, y) && WinningStone(g, x, y)
    ensures ScanAnswers(g, y, x, Some(At(g, x, y)))
  {
    assert forall x'', y'' :: !(Before(x'', y'', x, y) && !Before(x'', y'', x, y));
  }

  /** Past a cell that holds no winning stone, the answer from the next cell stands. */
  lemma ScanSkip(g: Grid, y: int, x: int, r: Option<int>)
    requires WellFormed(g) && InRange(x, y) && !WinningStone(g, x, y) && ScanAnswers(g, y, x + 1, r)
    ensures ScanAnswers(g, y, x, r)
  {
    if r.Some? {
      var x', y' :| InRange(x', y') && !Before(x', y', x + 1, y) && WinningStone(g, x', y') && At(g, x', y') == r.value &&
        forall x'', y'' :: InRange(x'', y'') && !Before(x'', y'', x + 1, y) && Before(x'', y'', x', y') ==>
          !WinningStone(g, x'', y'');
      ScanSkipFirst(g, y, x, x', y');
    }
  }

  /** The first winning stone after (x, y) is also the first from (x, y) on when (x, y) holds none. */
  lemma ScanSkipFirst(g: Grid, y: int, x: int, x': int, y': int)
    requires WellFormed(g) && InRange(x, y) && !WinningStone(g, x, y)
    requires InRange(x', y') && !Before(x', y', x + 1, y)
    requires forall x'', y'' :: InRange(x'', y'') && !Before(x'', y'', x + 1, y) && Before(x'', y'', x', y') ==>
      !WinningStone(g, x'', y'')
    ensures !Before(x', y', x, y)
    ensures forall x'', y'' :: InRange(x'', y'') && !Before(x'', y'', x, y) && Before(x'', y'', x', y') ==>
      !WinningStone(g, x'', y'')
  {
    forall x'', y'' | InRange(x'', y'') && !Before(x'', y'', x, y) && Before(x'', y'', x', y')
      ensures !WinningStone(g, x'', y'')
    {
      if (x'', y'') != (x, y) {
        assert !Before(x'', y'', x + 1, y);
      }
    }
  }

  /** The end of a row: the answer from the start of the next row stands. */
  lemma ScanRowEnd(g: Grid, y: int, r: Option<int>)
    requires WellFormed(g) && ScanAnswers(g, y + 1, 0, r)
    ensures ScanAnswers(g, y, 15, r)
  {
    assert forall x', y' :: InRange(x', y') ==> (Before(x', y', 15, y) <==> Before(x', y', 0, y + 1));
  }

  /** The scan from (x, y) answers the owner of the first winning stone at or after (x, y), and
      None only when there is none. */
  lemma {:induction false} FirstWinnerFromFinds(g: Grid, y: int, x: int)
    requires WellFormed(g) && 0 <= y <= 15 && 0 <= x <= 15
    ensures ScanAnswers(g, y, x, FirstWinnerFrom(g, y, x))
    decreases |g| - 15 * y, 15 - x
  {
    if y == 15 {
    } else if x == 15 {
      FirstWinnerFromFinds(g, y + 1, 0);
      ScanRowEnd(g, y, FirstWinnerFrom(g, y + 1, 0));
    } else if At(g, x, y) != 0 && Wins(g, x, y, At(g, x, y)) {
      ScanHit(g, y, x);
    } else {
      FirstWinnerFromFinds(g, y, x + 1);
      ScanSkip(g, y, x, FirstWinnerFrom(g, y, x + 1));
    }
  }

  /** The terminal scan of minimax: Some(w) exactly when some stone wins, and then w owns the
      first winning stone in row-major order. */
  lemma FirstWinnerIsFirst(g: Grid)
    requires WellFormed(g)
    ensures FirstWinner(g) == None <==> forall x, y :: InRange(x, y) ==> !WinningStone(g, x, y)
    ensures FirstWinner(g).Some? ==>
      exists x, y :: InRange(x, y) && WinningStone(g, x, y) && At(g, x, y) == FirstWinner(g).value &&
        forall x', y' :: InRange(x', y') && Before(x', y', x, y) ==> !WinningStone(g, x', y')
  {
    FirstWinnerFromFinds(g, 0, 0);
  }

  /** The scan from (x, y) answers the first cell at or after (x, y) that a p-stone completes,
      and None only when there is none. */
  lemma {:induction false} FirstCompletionFromFinds(g: Grid, p: int, y: int, x: int)
    requires WellFormed(g) && 0 <= y <= 15 && 0 <= x <= 15
    ensures match FirstCompletionFrom(g, p, y, x)
      case None => forall x', y' :: InRange(x', y') && !Before(x', y', x, y) ==> !Completes(g, x', y', p)
      case Some(c) =>
        InRange(c.0, c.1) && !Before(c.0, c.1, x, y) && Completes(g, c.0, c.1, p) &&
        forall x', y' :: InRange(x', y') && !Before(x', y', x, y) && Before(x', y', c.0, c.1) ==> !Completes(g, x', y', p)
    decreases |g| - 15 * y, 15 - x
  {
    if y == 15 {
    } else if x == 15 {
      FirstCompletionFromFinds(g, p, y + 1, 0);
    } else if Completes(g, x, y, p) {
    } else {
      FirstCompletionFromFinds(g, p, y, x + 1);
    }
  }

  /** The immediate-win and immediate-block scans of get_best_move: Some(c) exactly when some
      empty cell lets a p-stone win, and then c is the first such cell in row-major order. */
  lemma FirstCompletionIsFirst(g: Grid, p: int)
    requires WellFormed(g)
    ensures FirstCompletion(g, p) == None <==> forall x, y :: InRange(x, y) ==> !Completes(g, x, y, p)
    ensures FirstCompletion(g, p).Some? ==>
      var c := FirstCompletion(g, p).value;
      InRange(c.0, c.1) && Completes(g, c.0, c.1, p) &&
      forall x, y :: InRange(x, y) && Before(x, y, c.0, c.1) ==> !Completes(g, x, y, p)
  {
    FirstCompletionFromFinds(g, p, 0, 0);
  }

  // ---------------------------------------------------------------------
  // Properties of the stone count

  /** A sequence of zeros holds no stone. */
  lemma {:induction false} StonesZero(s: seq<int>)
    requires forall i :: 0 <= i < |s| ==> s[i] == 0
    ensures Stones(s) == 0
    decreases |s|
  {
    if s != [] {
      StonesZero(s[..|s| - 1]);
    }
  }

  /** A sequence with a non-zero entry holds at least one stone. */
  lemma {:induction false} StonesOne(s: seq<int>, i: int)
    requires 0 <= i < |s| && s[i] != 0
    ensures Stones(s) >= 1
    decreases |s|
  {
    if i < |s| - 1 {
      StonesOne(s[..|s| - 1], i);
    }
  }

  /** A sequence with two non-zero entries holds at least two stones. */
  lemma {:induction false} StonesTwo(s: seq<int>, i: int, j: int)
    requires 0 <= i < j < |s| && s[i] != 0 && s[j] != 0
    ensures Stones(s) >= 2
    decreases |s|
  {
    if j < |s| - 1 {
      StonesTwo(s[..|s| - 1], i, j);
    } else {
      StonesOne(s[..|s| - 1], i);
    }
  }

  /** The cells of s that lie on the board, listed in row-major order from (x, y) on. */
  function RowMajorFrom(s: set<Coord>, y: int, x: int): (r: seq<Coord>)
    requires 0 <= y <= 15 && 0 <= x <= 15
    ensures forall i :: 0 <= i < |r| ==> r[i] in s && InRange(r[i].0, r[i].1)
    ensures forall c :: c in s && InRange(c.0, c.1) && (c.1 > y || (c.1 == y && c.0 >= x)) ==> c in r
    decreases 15 - y, 15 - x, s
  {
    if y == 15 then []
    else if x == 15 then RowMajorFrom(s, y + 1, 0)
    else (if (x, y) in s then [(x, y)] else []) + RowMajorFrom(s, y, x + 1)
  }

  /** list(cells): a listing of the set (the source iterates a hash set; row-major here). */
  function RowMajor(s: set<Coord>): seq<Coord>
  {
    RowMajorFrom(s, 0, 0)
  }

  /** RowMajorFrom lists only cells at or after (x, y). */
  lemma {:induction false} RowMajorFromAfter(s: set<Coord>, y: int, x: int)
    requires 0 <= y <= 15 && 0 <= x <= 15
    ensures forall i :: 0 <= i < |RowMajorFrom(s, y, x)| ==>
      !Before(RowMajorFrom(s, y, x)[i].0, RowMajorFrom(s, y, x)[i].1, x, y)
    decreases 15 - y, 15 - x
  {
    if y == 15 {
    } else if x == 15 {
      RowMajorFromAfter(s, y + 1, 0);
    } else {
      RowMajorFromAfter(s, y, x + 1);
      var rest := RowMajorFrom(s, y, x + 1);
      var h: seq<Coord> := if (x, y) in s then [(x, y)] else [];
      assert RowMajorFrom(s, y, x) == h + rest;
      forall i | 0 <= i < |h + rest|
        ensures !Before((h + rest)[i].0, (h + rest)[i].1, x, y)
      {
        if i >= |h| {
          assert (h + rest)[i] == rest[i - |h|];
        }
      }
    }
  }

  /** RowMajorFrom lists cells in strictly increasing row-major order. */
  lemma {:induction false} RowMajorFromIncreasing(s: set<Coord>, y: int, x: int)
    requires 0 <= y <= 15 && 0 <= x <= 15
    ensures forall i, j :: 0 <= i < j < |RowMajorFrom(s, y, x)| ==>
      Before(RowMajorFrom(s, y, x)[i].0, RowMajorFrom(s, y, x)[i].1, RowMajorFrom(s, y, x)[j].0, RowMajorFrom(s, y, x)[j].1)
    decreases 15 - y, 15 - x
  {
    if y == 15 {
    } else if x == 15 {
      RowMajorFromIncreasing(s, y + 1, 0);
    } else {
      RowMajorFromIncreasing(s, y, x + 1);
      RowMajorFromAfter(s, y, x + 1);
      var rest := RowMajorFrom(s, y, x + 1);
      var h: seq<Coord> := if (x, y) in s then [(x, y)] else [];
      assert RowMajorFrom(s, y, x) == h + rest;
      forall i, j | 0 <= i < j < |h + rest|
        ensures Before((h + rest)[i].0, (h + rest)[i].1, (h + rest)[j].0, (h + rest)[j].1)
      {
        assert (h + rest)[j] == rest[j - |h|];
        if i >= |h| {
          assert (h + rest)[i] == rest[i - |h|];
        }
      }
    }
  }

  /** RowMajor(s) lists exactly the on-board cells of s, each once, in row-major order. */
  lemma RowMajorLists(s: set<Coord>)
    ensures var r := RowMajor(s);
      (forall c :: c in r <==> c in s && InRange(c.0, c.1)) &&
      (forall i, j :: 0 <= i < j < |r| ==> Before(r[i].0, r[i].1, r[j].0, r[j].1)) &&
      forall i, j :: 0 <= i < j < |r| ==> r[i] != r[j]
  {
    RowMajorFromIncreasing(s, 0, 0);
    var r := RowMajor(s);
    assert r == RowMajorFrom(s, 0, 0);
    forall c | c in s && InRange(c.0, c.1)
      ensures c in r
    {
    }
    forall i, j | 0 <= i < j < |r|
      ensures Before(r[i].0, r[i].1, r[j].0, r[j].1) && r[i] != r[j]
    {
      assert Before(RowMajorFrom(s, 0, 0)[i].0, RowMajorFrom(s, 0, 0)[i].1, RowMajorFrom(s, 0, 0)[j].0, RowMajorFrom(s, 0, 0)[j].1);
    }
  }
}

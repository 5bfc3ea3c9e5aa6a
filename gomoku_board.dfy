/** The classes of gomoku_board.py: the board, whose grid is updated in place, and the AI player,
    which searches by writing stones into that grid and undoing them. */
module GomokuBoard {
  import opened Rules
  import opened Heuristic
  import opened Candidates
  import opened Search

  class Board {
    /** The 15x15 grid, row by row: cell (x, y) is grid[y * 15 + x]. */
    var grid: array<int>
    var lastMove: Option<Coord>

    ghost predicate Valid()
      reads this
    {
      grid.Length == 225 && (lastMove.Some? ==> InRange(lastMove.value.0, lastMove.value.1))
    }

    /** The grid's contents as a value. */
    ghost function Cells(): (g: Grid)
      reads this, grid
      requires Valid()
      ensures WellFormed(g)
    {
      grid[..]
    }

    /** GomokuBoard(GRID_SIZE): an empty board without a last move. */
    constructor ()
      ensures Valid() && fresh(grid)
      ensures Cells() == Empty() && lastMove == None
    {
      grid := new int[225](_ => 0);
      lastMove := None;
    }

    /** reset(): a fresh empty grid and no last move. */
    method Reset()
      modifies this
      ensures Valid() && fresh(grid)
      ensures Cells() == Empty() && lastMove == None
    {
      grid := new int[225](_ => 0);
      lastMove := None;
    }

    /** is_valid_move(x, y) */
    method IsValidMove(x: int, y: int) returns (ok: bool)
      requires Valid()
      ensures ok == Rules.IsValidMove(Cells(), x, y)
    {
      ok := 0 <= x < N && 0 <= y < N && grid[Index(x, y)] == 0;
    }

    /** make_move(x, y, player): on a valid target writes the stone and records the last move;
        otherwise changes nothing. */
    method MakeMove(x: int, y: int, player: int) returns (ok: bool)
      requires Valid()
      modifies this, grid
      ensures Valid() && grid == old(grid)
      ensures ok == Rules.IsValidMove(old(Cells()), x, y)
      ensures ok ==> Cells() == Place(old(Cells()), x, y, player) && lastMove == Some((x, y))
      ensures !ok ==> Cells() == old(Cells()) && lastMove == old(lastMove)
    {
      ok := IsValidMove(x, y);
      if ok {
        grid[Index(x, y)] := player;
        lastMove := Some((x, y));
      }
    }

    /** The helper count(dx, dy) of check_win: consecutive `player` cells after (x, y). */
    method Count(x: int, y: int, dx: int, dy: int, player: int) returns (cnt: nat)
      requires Valid() && IsDir(dx, dy)
      ensures cnt == Stretch(Cells(), x + dx, y + dy, dx, dy, player)
    {
      cnt := 0;
      var nx, ny := x + dx, y + dy;
      while 0 <= nx < N && 0 <= ny < N && grid[Index(nx, ny)] == player
        invariant cnt + Stretch(Cells(), nx, ny, dx, dy, player) == Stretch(Cells(), x + dx, y + dy, dx, dy, player)
        decreases Reach(nx, dx) + Reach(ny, dy)
      {
        cnt := cnt + 1;
        nx, ny := nx + dx, ny + dy;
      }
    }

    /** check_win(x, y, player) */
    method CheckWin(x: int, y: int, player: int) returns (win: bool)
      requires Valid()
      ensures win == Wins(Cells(), x, y, player)
    {
      ghost var g := Cells();
      for k := 0 to 4
        invariant forall j :: 0 <= j < k ==> LineLength(g, x, y, Dir(j).0, Dir(j).1, player) < 5
      {
        var dx, dy := Dir(k).0, Dir(k).1;
        var forward := Count(x, y, dx, dy, player);
        var backward := Count(x, y, -dx, -dy, player);
        if forward + backward + 1 >= 5 {
          return true;
        }
      }
      return false;
    }

    /** The inner loops of get_nearby_cells: add the empty on-board cells around (cx, cy). */
    method AddRing(cells: set<Coord>, cx: int, cy: int) returns (r: set<Coord>)
      requires Valid()
      ensures r == cells + Ring(Cells(), cx, cy)
    {
      r := cells;
      for dy := -2 to 3
        invariant r == cells + RingPrefix(Cells(), cx, cy, dy, -2)
      {
        for dx := -2 to 3
          invariant r == cells + RingPrefix(Cells(), cx, cy, dy, dx)
        {
          var nx, ny := cx + dx, cy + dy;
          if 0 <= nx < N && 0 <= ny < N && grid[Index(nx, ny)] == 0 {
            r := r + {(nx, ny)};
          }
          assert RingPrefix(Cells(), cx, cy, dy, dx + 1) ==
                 RingPrefix(Cells(), cx, cy, dy, dx) + (if InRange(nx, ny) && At(Cells(), nx, ny) == 0 then {(nx, ny)} else {});
        }
        assert RingPrefix(Cells(), cx, cy, dy, 3) == RingPrefix(Cells(), cx, cy, dy + 1, -2);
      }
      assert RingPrefix(Cells(), cx, cy, 3, -2) == Ring(Cells(), cx, cy);
    }

    /** get_nearby_cells() */
    method GetNearbyCells() returns (cells: seq<Coord>)
      requires Valid()
      ensures cells == NearbyList(Cells(), lastMove)
    {
      var found: set<Coord>;
      if lastMove.Some? {
        found := AddRing({}, lastMove.value.0, lastMove.value.1);
      } else {
        found := StoneRings();
      }
      assert found == NearbySet(Cells(), lastMove);
      cells := if found != {} then RowMajor(found) else [(Centre, Centre)];
    }

    /** The branch of get_nearby_cells without a last move: the empty cells around every
        occupied cell, visited row by row. */
    method StoneRings() returns (found: set<Coord>)
      requires Valid()
      ensures found == RingsBefore(Cells(), 15, 0)
    {
      found := {};
      for y := 0 to N
        invariant found == RingsBefore(Cells(), y, 0)
      {
        for x := 0 to N
          invariant found == RingsBefore(Cells(), y, x)
        {
          if grid[Index(x, y)] != 0 {
            found := AddRing(found, x, y);
          }
        }
      }
    }

    /** The number of stones on the board: the sum comprehensions of get_best_move and
        GameManager.get_dynamic_depth. */
    method CountStones() returns (total: int)
      requires Valid()
      ensures total == Stones(Cells())
    {
      ghost var g := Cells();
      total := 0;
      for y := 0 to N
        invariant total == Stones(g[..y * 15])
      {
        for x := 0 to N
          invariant total == Stones(g[..y * 15 + x])
        {
          assert g[..y * 15 + x + 1][..y * 15 + x] == g[..y * 15 + x];
          if grid[Index(x, y)] != 0 {
            total := total + 1;
          }
        }
      }
      assert g[..225] == g;
    }
  }

  /** MAX_DEPTH: the search depth an AIPlayer starts with. */
  const MaxDepth: int := 2

  class AIPlayer {
    const board: Board
    var depth: int

    ghost predicate Valid()
      reads this, board
    {
      board.Valid()
    }

    /** AIPlayer(board, depth) */
    constructor (board: Board, depth: int)
      requires board.Valid()
      ensures Valid() && this.board == board && this.depth == depth
    {
      this.board := board;
      this.depth := depth;
    }

    /** evaluate(): read-only; the score of the current grid. */
    method Evaluate() returns (score: int)
      requires Valid()
      ensures score == Heuristic.Evaluate(board.Cells())
    {
      ghost var g := board.Cells();
      ghost var total := Heuristic.Evaluate(g);
      score := 0;
      for y := 0 to N
        invariant score + EvalFrom(g, y, 0) == total
      {
        for x := 0 to N
          invariant score + EvalFrom(g, y, x) == total
        {
          var points := ScoreCell(x, y);
          score := score + points;
        }
      }
    }

    /** The body of evaluate's cell loop: the points the stone at (x, y) adds, over the four
        directions, the centre bonus included; nothing for an empty cell. */
    method ScoreCell(x: int, y: int) returns (score: int)
      requires Valid() && InRange(x, y)
      ensures score == CellScore(board.Cells(), x, y)
    {
      ghost var g := board.Cells();
      score := 0;
      var player := board.grid[Index(x, y)];
      if player == 0 {
        return;
      }
      var multiplier := if player == 2 then 1 else -1;
      for k := 0 to 4
        invariant score + Signed(player, DirsFrom(g, x, y, player, k)) == Signed(player, DirsFrom(g, x, y, player, 0))
      {
        var dx, dy := Dir(k).0, Dir(k).1;
        ghost var before := score;
        assert DirsFrom(g, x, y, player, k) == DirScore(g, x, y, dx, dy, player) + DirsFrom(g, x, y, player, k + 1);
        var points := ScanWindow(x, y, dx, dy, player, multiplier);
        score := score + points;
        if 5 <= x <= 9 && 5 <= y <= 9 && board.grid[Index(x, y)] == player {
          score := score + 5 * multiplier;
        }
        assert score == before + Signed(player, DirScore(g, x, y, dx, dy, player));
      }
    }

    /** One cell of the window scan: a stone of the player extends the run; any other cell, or
        a position off the board, ends it, and an empty cell also counts as an open end. */
    method WindowCell(nx: int, ny: int, player: int, count: int, openEnds: int) returns (c: int, o: int)
      requires Valid()
      ensures c == NextCount(board.Cells(), nx, ny, player, count)
      ensures o == NextOpen(board.Cells(), nx, ny, player, openEnds)
    {
      c, o := count, openEnds;
      if 0 <= nx < N && 0 <= ny < N {
        if board.grid[Index(nx, ny)] == player {
          c := c + 1;
        } else {
          if board.grid[Index(nx, ny)] == 0 {
            o := o + 1;
          }
          c := 0;
        }
      } else {
        c := 0;
      }
    }

    /** The 9-cell window loop of evaluate for the stone of `player` at (x, y) along (dx, dy):
        the points it adds to the score. */
    method ScanWindow(x: int, y: int, dx: int, dy: int, player: int, multiplier: int) returns (points: int)
      requires Valid() && InRange(x, y) && IsDir(dx, dy)
      requires multiplier == if player == 2 then 1 else -1
      ensures points == Signed(player, Window(board.Cells(), x, y, dx, dy, player, -4, 0, 0))
    {
      ghost var g := board.Cells();
      points := 0;
      var count, openEnds := 0, 0;
      for i := -4 to 5
        invariant points + Signed(player, Window(g, x, y, dx, dy, player, i, count, openEnds))
                  == Signed(player, Window(g, x, y, dx, dy, player, -4, 0, 0))
      {
        AlongIsProduct(x, i, dx);
        AlongIsProduct(y, i, dy);
        ghost var before := points;
        ghost var window := Window(g, x, y, dx, dy, player, i, count, openEnds);
        var nx, ny := x + i * dx, y + i * dy;
        count, openEnds := WindowCell(nx, ny, player, count, openEnds);
        assert window == Table(count, openEnds) + Window(g, x, y, dx, dy, player, i + 1, count, openEnds);
        if count == 2 {
          points := points + (if openEnds >= 1 then 50 else 10) * multiplier;
        } else if count == 3 {
          points := points + (if openEnds >= 1 then 500 else 100) * multiplier;
        } else if count == 4 {
          points := points + (if openEnds >= 1 then 5000 else 1000) * multiplier;
        } else if count >= 5 {
          points := points + 100000 * multiplier;
        }
        SignedIsProduct(player, Table(count, openEnds), multiplier);
        assert points == before + Signed(player, Table(count, openEnds));
      }
    }

    /** The score order_moves gives move (x, y): the centre bonus, the closeness to the last
        move, and evaluate() with an AI stone written at (x, y), after which the cell is set to 0. */
    method MovePriority(x: int, y: int) returns (priority: int)
      requires Valid() && InRange(x, y)
      modifies board.grid
      ensures priority == Priority(old(board.Cells()), board.lastMove, x, y)
      ensures board.Cells() == Place(old(board.Cells()), x, y, 0)
    {
      ghost var g := board.Cells();
      priority := 0;
      if 5 <= x <= 9 && 5 <= y <= 9 {
        priority := priority + 10;
      }
      if board.lastMove.Some? {
        var lx, ly := board.lastMove.value.0, board.lastMove.value.1;
        var distance := Abs(x - lx) + Abs(y - ly);
        priority := priority + (10 - distance);
      }
      board.grid[Index(x, y)] := 2;
      assert board.Cells() == Place(g, x, y, 2);
      var score := Evaluate();
      board.grid[Index(x, y)] := 0;
      assert board.Cells() == Place(g, x, y, 0);
      priority := priority + score / 100;
    }

    /** order_moves(moves): scores each move with an AI stone written at it, writes 0 back,
        and sorts by (priority, x, y) in descending order. */
    method OrderMoves(moves: seq<Coord>) returns (ordered: seq<Coord>)
      requires Valid() && AllInRange(moves)
      modifies board.grid
      ensures (ordered, board.Cells()) == Order(old(board.Cells()), board.lastMove, moves)
    {
      ghost var g0 := board.Cells();
      var entries: seq<Entry> := [];
      for i := 0 to |moves|
        invariant (entries, board.Cells()) == Entries(g0, board.lastMove, moves[..i])
      {
        var x, y := moves[i].0, moves[i].1;
        assert moves[..i + 1][..i] == moves[..i] && moves[..i + 1][i] == (x, y);
        var priority := MovePriority(x, y);
        entries := entries + [Entry(priority, x, y)];
      }
      assert moves[..|moves|] == moves;
      entries := SortDesc(entries);
      ordered := Coords(entries);
    }

    /** The terminal scan at the head of minimax: the owner of the first occupied cell, in
        row-major order, that satisfies check_win for its owner. */
    method TerminalScan() returns (winner: Option<int>)
      requires Valid()
      ensures winner == FirstWinner(board.Cells())
    {
      ghost var g := board.Cells();
      for y := 0 to N
        invariant FirstWinnerFrom(g, y, 0) == FirstWinner(g)
      {
        for x := 0 to N
          invariant FirstWinnerFrom(g, y, x) == FirstWinner(g)
        {
          var p := board.grid[Index(x, y)];
          assert FirstWinnerFrom(g, y, x) == if p != 0 && Wins(g, x, y, p) then Some(p) else FirstWinnerFrom(g, y, x + 1);
          if p != 0 {
            var won := board.CheckWin(x, y, p);
            if won {
              return Some(p);
            }
          }
        }
      }
      return None;
    }

    /** minimax(depth, alpha, beta, maximizing) */
    method Minimax(ghost g: Grid, depth: nat, alpha: ExtInt, beta: ExtInt, maximizing: bool) returns (score: ExtInt)
      requires Valid() && board.Cells() == g
      modifies board.grid
      ensures (score, board.Cells()) == Search.Minimax(g, board.lastMove, depth, alpha, beta, maximizing)
      decreases depth, 1, 0
    {
      ghost var last := board.lastMove;
      var winner := TerminalScan();
      if winner.Some? {
        score := Fin(if winner.value == 2 then 100000 else -100000);
        assert Search.Minimax(g, last, depth, alpha, beta, maximizing) == (score, g);
        return;
      }
      if depth == 0 {
        var e := Evaluate();
        score := Fin(e);
        assert Search.Minimax(g, last, depth, alpha, beta, maximizing) == (score, g);
        return;
      }
      var nearby := board.GetNearbyCells();
      var emptyCells := OrderMoves(nearby);
      ghost var o := Order(g, last, NearbyList(g, last));
      assert emptyCells == o.0 && board.Cells() == o.1;
      MinimaxUnfold(g, last, depth, alpha, beta, maximizing);
      if maximizing {
        score := MaximizeOver(emptyCells, depth, alpha, beta);
      } else {
        score := MinimizeOver(emptyCells, depth, alpha, beta);
      }
      assert board.lastMove == last;
      assert (score, board.Cells()) == Explore(o.1, last, o.0, ChildDepth(depth), alpha, beta, maximizing, Worst(maximizing));
    }

    /** The recursive call of minimax's candidate loop: write the stone of the side to move at
        (x, y), search one level shallower with the given bounds, and write 0 back. */
    method SearchChild(x: int, y: int, d: nat, alpha: ExtInt, beta: ExtInt, maximizing: bool) returns (s: ExtInt)
      requires Valid() && InRange(x, y)
      modifies board.grid
      ensures var child := Child(old(board.Cells()), board.lastMove, x, y, d, alpha, beta, maximizing);
        s == child.0 && board.Cells() == Place(child.1, x, y, 0)
      decreases d, 2, 0
    {
      ghost var g := board.Cells();
      board.grid[Index(x, y)] := Stone(maximizing);
      s := Minimax(Place(g, x, y, Stone(maximizing)), d, alpha, beta, !maximizing);
      ghost var gc := board.Cells();
      board.grid[Index(x, y)] := 0;
      assert board.Cells() == Place(gc, x, y, 0);
    }

    /** One pass of minimax's candidate loop, for the first of `moves`. */
    method TryCandidate(moves: seq<Coord>, depth: nat, alpha: ExtInt, beta: ExtInt, maximizing: bool, ghost best: ExtInt)
      returns (evalScore: ExtInt)
      requires Valid() && depth >= 1 && AllInRange(moves) && moves != []
      modifies board.grid
      ensures AllInRange(moves[1..])
      ensures Explore(old(board.Cells()), board.lastMove, moves, ChildDepth(depth), alpha, beta, maximizing, best) ==
        if maximizing then
          (if Le(beta, Max(alpha, evalScore)) then (Max(best, evalScore), board.Cells())
           else Explore(board.Cells(), board.lastMove, moves[1..], ChildDepth(depth), Max(alpha, evalScore), beta, true, Max(best, evalScore)))
        else
          (if Le(Min(beta, evalScore), alpha) then (Min(best, evalScore), board.Cells())
           else Explore(board.Cells(), board.lastMove, moves[1..], ChildDepth(depth), alpha, Min(beta, evalScore), false, Min(best, evalScore)))
      decreases depth, 0, 1
    {
      ExploreStep(board.Cells(), board.lastMove, moves, ChildDepth(depth), alpha, beta, maximizing, best);
      evalScore := SearchChild(moves[0].0, moves[0].1, ChildDepth(depth), alpha, beta, maximizing);
    }

    /** The maximizing branch of minimax: AI stones, raising alpha, cut off once beta <= alpha. */
    method MaximizeOver(emptyCells: seq<Coord>, depth: nat, alpha: ExtInt, beta: ExtInt) returns (maxEval: ExtInt)
      requires Valid() && depth >= 1 && AllInRange(emptyCells)
      modifies board.grid
      ensures (maxEval, board.Cells()) == Explore(old(board.Cells()), board.lastMove, emptyCells, ChildDepth(depth), alpha, beta, true, NegInf)
      decreases depth, 0, 2
    {
      ghost var target := Explore(board.Cells(), board.lastMove, emptyCells, ChildDepth(depth), alpha, beta, true, NegInf);
      maxEval := NegInf;
      var a := alpha;
      var i := 0;
      while i < |emptyCells|
        invariant 0 <= i <= |emptyCells|
        invariant Explore(board.Cells(), board.lastMove, emptyCells[i..], ChildDepth(depth), a, beta, true, maxEval) == target
      {
        assert emptyCells[i..][1..] == emptyCells[i + 1..];
        var evalScore := TryCandidate(emptyCells[i..], depth, a, beta, true, maxEval);
        maxEval := Max(maxEval, evalScore);
        a := Max(a, evalScore);
        if Le(beta, a) {
          break;
        }
        i := i + 1;
      }
    }

    /** The minimizing branch of minimax: human stones, lowering beta, cut off once beta <= alpha. */
    method MinimizeOver(emptyCells: seq<Coord>, depth: nat, alpha: ExtInt, beta: ExtInt) returns (minEval: ExtInt)
      requires Valid() && depth >= 1 && AllInRange(emptyCells)
      modifies board.grid
      ensures (minEval, board.Cells()) == Explore(old(board.Cells()), board.lastMove, emptyCells, ChildDepth(depth), alpha, beta, false, PosInf)
      decreases depth, 0, 2
    {
      ghost var target := Explore(board.Cells(), board.lastMove, emptyCells, ChildDepth(depth), alpha, beta, false, PosInf);
      minEval := PosInf;
      var b := beta;
      var i := 0;
      while i < |emptyCells|
        invariant 0 <= i <= |emptyCells|
        invariant Explore(board.Cells(), board.lastMove, emptyCells[i..], ChildDepth(depth), alpha, b, false, minEval) == target
      {
        assert emptyCells[i..][1..] == emptyCells[i + 1..];
        var evalScore := TryCandidate(emptyCells[i..], depth, alpha, b, false, minEval);
        minEval := Min(minEval, evalScore);
        b := Min(b, evalScore);
        if Le(b, alpha) {
          break;
        }
        i := i + 1;
      }
    }

    /** The immediate-win (p = 2) and immediate-block (p = 1) scans of get_best_move: the first
        empty cell, in row-major order, where a p-stone satisfies check_win. Every trial stone is
        written and then overwritten with 0, which restores the grid because the cell was empty. */
    method FindCompletion(p: int) returns (found: Option<Coord>)
      requires Valid()
      modifies board.grid
      ensures found == FirstCompletion(old(board.Cells()), p)
      ensures board.Cells() == old(board.Cells())
    {
      ghost var g := board.Cells();
      for y := 0 to N
        invariant board.Cells() == g
        invariant FirstCompletionFrom(g, p, y, 0) == FirstCompletion(g, p)
      {
        for x := 0 to N
          invariant board.Cells() == g
          invariant FirstCompletionFrom(g, p, y, x) == FirstCompletion(g, p)
        {
          if board.grid[Index(x, y)] == 0 {
            board.grid[Index(x, y)] := p;
            assert board.Cells() == Place(g, x, y, p);
            var won := board.CheckWin(x, y, p);
            board.grid[Index(x, y)] := 0;
            assert board.Cells() == g;
            if won {
              return Some((x, y));
            }
          }
        }
      }
      return None;
    }

    /** The final loop of get_best_move over the ordered candidates: no cutoff, beta stays +inf,
        and the first candidate with a strictly greater score wins. */
    method SearchRoot(moves: seq<Coord>) returns (bestMove: Option<Coord>)
      requires Valid() && depth >= 1 && AllInRange(moves)
      modifies board.grid
      ensures (bestMove, board.Cells()) == RootSearch(old(board.Cells()), board.lastMove, moves, ChildDepth(depth), NegInf, NegInf, None)
    {
      ghost var target := RootSearch(board.Cells(), board.lastMove, moves, ChildDepth(depth), NegInf, NegInf, None);
      var bestScore := NegInf;
      bestMove := None;
      var alpha := NegInf;
      var beta := PosInf;
      for i := 0 to |moves|
        invariant RootSearch(board.Cells(), board.lastMove, moves[i..], ChildDepth(depth), alpha, bestScore, bestMove) == target
      {
        assert moves[i..][0] == moves[i] && moves[i..][1..] == moves[i + 1..];
        var x, y := moves[i].0, moves[i].1;
        var score := SearchChild(x, y, ChildDepth(depth), alpha, beta, true);
        if Lt(bestScore, score) {
          bestScore := score;
          bestMove := Some((x, y));
        }
        alpha := Max(alpha, score);
      }
      assert moves[|moves|..] == [];
    }

    /** get_best_move(): the opening rule, then an immediate win, then an immediate block, then
        the root search over the ordered candidates. */
    method GetBestMove() returns (move: Option<Coord>)
      requires Valid() && depth >= 1
      modifies board.grid
      ensures (move, board.Cells()) == BestMove(old(board.Cells()), board.lastMove, depth)
    {
      var total := board.CountStones();
      if total < 2 {
        var center := N / 2;
        if board.grid[Index(center, center)] == 0 {
          return Some((center, center));
        } else if board.grid[Index(center - 1, center)] == 0 {
          return Some((center, center - 1));
        }
      }
      var win := FindCompletion(2);
      if win.Some? {
        return win;
      }
      var block := FindCompletion(1);
      if block.Some? {
        return block;
      }
      var nearby := board.GetNearbyCells();
      var emptyCells := OrderMoves(nearby);
      move := SearchRoot(emptyCells);
    }
  }
}

/** The game-flow rules of game_manager.py: the search-depth schedule, the mapping from a mouse
    position to a board cell, a human move, the AI's move, and a new game. Drawing, buttons and
    the event loop are not modelled. */
module GameManager {
  import opened Rules
  import opened Search
  import opened GomokuBoard

  /** CELL_SIZE, OFFSET_X and OFFSET_Y: the pixel size of a cell and the board's top-left corner. */
  const CellSize: int := 60
  const OffsetX: int := 60
  const OffsetY: int := 100

  /** get_dynamic_depth for a board holding `stones` stones: deeper as the game fills up, then
      shallower again from 30 stones on. */
  function DynamicDepth(stones: int): (d: int)
    ensures 2 <= d <= 4
  {
    if stones < 10 then 2
    else if stones < 20 then 3
    else if stones < 30 then 4
    else 3
  }

  /** The schedule band by band: 2 below 10 stones, 3 from 10 to 19, 4 from 20 to 29, 3 from 30. */
  lemma DynamicDepthBands(stones: int)
    ensures DynamicDepth(stones) == 2 <==> stones < 10
    ensures DynamicDepth(stones) == 4 <==> 20 <= stones < 30
    ensures DynamicDepth(stones) == 3 <==> (10 <= stones < 20 || 30 <= stones)
  {
  }

  /** A new game, whose board holds no stone, searches at depth 2. */
  lemma {:induction false} NewGameDepth()
    ensures DynamicDepth(Stones(Empty())) == 2
  {
    StonesZero(Empty());
  }

  /** The cell under pixel (mx, my): (mx - OFFSET_X) // CELL_SIZE and (my - OFFSET_Y) // CELL_SIZE.
      Python's // floors; Dafny's / agrees with it because the divisor is positive. */
  function CellOf(mx: int, my: int): (c: Coord)
    ensures OffsetX + CellSize * c.0 <= mx < OffsetX + CellSize * (c.0 + 1)
    ensures OffsetY + CellSize * c.1 <= my < OffsetY + CellSize * (c.1 + 1)
  {
    ((mx - OffsetX) / CellSize, (my - OffsetY) / CellSize)
  }

  /** Every pixel of the square drawn for cell (x, y) maps back to (x, y). */
  lemma CellOfSquare(x: int, y: int, px: int, py: int)
    requires 0 <= px < CellSize && 0 <= py < CellSize
    ensures CellOf(OffsetX + CellSize * x + px, OffsetY + CellSize * y + py) == (x, y)
  {
  }

  /** The player who moves after p: `2 if current_player == 1 else 1`. */
  function Other(p: int): (q: int)
    ensures q == 1 || q == 2
    ensures (p == 1 || p == 2) ==> q != p
  {
    if p == 1 then 2 else 1
  }

  /** Which screen the game is on: game_mode None, "ai" or "human". */
  datatype Mode = Selecting | VersusAI | VersusHuman

  /** WINDOW_WIDTH and WINDOW_HEIGHT: the board's pixel size plus its offsets. */
  const WindowWidth: int := CellSize * N + OffsetX
  const WindowHeight: int := CellSize * N + OffsetY

  /** A pygame.Rect: left, top, width, height. */
  datatype Rect = Rect(left: int, top: int, width: int, height: int)

  /** Rect.collidepoint: the left and top edges are inside, the right and bottom ones are not. */
  predicate Hit(r: Rect, px: int, py: int)
  {
    r.left <= px < r.left + r.width && r.top <= py < r.top + r.height
  }

  /** The four buttons of setup_buttons, 200 by 50 pixels each, 20 pixels either side of the
      window's centre line: the mode buttons mid-window, the game-over buttons near its bottom. */
  const ButtonWidth: int := 200
  const ButtonHeight: int := 50
  const AIButton: Rect := Rect(WindowWidth / 2 - ButtonWidth - 20, WindowHeight / 2 - ButtonHeight / 2, ButtonWidth, ButtonHeight)
  const HumanButton: Rect := Rect(WindowWidth / 2 + 20, WindowHeight / 2 - ButtonHeight / 2, ButtonWidth, ButtonHeight)
  const PlayAgainButton: Rect := Rect(WindowWidth / 2 - ButtonWidth - 20, WindowHeight - 80, ButtonWidth, ButtonHeight)
  const CloseButton: Rect := Rect(WindowWidth / 2 + 20, WindowHeight - 80, ButtonWidth, ButtonHeight)

  /** The buttons of each screen sit side by side, so no click hits both. */
  lemma ButtonsApart(px: int, py: int)
    ensures !(Hit(AIButton, px, py) && Hit(HumanButton, px, py))
    ensures !(Hit(PlayAgainButton, px, py) && Hit(CloseButton, px, py))
  {
  }

  class Game {
    var board: Board
    var ai: AIPlayer
    var currentPlayer: int
    var gameOver: bool
    var winner: Option<int>
    var aiThinking: bool
    var mode: Mode

    /** The AI searches the game's own board; a player is 1 or 2; the game is over exactly
        when a winner has been recorded. */
    ghost predicate Valid()
      reads this, board, ai
    {
      board.Valid() && ai.board == board &&
      (currentPlayer == 1 || currentPlayer == 2) &&
      (gameOver <==> winner.Some?) &&
      (winner.Some? ==> winner.value == 1 || winner.value == 2)
    }

    /** GameManager(): an empty board, player 1 to move, on the mode-selection screen. */
    constructor ()
      ensures Valid() && fresh(board) && fresh(ai)
      ensures board.Cells() == Empty() && board.lastMove == None
      ensures currentPlayer == 1 && !gameOver && winner == None && !aiThinking && mode == Selecting
    {
      var b := new Board();
      board := b;
      ai := new AIPlayer(b, MaxDepth);
      currentPlayer := 1;
      gameOver := false;
      winner := None;
      aiThinking := false;
      mode := Selecting;
    }

    /** get_dynamic_depth(): the schedule applied to the number of stones on the board. */
    method GetDynamicDepth() returns (depth: int)
      requires Valid()
      ensures depth == DynamicDepth(Stones(board.Cells())) && depth >= 1
    {
      var total := board.CountStones();
      depth := DynamicDepth(total);
    }

    /** The state a board click at pixel (mx, my) leaves, from grid g0, last move last0,
        player p0, AI-thinking flag thinking0, game-over flag over0 and winner winner0: nothing
        changes while the AI thinks, once the game is over, or on an invalid cell; otherwise the
        cell gets p0's stone, a win is recorded, and if there is none the turn passes. */
    ghost predicate BoardClicked(g0: Grid, last0: Option<Coord>, p0: int, thinking0: bool,
                                 over0: bool, winner0: Option<int>, mx: int, my: int)
      reads this, board, board.grid
      requires board.Valid() && WellFormed(g0)
    {
      var c := CellOf(mx, my);
      if thinking0 || over0 || !IsValidMove(g0, c.0, c.1) then
        board.Cells() == g0 && board.lastMove == last0 &&
        currentPlayer == p0 && gameOver == over0 && winner == winner0
      else
        var g := Place(g0, c.0, c.1, p0);
        board.Cells() == g && board.lastMove == Some(c) &&
        if Wins(g, c.0, c.1, p0) then
          winner == Some(p0) && gameOver && currentPlayer == p0
        else
          currentPlayer == Other(p0) && gameOver == over0 && winner == winner0
    }

    /** The board part of handle_click(pos), reached once a mode has been chosen: ignored while
        the AI thinks or once the game is over; otherwise a valid target gets the current
        player's stone, a win is recorded, and if there is none the turn passes to the other
        player. */
    method HandleBoardClick(mx: int, my: int)
      requires Valid() && mode != Selecting
      modifies this, board, board.grid
      ensures Valid() && board == old(board) && ai == old(ai) && board.grid == old(board.grid)
      ensures aiThinking == old(aiThinking) && mode == old(mode)
      ensures BoardClicked(old(board.Cells()), old(board.lastMove), old(currentPlayer),
                           old(aiThinking), old(gameOver), old(winner), mx, my)
    {
      if aiThinking || gameOver {
        return;
      }
      var c := CellOf(mx, my);
      var x, y := c.0, c.1;
      var valid := board.IsValidMove(x, y);
      if valid {
        var _ := board.MakeMove(x, y, currentPlayer);
        var won := board.CheckWin(x, y, currentPlayer);
        if won {
          winner := Some(currentPlayer);
          gameOver := true;
        } else {
          currentPlayer := Other(currentPlayer);
        }
      }
    }

    /** handle_click(pos) at pixel (mx, my). On the selection screen the AI button chooses the
        game against the AI, the human button the game between two people, and any other click
        does nothing. Once the game is over, Play Again starts a new game and Close asks to quit
        (answered as `quit`, in place of pygame.quit() and sys.exit(); nothing else changes).
        Every other click goes to the board. */
    method HandleClick(mx: int, my: int) returns (quit: bool)
      requires Valid()
      modifies this, board, board.grid
      ensures Valid() && board == old(board) && ai == old(ai)
      ensures quit <==> old(mode) != Selecting && old(gameOver) &&
                        !Hit(PlayAgainButton, mx, my) && Hit(CloseButton, mx, my)
      ensures old(mode) == Selecting ==>
        mode == (if Hit(AIButton, mx, my) then VersusAI
                 else if Hit(HumanButton, mx, my) then VersusHuman
                 else Selecting) &&
        board.Cells() == old(board.Cells()) && board.lastMove == old(board.lastMove) &&
        currentPlayer == old(currentPlayer) && gameOver == old(gameOver) &&
        winner == old(winner) && aiThinking == old(aiThinking)
      ensures old(mode) != Selecting ==> mode == old(mode)
      ensures old(mode) != Selecting && old(gameOver) && Hit(PlayAgainButton, mx, my) ==>
        board.Cells() == Empty() && board.lastMove == None &&
        currentPlayer == 1 && !gameOver && winner == None && !aiThinking
      ensures old(mode) != Selecting && !(old(gameOver) && Hit(PlayAgainButton, mx, my)) ==>
        aiThinking == old(aiThinking) &&
        BoardClicked(old(board.Cells()), old(board.lastMove), old(currentPlayer),
                     old(aiThinking), old(gameOver), old(winner), mx, my)
    {
      quit := false;
      if mode == Selecting {
        if Hit(AIButton, mx, my) {
          mode := VersusAI;
        } else if Hit(HumanButton, mx, my) {
          mode := VersusHuman;
        }
        return;
      }
      if gameOver {
        if Hit(PlayAgainButton, mx, my) {
          ResetGame();
          return;
        } else if Hit(CloseButton, mx, my) {
          quit := true;
          return;
        }
      }
      HandleBoardClick(mx, my);
    }

    /** reset_game(): a new empty board; player 1 to move; no winner. */
    method ResetGame()
      requires Valid()
      modifies this, board
      ensures Valid() && board == old(board) && ai == old(ai) && mode == old(mode)
      ensures board.Cells() == Empty() && board.lastMove == None
      ensures currentPlayer == 1 && !gameOver && winner == None && !aiThinking
    {
      board.Reset();
      currentPlayer := 1;
      gameOver := false;
      winner := None;
      aiThinking := false;
    }

    /** The state ai_turn leaves, from grid g0, last move last0 and game-over flag and winner
        over0, winner0: the depth comes from the schedule, the search answers BestMove (which may
        change the grid it searched), the answer is played as a 2-stone when the cell is free, and
        check_win(x, y, 2) on the resulting grid decides whether the AI has won. */
    ghost predicate AIPlayed(g0: Grid, last0: Option<Coord>, over0: bool, winner0: Option<int>)
      reads this, board, board.grid, ai
      requires board.Valid() && WellFormed(g0)
    {
      ai.depth == DynamicDepth(Stones(g0)) &&
      var r := BestMove(g0, last0, ai.depth);
      match r.0
      case None =>
        board.Cells() == r.1 && board.lastMove == last0 && gameOver == over0 && winner == winner0
      case Some(c) =>
        var valid := IsValidMove(r.1, c.0, c.1);
        var g := if valid then Place(r.1, c.0, c.1, 2) else r.1;
        board.Cells() == g &&
        board.lastMove == (if valid then Some(c) else last0) &&
        if Wins(g, c.0, c.1, 2) then winner == Some(2) && gameOver
        else gameOver == over0 && winner == winner0
    }

    /** ai_turn() without its timeout: the search depth is set from the schedule, the AI's
        answer is played as a 2-stone, and check_win(x, y, 2) decides whether the AI has won.
        As in the source, the win test runs even when make_move rejected the cell. */
    method AITurn()
      requires Valid()
      modifies this, ai, board, board.grid
      ensures Valid() && board == old(board) && ai == old(ai) && board.grid == old(board.grid)
      ensures currentPlayer == old(currentPlayer) && mode == old(mode) && !aiThinking
      ensures AIPlayed(old(board.Cells()), old(board.lastMove), old(gameOver), old(winner))
    {
      aiThinking := true;
      var depth := GetDynamicDepth();
      ai.depth := depth;
      var move := ai.GetBestMove();
      aiThinking := false;
      if move.Some? {
        var x, y := move.value.0, move.value.1;
        var _ := board.MakeMove(x, y, 2);
        var won := board.CheckWin(x, y, 2);
        if won {
          winner := Some(2);
          gameOver := true;
        }
      }
    }

    /** The AI step of run(): when playing the AI and it is player 2's turn in a game still in
        progress, the AI moves and the turn goes back to player 1. */
    method RunAITurn()
      requires Valid()
      modifies this, ai, board, board.grid
      ensures Valid() && board == old(board) && ai == old(ai) && board.grid == old(board.grid)
      ensures mode == old(mode)
      ensures var due := !old(gameOver) && old(mode) == VersusAI && old(currentPlayer) == 2 && !old(aiThinking);
        (due ==> AIPlayed(old(board.Cells()), old(board.lastMove), old(gameOver), old(winner)) &&
                 currentPlayer == 1 && !aiThinking) &&
        (!due ==> board.Cells() == old(board.Cells()) && board.lastMove == old(board.lastMove) &&
                  currentPlayer == old(currentPlayer) && gameOver == old(gameOver) &&
                  winner == old(winner) && aiThinking == old(aiThinking) && ai.depth == old(ai.depth))
    {
      if !gameOver && mode == VersusAI && currentPlayer == 2 && !aiThinking {
        AITurn();
        currentPlayer := 1;
      }
    }
  }
}

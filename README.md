# Gomoku board and AI, modelled in Dafny

This project models the core of a 15x15 Gomoku (five-in-a-row) game: the board and its
win test, the AI player's heuristic evaluation, move ordering and alpha-beta minimax search,
and the game-flow rules that tie them together (the search-depth schedule, the mouse-click
move, resetting, and the AI's turn).

The board (`gomoku_board.py`, class `GomokuBoard`) and the AI player (`AIPlayer`) update state
in place, so they are Dafny classes:

- `GomokuBoard.Board` holds the grid as an `array<int>` of 225 cells. Cell (x, y) sits at
  index `y * 15 + x`, which is the row-major order every scan of the source uses.
- `GomokuBoard.AIPlayer` holds a reference to its board and a mutable search depth.
- Each method of these classes is proved against a pure function over the grid's contents
  (`Board.Cells()`, a `seq<int>`). The functions live in four modules:
  - `Rules`: geometry, `check_win`, the terminal scans.
  - `Heuristic`: `evaluate`.
  - `Candidates`: `get_nearby_cells`.
  - `Search`: `order_moves`, `minimax`, `get_best_move`.
- The properties of those functions are proved as lemmas, mostly in `SearchFacts`.

Search temporarily writes stones into the grid and then writes 0 back. The specification
functions therefore return both a value and the grid the operation leaves behind. Whether the
grid comes back unchanged is a theorem, not an assumption. It holds when at least `depth`
candidate cells are available (`SearchFacts.MinimaxRestores`). When there are none, the
source's fallback to the centre cell overwrites an occupied centre with 0
(`SearchFacts.MinimaxCentreFallback`). The erasure reaches the game board itself. `ai_turn`
runs `get_best_move` on the live board. A search node without candidates then writes 0 over
the centre stone, and `get_best_move` can answer (7, 7). `make_move` accepts that move because
the cell now reads empty. The model reproduces this quirk as written.

`game_manager.py`, class `GameManager`, becomes the class `GameManager.Game`. Its pygame
screen, drawing and event loop are left out. Its game-state fields are kept: the current
player, game over, the winner, the AI-thinking flag and the mode. So are the operations that
change them. A click is modelled whole, as a pixel position: the four buttons are the
rectangles of `setup_buttons`, and `pygame.Rect.collidepoint` is the half-open hit test.

`float('inf')` becomes the datatype `Search.ExtInt` (`NegInf | Fin(n) | PosInf`). Python
integers are unbounded, like Dafny's `int`. Python's `//` with a positive divisor (100 in
`order_moves`, 60 for the pixel-to-cell mapping) rounds toward minus infinity. Dafny's `/`
does the same for a positive divisor, so the model uses `/` directly.

## Model

| member | source | states |
|---|---|---|
| Rules.Place | gomoku_board.py:48 | writing v at (x, y) changes that cell only |
| Rules.Empty | gomoku_board.py:33 | the new grid is 225 zeros |
| Rules.Dir | gomoku_board.py:66 | each of the four axes scanned is a proper step direction |
| Rules.StretchRun | gomoku_board.py:55-63 | the count helper of check_win is at least n exactly when the n cells from the start on are on the board and owned by the player |
| Rules.WinsIffFive | gomoku_board.py:53-70 | check_win through a player's stone holds exactly when five of that player's stones in a row on one axis cover the cell |
| Rules.LineIgnoresOwnCell | gomoku_board.py:67-68 | count(dx, dy) + count(-dx, -dy) + 1 does not depend on what the cell itself holds |
| Rules.WinsIgnoresOwnCell | gomoku_board.py:53-70 | check_win(x, y, p) gives the same answer whatever cell (x, y) holds |
| Rules.StretchAway | gomoku_board.py:55-63 | a run that moves away from a cell never reads it, so overwriting that cell leaves the run unchanged |
| Rules.CompletesIffFive | gomoku_board.py:203-219 | a stone tried on an empty cell wins exactly when it completes five in a row through that cell |
| Rules.FirstWinnerFromFinds | gomoku_board.py:155-158 | the scan from (x, y) answers the owner of the first winning stone at or after (x, y), and None only when there is none |
| Rules.FirstWinnerIsFirst | gomoku_board.py:155-158 | minimax's terminal scan answers None exactly when no stone wins; otherwise it answers the owner of the first winning stone in row-major order |
| Rules.FirstCompletionFromFinds | gomoku_board.py:203-219 | the win and block scans from (x, y) answer the first cell at or after (x, y) where a stone of the player wins, and None only when there is none |
| Rules.FirstCompletionIsFirst | gomoku_board.py:203-219 | the win and block scans answer None exactly when no empty cell lets the player win; otherwise they answer the first such cell in row-major order |
| Rules.StonesZero | gomoku_board.py:189 | the stone count of an empty grid is 0 |
| Rules.StonesTwo | gomoku_board.py:189-190 | two occupied cells make a stone count of at least 2 |
| Rules.RowMajorFrom | gomoku_board.py:91 | the listing holds only on-board cells of the set, and every such cell from (x, y) on |
| Rules.RowMajorLists | gomoku_board.py:91 | list(cells) lists exactly the on-board cells of the set, each once, in strictly increasing row-major order |
| Heuristic.WindowNonneg | gomoku_board.py:128-148 | the unsigned points of a window are never negative |
| Heuristic.DirsFromNonneg | gomoku_board.py:127-150 | the unsigned points of a stone over its directions are never negative |
| Heuristic.CellScoreSign | gomoku_board.py:122-150 | an AI stone never scores negative; any other content never scores positive |
| Heuristic.EvalFromSign | gomoku_board.py:121-151 | the partial sum from (x, y) on is non-negative on a board with only AI stones and non-positive on one without any |
| Heuristic.EvaluateSign | gomoku_board.py:118-151 | evaluate() is non-negative with only AI stones, non-positive without any, and 0 on the empty board |
| Heuristic.LoneWindow | gomoku_board.py:128-148 | the window of a lone stone scores nothing: a run never reaches 2 |
| Heuristic.LoneDirs | gomoku_board.py:127-150 | a lone stone earns exactly the centre bonus of 5 per direction, and only inside the centre region |
| Heuristic.LoneEvalFrom | gomoku_board.py:121-151 | with one stone on the board, the sum from (x, y) on is that stone's score if it lies at or after (x, y), and 0 otherwise |
| Heuristic.LoneStone | gomoku_board.py:118-151 | evaluate() of a lone stone is plus or minus 20 when it is in the centre region, and 0 outside it |
| Candidates.Ring | gomoku_board.py:77-81 | the cells gathered around a stone are empty and on the board |
| Candidates.NearbyList | gomoku_board.py:91 | get_nearby_cells never answers an empty list, and every cell in it is on the board |
| Candidates.RingsBeforeAre | gomoku_board.py:83-90 | the all-stones scan, up to (x, y), gathers exactly the empty on-board cells within 2 of a stone that comes before (x, y) |
| Candidates.NearbySetIs | gomoku_board.py:72-90 | the candidate set is exactly the empty on-board cells within 2 of the last move, or of any stone when there is no last move |
| Candidates.NearbyListIs | gomoku_board.py:91 | an empty candidate set gives [centre]; otherwise the list holds exactly the candidates, each once |
| Candidates.NearbyAfterStone | gomoku_board.py:72-91 | placing a stone removes at most that cell from the candidates |
| Candidates.NearbyShrinksByOne | gomoku_board.py:72-91 | placing a stone shrinks the candidate set by at most one |
| Search.Insert | gomoku_board.py:115 | inserting adds exactly one entry, keeping all the others |
| Search.SortDesc | gomoku_board.py:115 | sorting is a permutation |
| Search.InsertSorted | gomoku_board.py:115 | inserting into a descending list keeps it descending |
| Search.SortDescSorted | gomoku_board.py:115 | ordered.sort(reverse=True) leaves the list in descending (priority, x, y) order |
| Search.SortCoords | gomoku_board.py:115-116 | sorting rearranges the listed moves and loses none |
| Search.Entries | gomoku_board.py:101-114 | the scoring loop makes one entry per move, in the moves' order, tagged with that move |
| Search.Order | gomoku_board.py:99-116 | order_moves answers as many on-board moves as it is given |
| Search.EntriesOnEmpty | gomoku_board.py:102-114 | on empty cells, the trial stone and its undo leave the grid unchanged, and each move is scored on that grid |
| Search.OrderSorts | gomoku_board.py:99-116 | on empty cells order_moves leaves the grid unchanged and answers a permutation of the moves in descending (priority, x, y) order; the order is strict when no move repeats |
| SearchFacts.MinimaxFinite | gomoku_board.py:153-185 | minimax always answers a finite score, never plus or minus infinity |
| SearchFacts.ExploreFinite | gomoku_board.py:164-185 | the candidate loop answers a finite score once one candidate has been searched |
| Search.ExploreScores | gomoku_board.py:164-185 | the candidate loop records at most one child score per candidate, and at least the first one |
| Search.RootScores | gomoku_board.py:221-230 | the root loop, which never cuts off, records one child score per candidate |
| SearchFacts.TopIsMax | gomoku_board.py:170-171 | folding max over scores from a start reaches at least the start and every score, and is the start or one of the scores |
| SearchFacts.BottomIsMin | gomoku_board.py:181-182 | folding min over scores from a start reaches at most the start and every score, and is the start or one of the scores |
| SearchFacts.ExploreValue | gomoku_board.py:164-185 | the candidate loop answers the maximum (or minimum) of its starting value and every child score it records |
| SearchFacts.ExploreCutoff | gomoku_board.py:164-185 | the loop stops right after the first score that brings beta <= alpha: every earlier prefix of the scores keeps alpha < beta, and a loop that stops before the last candidate has reached beta <= alpha |
| SearchFacts.CutoffAbove | gomoku_board.py:165-174 | the maximizing half of ExploreCutoff, with alpha raised by each score |
| SearchFacts.CutoffBelow | gomoku_board.py:176-185 | the minimizing half of ExploreCutoff, with beta lowered by each score |
| SearchFacts.ExploreScoresAre | gomoku_board.py:164-185 | when each child restores the grid, the i-th recorded score is the child search of the i-th candidate on the same grid, with alpha (maximizing) or beta (minimizing) folded over the earlier scores |
| SearchFacts.ScoresAbove | gomoku_board.py:165-174 | the maximizing half of ExploreScoresAre |
| SearchFacts.ScoresBelow | gomoku_board.py:176-185 | the minimizing half of ExploreScoresAre |
| SearchFacts.MinimaxValue | gomoku_board.py:153-185 | at a node with no winner, depth at least 1 and at least one candidate, minimax answers the maximum (or minimum) of -inf (or +inf) and the child scores of the ordered candidates it explores |
| SearchFacts.LoopValue | gomoku_board.py:162-185 | at a node with at least one candidate, ordering leaves the grid as it was and the candidate loop answers the maximum (or minimum) of the scores it records |
| SearchFacts.LoopScores | gomoku_board.py:162-185 | with more than d candidates, each recorded score is the child search of that ordered candidate on the unchanged grid, with the bound moved by the earlier scores |
| SearchFacts.OrderedCandidates | gomoku_board.py:162 | ordering the candidates leaves the grid unchanged and answers only candidates |
| SearchFacts.PlaceUndo | gomoku_board.py:166-168 | writing a stone and then 0 over an empty cell restores the grid |
| SearchFacts.CandidateRestores | gomoku_board.py:166-168 | a candidate's stone, its child search and the undo restore the grid when enough candidates remain |
| SearchFacts.ExploreRestores | gomoku_board.py:164-185 | the candidate loop restores the grid when each candidate's child does |
| SearchFacts.MinimaxRestores | gomoku_board.py:153-185 | minimax leaves the grid as it found it when at least `depth` candidates are available |
| SearchFacts.RootSearchRestores | gomoku_board.py:221-230 | the root loop restores the grid when each child does, and answers either its starting move or one of the candidates |
| SearchFacts.RootSearchAnswers | gomoku_board.py:221-230 | the root loop answers a move once it has seen one candidate, since every finite score beats -inf |
| SearchFacts.BestMoveUnfold | gomoku_board.py:189-219 | with fewer than two stones down, or with an immediate win or block, get_best_move answers a move without searching and leaves the grid unchanged |
| SearchFacts.BestMoveAnswers | gomoku_board.py:187-230 | get_best_move always answers a move |
| SearchFacts.BestMoveOpening | gomoku_board.py:189-195 | with fewer than two stones it answers the centre when it is free and otherwise (x=7, y=6), a valid move either way, and it leaves the grid unchanged |
| SearchFacts.BestMoveWins | gomoku_board.py:203-210 | past the opening it answers the first empty cell where an AI stone wins, when there is one, and leaves the grid unchanged |
| SearchFacts.BestMoveBlocks | gomoku_board.py:212-219 | with no AI win it answers the first empty cell where a human stone would win, when there is one |
| SearchFacts.BestMoveChooses | gomoku_board.py:187-230 | past the opening and with no immediate win or block, get_best_move answers the first ordered candidate whose root score is strictly greatest; when get_nearby_cells has candidates that answer is one of them, so an empty cell |
| SearchFacts.BestMoveSearches | gomoku_board.py:221-230 | otherwise, when at least `depth` candidates exist, it answers a candidate (an empty cell, so a valid move), namely the first ordered candidate whose child score is strictly greatest, and leaves the grid unchanged |
| SearchFacts.RootLoopRestores | gomoku_board.py:221-230 | when more than d candidates exist, the root loop over the ordered candidates answers a candidate and restores the grid |
| SearchFacts.RootSearchIsPick | gomoku_board.py:221-230 | the root loop answers the move Pick chooses from the scores it records (RootScores) |
| SearchFacts.PickIsFirstGreatest | gomoku_board.py:225-228 | the `score > best_score` update keeps its starting move when no score beats the starting score, and otherwise answers the first candidate whose score is strictly greater than every earlier one and no smaller than every later one |
| SearchFacts.RootScoresAre | gomoku_board.py:221-230 | when each child restores the grid, the j-th root score is the child search of the j-th candidate on the same grid, with alpha the maximum of -inf and the earlier scores and beta +inf |
| SearchFacts.RootLoopPicks | gomoku_board.py:221-230 | when more than d candidates exist, the root loop answers the first ordered candidate with the strictly greatest score, and each score is the child search on the unchanged grid with alpha raised by the earlier scores |
| SearchFacts.OrderSingle | gomoku_board.py:99-116 | ordering one move answers that move and leaves a 0 in its cell |
| SearchFacts.OrderCentreFallback | gomoku_board.py:91 | with no candidate, order_moves over the centre fallback writes 0 into the centre even if a stone stood there |
| SearchFacts.MinimaxCentreFallback | gomoku_board.py:160-185 | a search node with no candidate and no winner leaves the centre empty, whatever it held before |
| GomokuBoard.Board.constructor | gomoku_board.py:30-34 | a new board is empty and has no last move |
| GomokuBoard.Board.Reset | gomoku_board.py:36-39 | reset leaves a fresh empty grid and no last move |
| GomokuBoard.Board.IsValidMove | gomoku_board.py:41-43 | a move is valid exactly when it is on the board and its cell is empty |
| GomokuBoard.Board.MakeMove | gomoku_board.py:45-51 | a valid move writes the player's stone and records the last move; an invalid one changes nothing; the answer says which |
| GomokuBoard.Board.Count | gomoku_board.py:55-63 | count(dx, dy) is the run of the player's stones starting next to (x, y) |
| GomokuBoard.Board.CheckWin | gomoku_board.py:53-70 | check_win is the five-in-a-row test Rules.Wins |
| GomokuBoard.Board.AddRing | gomoku_board.py:77-81 | adds exactly the empty on-board cells within 2 of (cx, cy) |
| GomokuBoard.Board.StoneRings | gomoku_board.py:83-90 | gathers the empty cells around every stone |
| GomokuBoard.Board.GetNearbyCells | gomoku_board.py:72-91 | answers the candidate list NearbyList of the current grid and last move |
| GomokuBoard.Board.CountStones | gomoku_board.py:189 | counts the occupied cells |
| GomokuBoard.AIPlayer.constructor | gomoku_board.py:94-97 | the player shares the given board and keeps the given depth |
| GomokuBoard.AIPlayer.Evaluate | gomoku_board.py:118-151 | evaluate() computes Heuristic.Evaluate of the grid without changing it |
| GomokuBoard.AIPlayer.ScoreCell | gomoku_board.py:122-150 | a cell's four-direction loop adds CellScore |
| GomokuBoard.AIPlayer.WindowCell | gomoku_board.py:131-140 | one window position updates count and open_ends as NextCount and NextOpen say |
| GomokuBoard.AIPlayer.ScanWindow | gomoku_board.py:128-148 | the 9-cell window loop adds the signed table points of Window |
| GomokuBoard.AIPlayer.MovePriority | gomoku_board.py:103-113 | the priority of one move, with the trial stone written and then reset to 0 |
| GomokuBoard.AIPlayer.OrderMoves | gomoku_board.py:99-116 | order_moves answers Search.Order and leaves the grid Order describes |
| GomokuBoard.AIPlayer.TerminalScan | gomoku_board.py:155-158 | the terminal scan answers FirstWinner |
| GomokuBoard.AIPlayer.Minimax | gomoku_board.py:153-185 | minimax answers the score of Search.Minimax and leaves the grid it describes |
| GomokuBoard.AIPlayer.SearchChild | gomoku_board.py:166-167 | a candidate's stone plus the recursive call compute Search.Child |
| GomokuBoard.AIPlayer.TryCandidate | gomoku_board.py:165-185 | one pass of the candidate loop agrees with Explore |
| GomokuBoard.AIPlayer.MaximizeOver | gomoku_board.py:164-174 | the maximizing loop computes Explore from -inf |
| GomokuBoard.AIPlayer.MinimizeOver | gomoku_board.py:175-185 | the minimizing loop computes Explore from +inf |
| GomokuBoard.AIPlayer.FindCompletion | gomoku_board.py:203-219 | the win and block scans answer FirstCompletion and restore every trial cell |
| GomokuBoard.AIPlayer.SearchRoot | gomoku_board.py:221-230 | the root loop answers RootSearch from -inf with no move |
| GomokuBoard.AIPlayer.GetBestMove | gomoku_board.py:187-230 | get_best_move answers Search.BestMove and leaves the grid it describes |
| GameManager.DynamicDepth | game_manager.py:31-41 | the search depth is always between 2 and 4 |
| GameManager.NewGameDepth | game_manager.py:31-35 | a new game, with no stone on the board, searches at depth 2 |
| GameManager.DynamicDepthBands | game_manager.py:31-41 | the depth is 2 below 10 stones, 3 from 10 to 19, 4 from 20 to 29 and 3 from 30 on, in both directions |
| GameManager.CellOf | game_manager.py:116-120 | the clicked pixel lies in the square of the cell it maps to |
| GameManager.CellOfSquare | game_manager.py:116-120 | every pixel of a cell's square maps back to that cell |
| GameManager.ButtonsApart | game_manager.py:43-55 | no click hits both mode buttons, or both game-over buttons |
| GameManager.Other | game_manager.py:128 | the next player is 1 or 2, and differs from a current player that is 1 or 2 |
| GameManager.Game.constructor | game_manager.py:11-30 | a new game has an empty board, player 1 to move, no winner, and the mode-selection screen |
| GameManager.Game.GetDynamicDepth | game_manager.py:31-41 | get_dynamic_depth applies the schedule to the stone count |
| GameManager.Game.HandleClick | game_manager.py:88-128 | on the selection screen the AI and human buttons choose the mode and other clicks do nothing; once the game is over Play Again starts a new game and Close asks to quit; every other click goes to the board as HandleBoardClick states |
| GameManager.Game.HandleBoardClick | game_manager.py:112-128 | with a mode chosen, the click is ignored while the AI thinks or the game is over, and also on an invalid cell; otherwise the player's stone is placed, a win ends the game with that winner, and otherwise the turn passes |
| GameManager.Game.ResetGame | game_manager.py:130-136 | reset_game empties the board and puts player 1 to move with no winner |
| GameManager.Game.AITurn | game_manager.py:57-86 | ai_turn sets the depth from the schedule, plays get_best_move's answer as a 2-stone when the cell is free, and records a win when check_win holds there |
| GameManager.Game.RunAITurn | game_manager.py:192-194 | the mode never changes; in AI mode, on player 2's turn in a running game, the AI moves and player 1 is to move next; otherwise nothing changes (board, last move, player, game over, winner, AI-thinking flag, search depth) |

## Left out

- Everything pygame does: the window, drawing, fonts, and the "AI Thinking..." text. The UI
  module `game_ui.py` and the entry point `main.py` are not part of this model.
- `pygame.quit()` and `sys.exit()` behind the Close button (game_manager.py:107-108).
  `HandleClick` answers `quit` instead and leaves the game as it was.
- The event loop of `run` beyond its AI step.
- The two-second `asyncio` timeout of `ai_turn` and its fallback to the first nearby cell
  (game_manager.py:70-76). There is no clock in the model: `get_best_move` always finishes.
- The lazy creation of the AI player (game_manager.py:64-65 and 94). The model creates it
  together with the game. Its depth is set before every search, so nothing observable changes.
- The iteration order of the Python set in `get_nearby_cells` is unspecified. The model lists
  the set in row-major order. `order_moves` then sorts by the total key (priority, x, y), so
  for distinct cells the ordered result does not depend on that choice.
- `list.sort` is modelled as an insertion sort on the same key. Only its result matters here.
- GomokuBoard.AIPlayer.GetBestMove: requires a depth of at least 1. The game only sets depths
  2 to 4. With depth 0 the source would call `minimax(-1, ...)`, which never reaches its
  depth-0 base case.
- SearchFacts.MinimaxRestores: the grid is proved restored only when at least `depth`
  candidate cells are available. Without candidates the centre fallback can erase a stone,
  as SearchFacts.MinimaxCentreFallback states.
- SearchFacts.BestMoveSearches: grid restoration is stated under the same hypothesis, and so
  is the statement that the root scores are child searches on the unchanged grid.
  SearchFacts.BestMoveChooses proves the choice of the first greatest score without it.

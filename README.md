# Tic-tac-toe with a minimax opponent, in Dafny

This project models the logic of a browser tic-tac-toe game (`abc.js`). The
game has a 9-cell board stored row by row. Players X and O move in turn. The
8 winning lines are 3 rows, 3 columns and 2 diagonals, and a session keeps
win counters for X ("Player 1") and O ("Player 2"). O can optionally be played
by the computer, which picks its move by an exhaustive minimax search.

The model has three modules, and every member is proved:

- `Board` (`board.dfy`) holds the cells, the marks, and the table of winning
  combinations. It defines `checkWinState` and the available-spot list that
  `minimax` builds. The table is proved to list exactly the rows, columns and
  diagonals of the 3x3 grid, against an independent geometric definition of
  "three in a row".
- `MoveSelector` (`move_selector.dfy`) holds `minimax` in two forms:
  - `Minimax` is the value the search computes, written as a function.
  - `MinimaxInPlace` is the search as the game runs it, on the board array
    itself. It places each hypothetical mark, recurses, and erases the mark.
    It is proved to leave the array exactly as it found it and to return
    `Minimax` of the input board.

  Lemmas about `Minimax` give the remaining facts:
  - every score is -10, 0 or 10;
  - a finished board yields only a score, in the source's priority order;
  - on an open board the chosen cell is empty;
  - the chosen cell is the first empty cell, in index order, whose score is
    best for the mover;
  - a position with an immediate win scores as a win.

  The selection loop, with its ±10000 sentinels, is proved to pick that
  first-best move whenever some score beats the sentinel.
- `Game` (`game.dfy`) is a class whose fields are the top-level variables
  `gameState`, `currentPlayer`, `gameActive`, `player1Wins` and `player2Wins`.
  Its methods are the state logic of `handleCellClick`, `aiMove`,
  `restartGame`, `updateScores` and the win callback. Every method keeps the
  class invariant `Valid()`:
  - while the game runs, nobody has a line and a cell is free;
  - X has one mark more than O exactly when X made the last move.

  The callbacks that `setTimeout` schedules run as explicit steps:
  - `HandleCellClick` and `AiMove` return a `MoveResult` that names the
    continuation they schedule.
  - `WinCallback` scores the win and restarts; after a draw the callback is
    `RestartGame` alone.
  - `Click` runs a click followed by all of its continuations.

The search does not guarantee that the computer takes an immediate win or
blocks an immediate threat. Scores do not decay with depth, and the selection
loop keeps the first move that reaches the best score. A later forced win
therefore ties with an immediate one, and so does every move in a position
that is lost whatever O does; the lower index wins the tie. The model follows
the code. `MoveSelector.MinimaxSeesImmediateWin` proves only that a position
with an immediate win scores as a win.

## Model

| member | source | states |
|---|---|---|
| `Board.WinningCombinationsAreGridLines` | abc.js:12-21 | The eight entries of `winningCombinations` are, in order, rows 0-2, columns 0-2, the main diagonal and the anti-diagonal of the grid (cell (r, c) at index 3r + c). |
| `Board.CheckWinState` | abc.js:151-157 | `checkWinState(board, player)`: some entry of `winningCombinations` has `player`'s mark in all three cells. What that means on the grid is stated by `Board.CheckWinStateIsThreeInARow`. |
| `Board.CheckWinStateIsThreeInARow` | abc.js:151-157 | `checkWinState(board, player)` holds if and only if `player` owns a whole row, a whole column or a whole diagonal. |
| `Board.WinningLineIsThreeInARow` | abc.js:151-157 | A filled winning combination is a full row, column or diagonal. |
| `Board.ThreeInARowIsWinningLine` | abc.js:151-157 | A full row, column or diagonal is one of the winning combinations, so `checkWinState` reports it. |
| `Board.AvailSpots` | abc.js:93 | `availSpots` lists only indices of empty cells, in strictly increasing order, and has exactly as many entries as the board has empty cells. |
| `Board.EmptyCellIsAvailable` | abc.js:93 | Every empty cell is in `availSpots`. |
| `Board.PlaceKeepsOtherLines` | abc.js:44 | Writing the mover's mark into an empty cell neither creates nor destroys a line of the other player. |
| `Board.PlaceCountsOneMark` | abc.js:44 | Writing the mover's mark into an empty cell adds exactly one mark of the mover and none of the other player. |
| `Board.EmptyBoardIsOpen` | abc.js:24 | The initial all-'' board has no line for either player, has an empty cell, and holds no marks. |
| `MoveSelector.BestIndex` | abc.js:121-138 | The selected move is the unique index whose score strictly beats every earlier score for the mover (greater for O, smaller for X) and is not beaten by any later score. |
| `MoveSelector.SelectBest` | abc.js:121-138 | The `bestScore`/`bestMove` loop starting from the -10000 (O) or 10000 (X) sentinel ends on that first-best index whenever some score beats the sentinel. |
| `MoveSelector.Minimax` | abc.js:92-141 | `minimax` as a value. It returns a bare score exactly when the board has a line or no empty cell; otherwise it returns an empty cell with its score. The scores and the choice are characterised by `MinimaxAtFinishedBoard`, `MinimaxScoreIsLeafScore` and `MinimaxPicksFirstBestEmptyCell`. |
| `MoveSelector.MinimaxInPlace` | abc.js:92-141 | The search leaves `newGameState` exactly as it received it, and its result is `Minimax` of the input board. |
| `MoveSelector.ScoreMoves` | abc.js:103-119 | The first loop restores the board and builds `moves`: one entry per available spot, in order, each with the opponent's search score. |
| `MoveSelector.TryMove` | abc.js:105-118 | Placing the mark, searching the opponent's reply and writing '' back restores the board and yields the opponent's search score for that cell. |
| `MoveSelector.PlaceUsesAnEmptyCell` | abc.js:107 | Each hypothetical placement leaves one empty cell fewer, so the recursion terminates. |
| `MoveSelector.Moves` | abc.js:103-119 | The `moves` array after the first n loop turns has n entries. Entry k places the mark at the k-th available spot. `MoveSelector.MovesAt` gives each entry's score. |
| `MoveSelector.MovesAt` | abc.js:104-119 | The k-th entry of `moves` is the k-th available spot, scored by the opponent's search on the board with the mover's mark placed there. |
| `MoveSelector.MinimaxScoreIsLeafScore` | abc.js:95-101 | Every score the search produces is -10, 0 or 10. |
| `MoveSelector.MovesScoresAreLeafScores` | abc.js:109-115 | Every score recorded in `moves` is -10, 0 or 10. |
| `MoveSelector.MinimaxAtFinishedBoard` | abc.js:95-101 | At a finished board the score is -10 for an X line (checked first), else 10 for an O line, else 0 for a full board. |
| `MoveSelector.FirstMoveBeatsSentinel` | abc.js:123-131 | On an open board the first scored move beats the ±10000 sentinel, so the selection loop always chooses a move. |
| `MoveSelector.FirstBestMoveIsMinimax` | abc.js:140 | The move the selection loop picks is the search's value. |
| `MoveSelector.MinimaxPicksFirstBestEmptyCell` | abc.js:92-140 | On a board with no line and an empty cell, the returned index is an empty cell and its score is that cell's search score. No empty cell scores better for the mover, and every empty cell at a lower index scores strictly worse. |
| `MoveSelector.MinimaxSeesImmediateWin` | abc.js:95-98 | If the mover can complete a line with one mark, the search scores the board as the mover's win (-10 for X, 10 for O). |
| `Game.TicTacToe.constructor` | abc.js:23-27 | The initial state is an empty board, X to move, the game active and both counters 0. The class invariant holds. |
| `Game.TicTacToe.CheckWin` | abc.js:143-149 | `checkWin()` holds if and only if the current player owns a whole row, column or diagonal. |
| `Game.TicTacToe.HandleCellClick` | abc.js:35-65 | A click on an occupied cell, or while the game is inactive, changes nothing. So does any click on a board with a line or no empty cell. Otherwise the current player's mark goes into exactly that cell, and exactly one outcome follows: win (game inactive, mover kept), draw (game inactive), or turn passes to the other player, with the computer's move scheduled exactly when that player is O and the computer opponent is on. Counters are untouched and the invariant is kept. |
| `Game.TicTacToe.AiMove` | abc.js:67-90 | O's mark goes into exactly the cell `minimax` picks, which was empty. The outcome is a win, a draw, or X to move. Counters are untouched and the invariant is kept. |
| `Game.TicTacToe.RestartGame` | abc.js:159-164 | All nine cells are empty, X is to move and the game is active. Both counters are unchanged. |
| `Game.TicTacToe.UpdateScores` | abc.js:166-173 | Only the current player's counter changes, and it goes up by exactly 1. |
| `Game.TicTacToe.WinCallback` | abc.js:48-52 | After a win, the winner's counter goes up by exactly 1 and the board is reset. |
| `Game.TicTacToe.Click` | abc.js:35-90 | A click and every continuation it schedules. The click is ignored exactly when the cell is occupied or the game is over, and then nothing changes. Otherwise the human's move wins exactly when it completes a line for the mover; it draws exactly when it does not and leaves no empty cell. When the turn passes, the computer's reply is scheduled exactly when X moved and the computer opponent is on. The computer moves exactly in that case; its move wins or draws by the same rules on the board with O's mark in the cell `minimax` picks. When play goes on, the same board array holds the new marks and the other player is to move; after the computer's move no further computer move is scheduled. A completed game raises the winner's counter once (no counter for a draw) and leaves a fresh, empty board array with X to move. |

## Left out

- DOM access is not modelled: element lookups, listener registration,
  `textContent` writes and the "Player 1 (X) - Wins: n" display text
  (abc.js:3-10, 29-33, 43, 69, 71, 163, 169, 172, 174-176). These are rendering, not
  logic.
- `alert` and `setTimeout` are not modelled as such. Each scheduled callback
  is an explicit step (`WinCallback`, `RestartGame`, `AiMove`), and `Click`
  runs them in order right after the click. The 10 ms and 500 ms delays are
  not modelled. Neither is a click that lands inside the 500 ms before the
  computer moves, which the code does not guard against.
- The opponent select box is a boolean parameter, "computer opponent on". The
  cell's `data-index` attribute is a natural number below 9.
- `Game.TicTacToe.AiMove`: requires that the game is active and O is to move,
  which is how the code schedules it. The class invariant then makes the
  board open. A call on a finished board (where `minimax` returns no index)
  is not modelled.
- `MoveSelector.SelectBest`: requires some score to beat the sentinel. If none
  does, the code leaves `bestMove` undefined. That cannot happen inside the
  search, whose scores are -10, 0 or 10.
- `MoveSelector.MinimaxInPlace`: the first `for` loop of `minimax` is its own
  method (`ScoreMoves`), and the loop body is another (`TryMove`). The order
  of writes to the array is the same as in the code.
- The model proves that the chosen move is a first best move. It does not
  prove that the computer prefers an immediate win, blocks an immediate
  threat, never loses, or that self-play ends in a draw. The first two are not
  what the code does (see above). The last two need an exhaustive game-tree
  argument.
- The win counters are unbounded naturals. JavaScript numbers cannot
  realistically overflow here.

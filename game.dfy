/** The game state machine: the board, whose turn it is, whether the game is
    still running, and the two win counters, with the operations the page's
    click handlers and timer callbacks run on them. */
module Game {
  import opened Board
  import opened MoveSelector

  /** What a move leads to, naming the continuation it schedules. */
  datatype MoveResult =
    | Ignored                       // occupied cell or finished game: nothing changed
    | Win(winner: Player)           // the mover completed a line; scoring and a restart follow
    | Draw                          // the board is full; a restart follows
    | TurnPassed(aiScheduled: bool) // the other player is to move; the computer moves if scheduled

  class TicTacToe {
    var gameState: array<Cell>
    var currentPlayer: Player
    var gameActive: bool
    var player1Wins: nat  // games won by X
    var player2Wins: nat  // games won by O

    /** The invariant of every state the game reaches: nine cells; while the
        game runs, nobody has a line and a cell is free; and X has one mark
        more than O exactly when X made the last move. */
    ghost predicate Valid()
      reads this, gameState
    {
      && gameState.Length == Size
      && (gameActive ==> Open(gameState[..]))
      && MarkCount(gameState[..], X) ==
           MarkCount(gameState[..], O) + (if (currentPlayer == O) == gameActive then 1 else 0)
    }

    /** The page's initial state: an empty board, X to move, no wins. */
    constructor ()
      ensures Valid() && fresh(gameState)
      ensures gameState[..] == EmptyBoard && currentPlayer == X && gameActive
      ensures player1Wins == 0 && player2Wins == 0
    {
      gameState := new Cell[Size](_ => Empty);
      currentPlayer := X;
      gameActive := true;
      player1Wins := 0;
      player2Wins := 0;
      new;
      assert gameState[..] == EmptyBoard;
      EmptyBoardIsOpen();
    }

    /** `checkWin()`: the player to move owns a whole row, column or diagonal. */
    predicate CheckWin()
      reads this, gameState
      requires gameState.Length == Size
      ensures CheckWin() <==> ThreeInARow(gameState[..], currentPlayer)
    {
      CheckWinStateIsThreeInARow(gameState[..], currentPlayer);
      CheckWinState(gameState[..], currentPlayer)
    }

    /** The state logic of `handleCellClick`: a click on an occupied cell or
        after the game ended changes nothing; otherwise the current player's
        mark goes into that cell and only that cell, and then the game is won,
        drawn, or passes to the other player. */
    method HandleCellClick(cellIndex: nat, computerOpponent: bool) returns (r: MoveResult)
      requires Valid() && cellIndex < Size
      modifies this, gameState
      ensures Valid() && gameState == old(gameState)
      ensures player1Wins == old(player1Wins) && player2Wins == old(player2Wins)
      ensures r.Ignored? <==> old(gameState[cellIndex]) != Empty || !old(gameActive)
      ensures !Open(old(gameState[..])) ==> r.Ignored?
      ensures r.Ignored? ==>
                gameState[..] == old(gameState[..]) &&
                currentPlayer == old(currentPlayer) && gameActive == old(gameActive)
      ensures !r.Ignored? ==> gameState[..] == old(gameState[..])[cellIndex := Mark(old(currentPlayer))]
      ensures r.Win? <==> !r.Ignored? && CheckWinState(gameState[..], old(currentPlayer))
      ensures r.Draw? <==>
                !r.Ignored? && !CheckWinState(gameState[..], old(currentPlayer)) && Empty !in gameState[..]
      ensures r.Win? ==> r.winner == old(currentPlayer)
      ensures r.Win? || r.Draw? ==> !gameActive && currentPlayer == old(currentPlayer)
      ensures r.TurnPassed? ==>
                gameActive && currentPlayer == Other(old(currentPlayer)) &&
                r.aiScheduled == (currentPlayer == O && computerOpponent)
    {
      if gameState[cellIndex] != Empty || !gameActive {
        return Ignored;
      }
      ghost var before := gameState[..];
      gameState[cellIndex] := Mark(currentPlayer);
      PlaceKeepsOtherLines(before, cellIndex, currentPlayer);
      PlaceCountsOneMark(before, cellIndex, currentPlayer);
      if CheckWin() {
        gameActive := false;
        r := Win(currentPlayer);
      } else if Empty !in gameState[..] {
        gameActive := false;
        r := Draw;
      } else {
        currentPlayer := if currentPlayer == X then O else X;
        r := TurnPassed(currentPlayer == O && computerOpponent);
      }
    }

    /** The state logic of `aiMove`: O's mark goes into the cell the search
        picks, which was empty, and then the game is won, drawn, or passes to X. */
    method AiMove() returns (r: MoveResult)
      requires Valid() && gameActive && currentPlayer == O
      modifies this, gameState
      ensures Valid() && gameState == old(gameState)
      ensures player1Wins == old(player1Wins) && player2Wins == old(player2Wins)
      ensures Minimax(old(gameState[..]), O).Placed?
      ensures var bestMove := Minimax(old(gameState[..]), O).index;
                bestMove < Size && old(gameState[bestMove]) == Empty &&
                gameState[..] == old(gameState[..])[bestMove := Mark(O)]
      ensures r.Win? <==> CheckWinState(gameState[..], O)
      ensures r.Draw? <==> !CheckWinState(gameState[..], O) && Empty !in gameState[..]
      ensures r.Win? ==> r.winner == O
      ensures r.Win? || r.Draw? ==> !gameActive && currentPlayer == O
      ensures !r.Win? && !r.Draw? ==> r == TurnPassed(false) && gameActive && currentPlayer == X
    {
      ghost var before := gameState[..];
      var best := MinimaxInPlace(gameState, O);
      var bestMove := best.index;
      gameState[bestMove] := Mark(currentPlayer);
      PlaceKeepsOtherLines(before, bestMove, currentPlayer);
      PlaceCountsOneMark(before, bestMove, currentPlayer);
      if CheckWin() {
        gameActive := false;
        r := Win(currentPlayer);
      } else if Empty !in gameState[..] {
        gameActive := false;
        r := Draw;
      } else {
        currentPlayer := X;
        r := TurnPassed(false);
      }
    }

    /** `restartGame`: a fresh empty board, X to move, the game running; the
        win counters are kept. */
    method RestartGame()
      modifies this
      ensures Valid() && fresh(gameState)
      ensures gameState[..] == EmptyBoard && currentPlayer == X && gameActive
      ensures player1Wins == old(player1Wins) && player2Wins == old(player2Wins)
    {
      gameState := new Cell[Size](_ => Empty);
      currentPlayer := X;
      gameActive := true;
      assert gameState[..] == EmptyBoard;
      EmptyBoardIsOpen();
    }

    /** The counters of `updateScores`: the current player's count goes up by
        one, and nothing else changes. */
    method UpdateScores()
      modifies this
      ensures gameState == old(gameState) && currentPlayer == old(currentPlayer) && gameActive == old(gameActive)
      ensures player1Wins == old(player1Wins) + (if currentPlayer == X then 1 else 0)
      ensures player2Wins == old(player2Wins) + (if currentPlayer == O then 1 else 0)
    {
      if currentPlayer == X {
        player1Wins := player1Wins + 1;
      } else {
        player2Wins := player2Wins + 1;
      }
    }

    /** The callback scheduled after a win: count the win of the player who
        made the last move, then restart. (After a draw the callback is
        `RestartGame` alone.) */
    method WinCallback()
      modifies this
      ensures Valid() && fresh(gameState)
      ensures gameState[..] == EmptyBoard && currentPlayer == X && gameActive
      ensures player1Wins == old(player1Wins) + (if old(currentPlayer) == X then 1 else 0)
      ensures player2Wins == old(player2Wins) + (if old(currentPlayer) == O then 1 else 0)
    {
      UpdateScores();
      RestartGame();
    }

    /** A click on cell `cellIndex` followed, in order, by every callback it
        schedules: the computer's reply when one is due, and the scoring and
        restart after a win or the restart after a draw. */
    method Click(cellIndex: nat, computerOpponent: bool) returns (human: MoveResult, computer: MoveResult)
      requires Valid() && cellIndex < Size
      modifies this, gameState
      ensures Valid()
      ensures human.Ignored? <==> old(gameState[cellIndex]) != Empty || !old(gameActive)
      ensures human.Ignored? ==>
                gameState == old(gameState) && gameState[..] == old(gameState[..]) &&
                currentPlayer == old(currentPlayer) && gameActive == old(gameActive)
      ensures var afterHuman := old(gameState[..])[cellIndex := Mark(old(currentPlayer))];
                && (human.Win? <==> !human.Ignored? && CheckWinState(afterHuman, old(currentPlayer)))
                && (human.Draw? <==>
                      !human.Ignored? && !CheckWinState(afterHuman, old(currentPlayer)) && Empty !in afterHuman)
      ensures human.Win? ==> human.winner == old(currentPlayer)
      ensures human.TurnPassed? ==> human.aiScheduled == (old(currentPlayer) == X && computerOpponent)
      ensures !computer.Ignored? <==> human == TurnPassed(true)
      ensures human == TurnPassed(true) ==>
                var afterHuman := old(gameState[..])[cellIndex := Mark(X)];
                && Minimax(afterHuman, O).Placed?
                && var afterComputer := afterHuman[Minimax(afterHuman, O).index := Mark(O)];
                && (computer.Win? <==> CheckWinState(afterComputer, O))
                && (computer.Draw? <==> !CheckWinState(afterComputer, O) && Empty !in afterComputer)
      ensures computer.Win? ==> computer.winner == O
      ensures computer.TurnPassed? ==> !computer.aiScheduled
      ensures human.Win? || human.Draw? || computer.Win? || computer.Draw? ==> fresh(gameState)
      ensures !(human.Win? || human.Draw? || computer.Win? || computer.Draw?) ==> gameState == old(gameState)
      ensures human.Win? || human.Draw? || computer.Win? || computer.Draw? ==>
                gameState[..] == EmptyBoard && currentPlayer == X && gameActive
      ensures human.TurnPassed? && !human.aiScheduled ==>
                gameState[..] == old(gameState[..])[cellIndex := Mark(old(currentPlayer))] &&
                currentPlayer == Other(old(currentPlayer)) && gameActive
      ensures computer.TurnPassed? ==>
                var afterHuman := old(gameState[..])[cellIndex := Mark(X)];
                Minimax(afterHuman, O).Placed? &&
                gameState[..] == afterHuman[Minimax(afterHuman, O).index := Mark(O)] &&
                currentPlayer == X && gameActive
      ensures player1Wins == old(player1Wins) + (if human.Win? && human.winner == X then 1 else 0)
      ensures player2Wins ==
                old(player2Wins) + (if (human.Win? && human.winner == O) || computer.Win? then 1 else 0)
    {
      human := HandleCellClick(cellIndex, computerOpponent);
      computer := Ignored;
      if human.Win? {
        WinCallback();
      } else if human.Draw? {
        RestartGame();
      } else if human.TurnPassed? && human.aiScheduled {
        computer := AiMove();
        if computer.Win? {
          WinCallback();
        } else if computer.Draw? {
          RestartGame();
        }
      }
    }
  }
}

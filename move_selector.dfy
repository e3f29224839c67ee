/** The computer's move selector: an exhaustive minimax search over the board.
    `Minimax` is the value the search computes, as a function; `MinimaxInPlace`
    is the search as the game runs it, placing and undoing marks in the board
    array it is given. */
module MoveSelector {
  import opened Board

  /** What `minimax` returns: only a score at a finished board, otherwise the
      chosen cell and the score it leads to. */
  datatype Move = Scored(score: int) | Placed(index: nat, score: int)

  /** The only scores the search produces: an X line, a draw, an O line. */
  predicate IsLeafScore(score: int)
  {
    score == -10 || score == 0 || score == 10
  }

  /** The score of a finished game won by `player`. */
  function WinScore(player: Player): (score: int)
  {
    if player == X then -10 else 10
  }

  /** `a` is strictly better than `b` for `player`: O maximises, X minimises. */
  predicate Beats(player: Player, a: int, b: int)
  {
    if player == O then a > b else a < b
  }

  /** The starting value of `bestScore` in the selection loop. */
  function Sentinel(player: Player): (score: int)
  {
    if player == O then -10000 else 10000
  }

  /** Index `k` holds the first move whose score no move beats for `player`:
      it beats every move before it and no later move beats it. */
  predicate IsFirstBest(moves: seq<Move>, player: Player, k: int)
  {
    && 0 <= k < |moves|
    && (forall j | 0 <= j < k :: Beats(player, moves[k].score, moves[j].score))
    && (forall j | k < j < |moves| :: !Beats(player, moves[j].score, moves[k].score))
  }

  /** The move the selection loop settles on, scanning left to right and
      replacing the current best only on a strict improvement. */
  function BestIndex(moves: seq<Move>, player: Player): (k: nat)
    requires |moves| > 0
    ensures IsFirstBest(moves, player, k)
    ensures forall k' | IsFirstBest(moves, player, k') :: k' == k
  {
    var last := |moves| - 1;
    if last == 0 then 0
    else
      var k := BestIndex(moves[..last], player);
      if Beats(player, moves[last].score, moves[k].score) then last else k
  }

  /** The `moves` list after its first `n` entries: the moves of `player` at
      the first `n` of `spots`, each scored by the opponent's search on the
      board that results. */
  function Moves(board: seq<Cell>, player: Player, spots: seq<nat>, n: nat): (moves: seq<Move>)
    requires |board| == Size
    requires SpotsAreEmpty(board, spots) && n <= |spots|
    ensures |moves| == n
    ensures forall k | 0 <= k < n :: moves[k].Placed? && moves[k].index == spots[k]
    decreases multiset(board)[Empty], 0, n
  {
    if n == 0 then []
    else
      Moves(board, player, spots, n - 1) + [Placed(spots[n - 1], ChildScore(board, player, spots[n - 1]))]
  }

  /** `minimax(newGameState, player)`, as a value: the score of a finished
      board, otherwise the first best move of `player` over the empty cells.
      It returns a bare score exactly at a finished board, and otherwise
      places the mark on an empty cell. */
  function Minimax(board: seq<Cell>, player: Player): (m: Move)
    requires |board| == Size
    ensures m.Scored? <==> !Open(board)
    ensures m.Placed? ==> m.index < |board| && board[m.index] == Empty
    decreases multiset(board)[Empty], 1
  {
    var availSpots := AvailSpots(board);
    if CheckWinState(board, X) then Scored(-10)
    else if CheckWinState(board, O) then Scored(10)
    else if |availSpots| == 0 then Scored(0)
    else
      var moves := Moves(board, player, availSpots, |availSpots|);
      moves[BestIndex(moves, player)]
  }

  /** The score of placing `player`'s mark at the empty cell `i`. */
  function ChildScore(board: seq<Cell>, player: Player, i: nat): (score: int)
    requires |board| == Size && i < Size && board[i] == Empty
    decreases multiset(board)[Empty], 0, 0
  {
    PlaceUsesAnEmptyCell(board, i, player);
    Minimax(board[i := Mark(player)], Other(player)).score
  }

  // ---------------------------------------------------------------------------
  // Properties of the search.

  /** Marking an empty cell leaves one empty cell fewer, which is why the
      search terminates. */
  lemma PlaceUsesAnEmptyCell(board: seq<Cell>, i: nat, player: Player)
    requires i < |board| && board[i] == Empty
    ensures multiset(board[i := Mark(player)])[Empty] == multiset(board)[Empty] - 1
  {
  }

  /** Each listed move is scored by the opponent's search after it. */
  lemma {:induction false} MovesAt(board: seq<Cell>, player: Player, spots: seq<nat>, n: nat, k: nat)
    requires |board| == Size
    requires SpotsAreEmpty(board, spots) && k < n <= |spots|
    ensures Moves(board, player, spots, n)[k] == Placed(spots[k], ChildScore(board, player, spots[k]))
    decreases n
  {
    var prefix := Moves(board, player, spots, n - 1);
    var moves := Moves(board, player, spots, n);
    MovesStep(board, player, spots, n - 1);
    if k < n - 1 {
      MovesAt(board, player, spots, n - 1, k);
      assert moves[k] == prefix[k];
    } else {
      assert moves[k] == moves[n - 1];
    }
  }

  /** Scoring one more spot appends one move to the list. */
  lemma MovesStep(board: seq<Cell>, player: Player, spots: seq<nat>, i: nat)
    requires |board| == Size && SpotsAreEmpty(board, spots) && i < |spots|
    ensures Moves(board, player, spots, i + 1) ==
              Moves(board, player, spots, i) + [Placed(spots[i], ChildScore(board, player, spots[i]))]
  {
  }

  /** Every score of the search is -10, 0 or 10. */
  lemma {:induction false} MinimaxScoreIsLeafScore(board: seq<Cell>, player: Player)
    requires |board| == Size
    ensures IsLeafScore(Minimax(board, player).score)
    decreases multiset(board)[Empty], 1
  {
    var availSpots := AvailSpots(board);
    if !CheckWinState(board, X) && !CheckWinState(board, O) && |availSpots| > 0 {
      MovesScoresAreLeafScores(board, player, availSpots, |availSpots|);
    }
  }

  /** Every move listed by `Moves` has a score of -10, 0 or 10. */
  lemma {:induction false} MovesScoresAreLeafScores(board: seq<Cell>, player: Player, spots: seq<nat>, n: nat)
    requires |board| == Size
    requires SpotsAreEmpty(board, spots) && n <= |spots|
    ensures forall k | 0 <= k < n :: IsLeafScore(Moves(board, player, spots, n)[k].score)
    decreases multiset(board)[Empty], 0
  {
    forall k | 0 <= k < n
      ensures IsLeafScore(Moves(board, player, spots, n)[k].score)
    {
      MovesAt(board, player, spots, n, k);
      PlaceUsesAnEmptyCell(board, spots[k], player);
      MinimaxScoreIsLeafScore(board[spots[k] := Mark(player)], Other(player));
    }
  }

  /** At a finished board the score says who won: an X line first, then an O
      line, then a draw. */
  lemma MinimaxAtFinishedBoard(board: seq<Cell>, player: Player)
    requires |board| == Size
    ensures CheckWinState(board, X) ==> Minimax(board, player).score == -10
    ensures !CheckWinState(board, X) && CheckWinState(board, O) ==> Minimax(board, player).score == 10
    ensures !CheckWinState(board, X) && !CheckWinState(board, O) && Empty !in board ==>
              Minimax(board, player).score == 0
  {
    if Empty in board {
      var i :| 0 <= i < |board| && board[i] == Empty;
      EmptyCellIsAvailable(board, i);
    }
  }

  /** On an open board the search takes the first best of the moves at the empty cells. */
  lemma MinimaxChoosesAmongMoves(board: seq<Cell>, player: Player)
    requires |board| == Size && Open(board)
    ensures |AvailSpots(board)| > 0
    ensures Minimax(board, player) ==
              var moves := Moves(board, player, AvailSpots(board), |AvailSpots(board)|);
              moves[BestIndex(moves, player)]
  {
    var i :| 0 <= i < |board| && board[i] == Empty;
    EmptyCellIsAvailable(board, i);
  }

  /** On a board with no line and an empty cell, the first scored move already
      beats the selection loop's sentinel. */
  lemma FirstMoveBeatsSentinel(board: seq<Cell>, player: Player)
    requires |board| == Size && !CheckWinState(board, X) && !CheckWinState(board, O)
    requires |AvailSpots(board)| > 0
    ensures Open(board)
    ensures Beats(player, Moves(board, player, AvailSpots(board), |AvailSpots(board)|)[0].score, Sentinel(player))
  {
    var availSpots := AvailSpots(board);
    assert board[availSpots[0]] == Empty;
    MovesScoresAreLeafScores(board, player, availSpots, |availSpots|);
  }

  /** The first best of the scored moves is the value of the search. */
  lemma FirstBestMoveIsMinimax(board: seq<Cell>, player: Player, k: nat)
    requires |board| == Size && Open(board)
    ensures var moves := Moves(board, player, AvailSpots(board), |AvailSpots(board)|);
              IsFirstBest(moves, player, k) ==> Minimax(board, player) == moves[k]
  {
    MinimaxChoosesAmongMoves(board, player);
  }

  /** On an open board the search picks an empty cell, and it is the first
      empty cell, in increasing index order, whose score is best for `player`. */
  lemma MinimaxPicksFirstBestEmptyCell(board: seq<Cell>, player: Player)
    requires |board| == Size && Open(board)
    ensures Minimax(board, player).Placed?
    ensures Minimax(board, player).index < Size && board[Minimax(board, player).index] == Empty
    ensures Minimax(board, player).score == ChildScore(board, player, Minimax(board, player).index)
    ensures forall i | 0 <= i < Size && board[i] == Empty ::
              !Beats(player, ChildScore(board, player, i), Minimax(board, player).score)
    ensures forall i | 0 <= i < Minimax(board, player).index && board[i] == Empty ::
              Beats(player, Minimax(board, player).score, ChildScore(board, player, i))
  {
    var availSpots := AvailSpots(board);
    MinimaxChoosesAmongMoves(board, player);
    var moves := Moves(board, player, availSpots, |availSpots|);
    MovesAt(board, player, availSpots, |availSpots|, BestIndex(moves, player));
    forall i | 0 <= i < Size && board[i] == Empty
      ensures !Beats(player, ChildScore(board, player, i), Minimax(board, player).score)
      ensures i < Minimax(board, player).index ==> Beats(player, Minimax(board, player).score, ChildScore(board, player, i))
    {
      EmptyCellAgainstPick(board, player, i);
    }
  }

  /** How one empty cell compares with the search's pick: it never scores
      better, and it scores strictly worse when it comes before the pick. */
  lemma EmptyCellAgainstPick(board: seq<Cell>, player: Player, i: nat)
    requires |board| == Size && Open(board) && i < Size && board[i] == Empty
    ensures Minimax(board, player).Placed?
    ensures !Beats(player, ChildScore(board, player, i), Minimax(board, player).score)
    ensures i < Minimax(board, player).index ==> Beats(player, Minimax(board, player).score, ChildScore(board, player, i))
  {
    var availSpots := AvailSpots(board);
    MinimaxChoosesAmongMoves(board, player);
    var moves := Moves(board, player, availSpots, |availSpots|);
    var best := BestIndex(moves, player);
    var m := Minimax(board, player);
    assert m == moves[best];
    EmptyCellIsAvailable(board, i);
    var k :| 0 <= k < |availSpots| && availSpots[k] == i;
    MovesAt(board, player, availSpots, |availSpots|, k);
    if k != best {
      assert k < best <==> i < m.index;
    }
  }

  /** When `player` can complete a line with one mark, the search scores the
      board as a win for `player`. (It does not follow that the search picks
      that cell: a later forced win scores the same.) */
  lemma MinimaxSeesImmediateWin(board: seq<Cell>, player: Player, i: nat)
    requires |board| == Size && Open(board)
    requires i < Size && board[i] == Empty && CheckWinState(board[i := Mark(player)], player)
    ensures Minimax(board, player).score == WinScore(player)
  {
    PlaceKeepsOtherLines(board, i, player);
    PlaceUsesAnEmptyCell(board, i, player);
    MinimaxAtFinishedBoard(board[i := Mark(player)], Other(player));
    assert ChildScore(board, player, i) == WinScore(player);
    MinimaxPicksFirstBestEmptyCell(board, player);
    MinimaxScoreIsLeafScore(board, player);
  }

  // ---------------------------------------------------------------------------
  // The search as it runs.

  /** The selection loop of `minimax`: scan the moves from the sentinel and keep
      the first strict improvement. Some score must beat the sentinel, or the
      loop would choose nothing. */
  method SelectBest(moves: seq<Move>, player: Player) returns (bestMove: nat)
    requires exists j | 0 <= j < |moves| :: Beats(player, moves[j].score, Sentinel(player))
    ensures bestMove < |moves| && IsFirstBest(moves, player, bestMove)
  {
    var bestScore := Sentinel(player);
    var best := -1;
    var i := 0;
    while i < |moves|
      invariant 0 <= i <= |moves|
      invariant -1 <= best < i
      invariant best == -1 ==> bestScore == Sentinel(player)
      invariant best == -1 ==> forall j | 0 <= j < i :: !Beats(player, moves[j].score, Sentinel(player))
      invariant best >= 0 ==> best == BestIndex(moves[..i], player) && bestScore == moves[best].score
    {
      assert moves[..i + 1][..i] == moves[..i];
      if Beats(player, moves[i].score, bestScore) {
        bestScore := moves[i].score;
        best := i;
      }
      i := i + 1;
    }
    assert moves[..i] == moves;
    bestMove := best;
  }

  /** `minimax(newGameState, player)` as the game runs it: each hypothetical
      mark is placed in the array, searched below, and erased again, so the
      array ends as it began and the result is the value `Minimax` defines. */
  method MinimaxInPlace(newGameState: array<Cell>, player: Player) returns (result: Move)
    requires newGameState.Length == Size
    modifies newGameState
    ensures newGameState[..] == old(newGameState[..])
    ensures result == Minimax(old(newGameState[..]), player)
    decreases multiset(newGameState[..])[Empty], 2
  {
    ghost var board := newGameState[..];
    var availSpots := AvailSpots(newGameState[..]);
    if CheckWinState(newGameState[..], X) {
      MinimaxAtFinishedBoard(board, player);
      return Scored(-10);
    } else if CheckWinState(newGameState[..], O) {
      MinimaxAtFinishedBoard(board, player);
      return Scored(10);
    } else if |availSpots| == 0 {
      MinimaxAtFinishedBoard(board, player);
      return Scored(0);
    }

    var moves := ScoreMoves(newGameState, player, availSpots);
    FirstMoveBeatsSentinel(board, player);
    var bestMove := SelectBest(moves, player);
    result := moves[bestMove];
    FirstBestMoveIsMinimax(board, player, bestMove);
  }

  /** The first loop of `minimax`: try each available spot in turn and record
      the move with the score the search gives it. */
  method ScoreMoves(newGameState: array<Cell>, player: Player, availSpots: seq<nat>) returns (moves: seq<Move>)
    requires newGameState.Length == Size && SpotsAreEmpty(newGameState[..], availSpots)
    modifies newGameState
    ensures newGameState[..] == old(newGameState[..])
    ensures moves == Moves(old(newGameState[..]), player, availSpots, |availSpots|)
    decreases multiset(newGameState[..])[Empty], 1
  {
    ghost var board := newGameState[..];
    moves := [];
    var i := 0;
    while i < |availSpots|
      invariant 0 <= i <= |availSpots|
      invariant newGameState[..] == board
      invariant moves == Moves(board, player, availSpots, i)
    {
      var score := TryMove(newGameState, player, availSpots[i]);
      MovesStep(board, player, availSpots, i);
      moves := moves + [Placed(availSpots[i], score)];
      i := i + 1;
    }
  }

  /** One turn of the first loop of `minimax`: place `player`'s mark on the
      empty cell `spot`, search the opponent's reply, and erase the mark. */
  method TryMove(newGameState: array<Cell>, player: Player, spot: nat) returns (score: int)
    requires newGameState.Length == Size && spot < Size && newGameState[spot] == Empty
    modifies newGameState
    ensures newGameState[..] == old(newGameState[..])
    ensures score == ChildScore(old(newGameState[..]), player, spot)
    decreases multiset(newGameState[..])[Empty], 0
  {
    ghost var board := newGameState[..];
    newGameState[spot] := Mark(player);
    PlaceUsesAnEmptyCell(board, spot, player);
    assert newGameState[..] == board[spot := Mark(player)];
    var child := MinimaxInPlace(newGameState, Other(player));
    newGameState[spot] := Empty;
    assert newGameState[..] == board;
    score := child.score;
  }
}

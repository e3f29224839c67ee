/** The 3x3 board of the game: its cells, the marks players place, and the
    eight winning lines that decide a game. */
module Board {

  /** A player, identified by the mark it places: 'X' or 'O'. */
  datatype Player = X | O

  /** One cell of `gameState`: '' (empty) or a player's mark. */
  datatype Cell = Empty | Mark(player: Player)

  /** The number of cells; the board is stored row by row, cell (r, c) at index 3 * r + c. */
  const Size: nat := 9

  /** The board every game starts from: nine empty cells. */
  const EmptyBoard: seq<Cell> := seq(Size, _ => Empty)

  /** The eight index triples that win: three rows, three columns, two diagonals. */
  const WinningCombinations: seq<seq<nat>> := [
    [0, 1, 2],
    [3, 4, 5],
    [6, 7, 8],
    [0, 3, 6],
    [1, 4, 7],
    [2, 5, 8],
    [0, 4, 8],
    [2, 4, 6]
  ]

  /** The opponent of `player`. */
  function Other(player: Player): (other: Player)
    ensures other != player
  {
    if player == X then O else X
  }

  /** Every cell named by `combination` is on the board. */
  predicate OnBoard(board: seq<Cell>, combination: seq<nat>)
  {
    forall j | 0 <= j < |combination| :: combination[j] < |board|
  }

  /** Every cell named by `combination` holds `player`'s mark. */
  predicate Filled(board: seq<Cell>, player: Player, combination: seq<nat>)
    requires OnBoard(board, combination)
  {
    forall j | 0 <= j < |combination| :: board[combination[j]] == Mark(player)
  }

  /** `checkWinState(board, player)`: some winning combination is filled by `player`. */
  predicate CheckWinState(board: seq<Cell>, player: Player)
    requires |board| == Size
  {
    exists k | 0 <= k < |WinningCombinations| ::
      OnBoard(board, WinningCombinations[k]) && Filled(board, player, WinningCombinations[k])
  }

  /** A board on which the game goes on: no line for either player and an empty cell left. */
  predicate Open(board: seq<Cell>)
    requires |board| == Size
  {
    !CheckWinState(board, X) && !CheckWinState(board, O) && Empty in board
  }

  /** The number of `player`'s marks on `board`. */
  function MarkCount(board: seq<Cell>, player: Player): (count: nat)
  {
    multiset(board)[Mark(player)]
  }

  /** Every index in `spots` names an empty cell of `board`. */
  predicate SpotsAreEmpty(board: seq<Cell>, spots: seq<nat>)
  {
    forall k | 0 <= k < |spots| :: spots[k] < |board| && board[spots[k]] == Empty
  }

  /** Indices of the empty cells of `board`, in increasing order (the `availSpots`
      that `minimax` builds with `map` and `filter`). */
  function AvailSpots(board: seq<Cell>): (spots: seq<nat>)
    ensures SpotsAreEmpty(board, spots)
    ensures forall k, l | 0 <= k < l < |spots| :: spots[k] < spots[l]
    ensures |spots| == multiset(board)[Empty]
  {
    if board == [] then []
    else
      var last := |board| - 1;
      assert board == board[..last] + [board[last]];
      AvailSpots(board[..last]) + (if board[last] == Empty then [last] else [])
  }

  /** Every empty cell is among the available spots. */
  lemma {:induction false} EmptyCellIsAvailable(board: seq<Cell>, i: nat)
    requires i < |board| && board[i] == Empty
    ensures i in AvailSpots(board)
  {
    var last := |board| - 1;
    if i < last {
      EmptyCellIsAvailable(board[..last], i);
    }
  }

  // ---------------------------------------------------------------------------
  // An independent reading of "three in a row", straight off the grid geometry.

  /** The cells of row `r`. */
  function Row(r: nat): (line: seq<nat>)
  {
    seq(3, c => 3 * r + c)
  }

  /** The cells of column `c`. */
  function Column(c: nat): (line: seq<nat>)
  {
    seq(3, r => 3 * r + c)
  }

  /** The cells (i, i). */
  function Diagonal(): (line: seq<nat>)
  {
    seq(3, i => 3 * i + i)
  }

  /** The cells (i, 2 - i). */
  function AntiDiagonal(): (line: seq<nat>)
  {
    seq(3, i => 3 * i + (2 - i))
  }

  /** `player` owns a whole row, a whole column or a whole diagonal. */
  ghost predicate ThreeInARow(board: seq<Cell>, player: Player)
    requires |board| == Size
  {
    (exists r | 0 <= r < 3 :: Filled(board, player, Row(r))) ||
    (exists c | 0 <= c < 3 :: Filled(board, player, Column(c))) ||
    Filled(board, player, Diagonal()) ||
    Filled(board, player, AntiDiagonal())
  }

  /** The table of winning combinations, line by line: rows, columns, diagonals. */
  lemma WinningCombinationsAreGridLines()
    ensures WinningCombinations[0] == Row(0) && WinningCombinations[1] == Row(1)
    ensures WinningCombinations[2] == Row(2)
    ensures WinningCombinations[3] == Column(0) && WinningCombinations[4] == Column(1)
    ensures WinningCombinations[5] == Column(2)
    ensures WinningCombinations[6] == Diagonal() && WinningCombinations[7] == AntiDiagonal()
  {
    assert Row(0) == [0, 1, 2] && Row(1) == [3, 4, 5] && Row(2) == [6, 7, 8];
    assert Column(0) == [0, 3, 6] && Column(1) == [1, 4, 7] && Column(2) == [2, 5, 8];
    assert Diagonal() == [0, 4, 8] && AntiDiagonal() == [2, 4, 6];
  }

  /** The table of winning combinations lists exactly the rows, columns and
      diagonals of the grid, so `checkWinState` detects three in a row and nothing else. */
  lemma CheckWinStateIsThreeInARow(board: seq<Cell>, player: Player)
    requires |board| == Size
    ensures CheckWinState(board, player) <==> ThreeInARow(board, player)
  {
    if CheckWinState(board, player) {
      WinningLineIsThreeInARow(board, player);
    }
    if ThreeInARow(board, player) {
      ThreeInARowIsWinningLine(board, player);
    }
  }

  /** A filled winning combination is a full row, column or diagonal. */
  lemma WinningLineIsThreeInARow(board: seq<Cell>, player: Player)
    requires |board| == Size && CheckWinState(board, player)
    ensures ThreeInARow(board, player)
  {
    var w := WinningCombinations;
    WinningCombinationsAreGridLines();
    var k :| 0 <= k < |w| && OnBoard(board, w[k]) && Filled(board, player, w[k]);
    if k < 3 {
      assert Filled(board, player, Row(k));
    } else if k < 6 {
      assert Filled(board, player, Column(k - 3));
    } else if k == 6 {
      assert Filled(board, player, Diagonal());
    } else {
      assert Filled(board, player, AntiDiagonal());
    }
  }

  /** A full row, column or diagonal is in the table, so `checkWinState` sees it. */
  lemma ThreeInARowIsWinningLine(board: seq<Cell>, player: Player)
    requires |board| == Size && ThreeInARow(board, player)
    ensures CheckWinState(board, player)
  {
    var w := WinningCombinations;
    WinningCombinationsAreGridLines();
    if r :| 0 <= r < 3 && Filled(board, player, Row(r)) {
      assert OnBoard(board, w[r]) && Filled(board, player, w[r]);
    } else if c :| 0 <= c < 3 && Filled(board, player, Column(c)) {
      assert OnBoard(board, w[c + 3]) && Filled(board, player, w[c + 3]);
    } else if Filled(board, player, Diagonal()) {
      assert OnBoard(board, w[6]) && Filled(board, player, w[6]);
    } else {
      assert OnBoard(board, w[7]) && Filled(board, player, w[7]);
    }
  }

  /** Placing `player`'s mark on an empty cell neither makes nor breaks a line
      of the other player. */
  lemma PlaceKeepsOtherLines(board: seq<Cell>, i: nat, player: Player)
    requires |board| == Size && i < Size && board[i] == Empty
    ensures CheckWinState(board[i := Mark(player)], Other(player)) == CheckWinState(board, Other(player))
  {
    var after := board[i := Mark(player)];
    forall k | 0 <= k < |WinningCombinations| && OnBoard(board, WinningCombinations[k])
      ensures Filled(after, Other(player), WinningCombinations[k]) == Filled(board, Other(player), WinningCombinations[k])
    {
      var line := WinningCombinations[k];
      forall j | 0 <= j < |line|
        ensures (after[line[j]] == Mark(Other(player))) == (board[line[j]] == Mark(Other(player)))
      {
      }
    }
  }

  /** The empty board is open and holds no marks. */
  lemma EmptyBoardIsOpen()
    ensures Open(EmptyBoard)
    ensures MarkCount(EmptyBoard, X) == 0 && MarkCount(EmptyBoard, O) == 0
  {
    assert EmptyBoard[0] == Empty;
    forall k, player | 0 <= k < |WinningCombinations| && OnBoard(EmptyBoard, WinningCombinations[k])
      ensures !Filled(EmptyBoard, player, WinningCombinations[k])
    {
      assert EmptyBoard[WinningCombinations[k][0]] == Empty;
    }
    forall player ensures Mark(player) !in EmptyBoard {
    }
  }

  /** Placing a mark on an empty cell adds one mark of that player and no other. */
  lemma PlaceCountsOneMark(board: seq<Cell>, i: nat, player: Player)
    requires i < |board| && board[i] == Empty
    ensures MarkCount(board[i := Mark(player)], player) == MarkCount(board, player) + 1
    ensures MarkCount(board[i := Mark(player)], Other(player)) == MarkCount(board, Other(player))
  {
  }
}

/**
 * tictactoe2.py: a self-contained game holding the cell array, the player to
 * move and the list of moves made so far.
 */
module TicTacToe2 {
  import opened Wrappers
  import opened Rules

  /** The value of a game: cells, `current_player` and `game_history`. */
  datatype Game = Game(cells: seq<int>, player: int, history: seq<int>)

  predicate ValidGame(g: Game) {
    |g.cells| == Size && (g.player == 1 || g.player == -1)
  }

  /** The empty board, player 1, no history. */
  const InitialGame: Game := Game(EmptyCells, 1, [])

  /**
   * `return_winner`: the winner when a line is complete, 0 for a full board
   * without one, `None` while the game goes on.
   */
  function GameResult(cells: seq<int>): (r: Option<int>)
    ensures r.Some? ==> r.value == 1 || r.value == 0 || r.value == -1
    ensures r.Some? && r.value != 0 ==> exists k :: 0 <= k < |Lines| && Holds(cells, Lines[k], r.value)
    ensures r == Some(0) <==> IsFull(cells) && !AnyComplete(cells, Lines)
    ensures r.None? <==> !IsFull(cells) && !AnyComplete(cells, Lines)
  {
    var w := Winner(cells);
    if w != 0 then Some(w) else if IsFull(cells) then Some(0) else None
  }

  /** Both versions agree on when a game is over. */
  lemma GameResultAgreesWithIsOver(cells: seq<int>)
    ensures GameResult(cells).Some? <==> IsOver(cells)
    ensures GameResult(cells).Some? ==> GameResult(cells).value == Winner(cells)
  {
  }

  /** `make_move(m)` succeeds: m is on the board and its cell is empty. */
  predicate Legal(g: Game, m: int) {
    0 <= m < Size && m < |g.cells| && g.cells[m] == 0
  }

  /** The game after a successful `make_move(m)`. */
  function Play(g: Game, m: int): Game
    requires Legal(g, m)
  {
    Game(g.cells[m := g.player], -g.player, g.history + [m])
  }

  /** `get_last_move`: the last history entry, `None` for an empty history. */
  function LastMove(g: Game): (r: Option<int>)
    ensures r.None? <==> g.history == []
    ensures r.Some? ==> r.value == g.history[|g.history| - 1]
  {
    if |g.history| > 0 then Some(g.history[|g.history| - 1]) else None
  }

  /** The move just made is the last move. */
  lemma LastMoveAfterPlay(g: Game, m: int)
    requires Legal(g, m)
    ensures LastMove(Play(g, m)) == Some(m)
  {
  }

  /**
   * The history lists distinct cells, exactly the occupied ones, and together
   * with the empty cells it accounts for the whole board.
   */
  ghost predicate HistoryMatches(g: Game) {
    && |g.cells| == Size
    && |g.history| + ZeroCount(g.cells) == Size
    && (forall j :: 0 <= j < Size ==> (g.cells[j] != 0 <==> j in g.history))
    && (forall a, b :: 0 <= a < b < |g.history| ==> g.history[a] != g.history[b])
  }

  lemma InitialHistoryMatches()
    ensures HistoryMatches(InitialGame)
  {
    var cells := InitialGame.cells;
    assert cells == [0] + cells[1..];
    assert ZeroCount(cells[8..]) == 1;
    assert ZeroCount(cells[7..]) == 2;
    assert ZeroCount(cells[6..]) == 3;
    assert ZeroCount(cells[5..]) == 4;
    assert ZeroCount(cells[4..]) == 5;
    assert ZeroCount(cells[3..]) == 6;
    assert ZeroCount(cells[2..]) == 7;
    assert ZeroCount(cells[1..]) == 8;
  }

  /** A successful move by a real player keeps the history consistent with the board. */
  lemma PlayPreservesHistory(g: Game, m: int)
    requires HistoryMatches(g) && g.player != 0 && Legal(g, m)
    ensures HistoryMatches(Play(g, m))
  {
    var h := Play(g, m);
    FillingDecreasesZeroCount(g.cells, m, g.player);
    assert m !in g.history;
    forall j | 0 <= j < Size
      ensures h.cells[j] != 0 <==> j in h.history
    {
      assert j in h.history <==> j in g.history || j == m;
    }
  }

  /** The game after the moves `ms`, each successful; `None` when one raises. */
  function Replay(g: Game, ms: seq<int>): Option<Game>
    decreases |ms|
  {
    if ms == [] then Some(g)
    else if Legal(g, ms[0]) then Replay(Play(g, ms[0]), ms[1..])
    else None
  }

  /**
   * From a consistent game, at most as many moves succeed as there are empty
   * cells: from the empty board, any playout ends within 9 moves.
   */
  lemma {:induction false} ReplayBounded(g: Game, ms: seq<int>)
    requires HistoryMatches(g) && ValidGame(g) && Replay(g, ms).Some?
    ensures HistoryMatches(Replay(g, ms).value) && ValidGame(Replay(g, ms).value)
    ensures |Replay(g, ms).value.history| == |g.history| + |ms|
    ensures |ms| <= ZeroCount(g.cells) <= Size
    decreases |ms|
  {
    if ms != [] {
      PlayPreservesHistory(g, ms[0]);
      FillingDecreasesZeroCount(g.cells, ms[0], g.player);
      ReplayBounded(Play(g, ms[0]), ms[1..]);
    }
  }

  /** The game after the moves `ms`, made as a roll-out makes them: only while the game is not over. */
  function Walk(g: Game, ms: seq<int>): Option<Game>
    decreases |ms|
  {
    if ms == [] then Some(g)
    else if GameResult(g.cells).None? && Legal(g, ms[0]) then Walk(Play(g, ms[0]), ms[1..])
    else None
  }

  lemma {:induction false} WalkSnoc(g: Game, ms: seq<int>, m: int)
    requires Walk(g, ms).Some? && GameResult(Walk(g, ms).value.cells).None? && Legal(Walk(g, ms).value, m)
    ensures Walk(g, ms + [m]) == Some(Play(Walk(g, ms).value, m))
    decreases |ms|
  {
    if ms != [] {
      assert (ms + [m])[1..] == ms[1..] + [m];
      WalkSnoc(Play(g, ms[0]), ms[1..], m);
    }
  }

  class TicTacToe {
    var board: array<int>
    var currentPlayer: int
    var gameHistory: seq<int>

    ghost predicate Valid()
      reads this
    {
      board.Length == Size
    }

    ghost function State(): Game
      reads this, board
    {
      Game(board[..], currentPlayer, gameHistory)
    }

    /** `TicTacToe()`: empty board, player 1, empty history. */
    constructor ()
      ensures Valid() && fresh(board)
      ensures State() == InitialGame
    {
      board := new int[Size](_ => 0);
      currentPlayer := 1;
      gameHistory := [];
    }

    /** `TicTacToe(board, current_player)`: uses the given array itself. */
    constructor WithBoard(b: array<int>, player: int)
      requires b.Length == Size
      ensures Valid() && board == b
      ensures currentPlayer == player && gameHistory == []
    {
      board := b;
      currentPlayer := player;
      gameHistory := [];
    }

    /** Rows, columns, diagonals (1 before -1), then a full board is a draw. */
    method ReturnWinner() returns (w: Option<int>)
      requires Valid()
      ensures w == GameResult(board[..])
    {
      var cells := board[..];
      var i := 0;
      while i < HorizontalSize
        invariant 0 <= i <= HorizontalSize
        invariant Winner(cells) == FirstWinner(cells, Lines[i..])
      {
        var row := board[i * VerticalSize..(i + 1) * VerticalSize];
        RowStep(cells, i);
        if AllEqual(row, 1) {
          return Some(1);
        } else if AllEqual(row, -1) {
          return Some(-1);
        }
        i := i + 1;
      }
      i := 0;
      while i < VerticalSize
        invariant 0 <= i <= VerticalSize
        invariant Winner(cells) == FirstWinner(cells, Lines[HorizontalSize + i..])
      {
        var column := Slice(cells, i, Size, VerticalSize);
        ColumnStep(cells, i);
        if AllEqual(column, 1) {
          return Some(1);
        } else if AllEqual(column, -1) {
          return Some(-1);
        }
        i := i + 1;
      }
      var diagonal := Slice(cells, 0, Size, VerticalSize + 1);
      var antiDiagonal := Slice(cells, VerticalSize - 1, Size - 1, VerticalSize - 1);
      DiagonalsStep(cells);
      if AllEqual(diagonal, 1) || AllEqual(antiDiagonal, 1) {
        return Some(1);
      } else if AllEqual(diagonal, -1) || AllEqual(antiDiagonal, -1) {
        return Some(-1);
      }
      if 0 !in cells {
        return Some(0);
      }
      return None;
    }

    /** The game is over exactly when `return_winner` is not `None`; otherwise a move remains. */
    method IsOver() returns (over: bool)
      requires Valid()
      ensures over <==> GameResult(board[..]).Some?
      ensures !over ==> |PossibleMoves(board[..])| > 0
    {
      var w := ReturnWinner();
      over := w.Some?;
      if !over {
        NotOverHasMoves(board[..]);
      }
    }

    /**
     * On an empty cell in range: marks it, appends the move to the history and
     * hands the turn over. Otherwise raises `ValueError` and changes nothing.
     */
    method MakeMove(move: int) returns (r: Outcome)
      requires Valid()
      modifies this, board
      ensures Valid() && board == old(board)
      ensures r == Pass <==> Legal(old(State()), move)
      ensures State() == if r == Pass then Play(old(State()), move) else old(State())
    {
      if 0 <= move < Size && board[move] == 0 {
        board[move] := currentPlayer;
        gameHistory := gameHistory + [move];
        currentPlayer := -currentPlayer;
        r := Pass;
      } else {
        r := ValueError;
      }
    }

    /** Plays `move` on a copy; this game is left as it was. */
    method GetUpdatedGameState(move: int) returns (r: Result<TicTacToe>)
      requires Valid()
      ensures State() == old(State())
      ensures r.Success? <==> Legal(State(), move)
      ensures r.Success? ==> fresh(r.value) && fresh(r.value.board) && r.value.Valid()
      ensures r.Success? ==> r.value.State() == Play(State(), move)
    {
      var cells := board[..];
      var copy := new int[Size](i requires 0 <= i < Size => cells[i]);
      var game := new TicTacToe.WithBoard(copy, currentPlayer);
      game.gameHistory := gameHistory;
      var o := game.MakeMove(move);
      if o == ValueError {
        return Failure;
      }
      return Success(game);
    }

    /** The empty cells, ascending. */
    method GetPossibleMoves() returns (moves: seq<nat>)
      requires Valid()
      ensures moves == PossibleMoves(board[..])
    {
      moves := PossibleMoves(board[..]);
    }

    method GetLastMove() returns (m: Option<int>)
      requires Valid()
      ensures m == LastMove(State())
    {
      if |gameHistory| > 0 {
        m := Some(gameHistory[|gameHistory| - 1]);
      } else {
        m := None;
      }
    }

    /** A new empty board, player 1, empty history. */
    method Reset()
      modifies this
      ensures Valid() && fresh(board)
      ensures State() == InitialGame
    {
      board := new int[Size](_ => 0);
      currentPlayer := 1;
      gameHistory := [];
    }
  }
}

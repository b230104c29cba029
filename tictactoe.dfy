/**
 * tictactoe.py: a game is a `Board` object plus the player to move; moves
 * alternate between 1 and -1, and every query is delegated to the board.
 */
module TicTacToe1 {
  import opened Wrappers
  import opened Rules
  import opened Boards

  /** The value of a game: its cells and `current_player`. */
  datatype Game = Game(cells: seq<int>, player: int)

  /** Nine cells, and a player who is 1 or -1. */
  predicate ValidGame(g: Game) {
    |g.cells| == Size && (g.player == 1 || g.player == -1)
  }

  /** A fresh game: the empty board with player 1 to move. */
  const InitialGame: Game := Game(EmptyCells, 1)

  /** `make_move(m)` succeeds on `g`: the cell is on the board and empty. */
  predicate Legal(g: Game, m: int) {
    0 <= m < |g.cells| && g.cells[m] == 0
  }

  /** The game after a successful `make_move(m)`. */
  function Play(g: Game, m: nat): Game
    requires Legal(g, m)
  {
    Game(g.cells[m := g.player], -g.player)
  }

  /** The game after the moves `ms`, each of them successful; `None` when one raises. */
  function Replay(g: Game, ms: seq<int>): Option<Game>
    decreases |ms|
  {
    if ms == [] then Some(g)
    else if Legal(g, ms[0]) then Replay(Play(g, ms[0]), ms[1..])
    else None
  }

  /** After k successful moves the player to move is the starting player times (-1)^k. */
  lemma {:induction false} ReplayAlternatesPlayer(g: Game, ms: seq<int>)
    requires Replay(g, ms).Some?
    ensures Replay(g, ms).value.player == Alternating(g.player, |ms|)
    ensures |Replay(g, ms).value.cells| == |g.cells|
    decreases |ms|
  {
    if ms != [] {
      ReplayAlternatesPlayer(Play(g, ms[0]), ms[1..]);
      AlternatingNegated(g.player, |ms| - 1);
    }
  }

  /**
   * The game after the moves `ms`, played as a roll-out plays them: each move
   * is legal and is made only while the game is not over.
   */
  function Walk(g: Game, ms: seq<int>): Option<Game>
    decreases |ms|
  {
    if ms == [] then Some(g)
    else if !IsOver(g.cells) && Legal(g, ms[0]) then Walk(Play(g, ms[0]), ms[1..])
    else None
  }

  /** Starting from 1 or -1, the player to move stays 1 or -1 across any run of successful moves. */
  lemma ReplayKeepsGameValid(g: Game, ms: seq<int>)
    requires ValidGame(g) && Replay(g, ms).Some?
    ensures ValidGame(Replay(g, ms).value)
  {
    ReplayAlternatesPlayer(g, ms);
  }

  lemma {:induction false} WalkSnoc(g: Game, ms: seq<int>, m: int)
    requires Walk(g, ms).Some? && !IsOver(Walk(g, ms).value.cells) && Legal(Walk(g, ms).value, m)
    ensures Walk(g, ms + [m]) == Some(Play(Walk(g, ms).value, m))
    decreases |ms|
  {
    if ms != [] {
      assert (ms + [m])[1..] == ms[1..] + [m];
      WalkSnoc(Play(g, ms[0]), ms[1..], m);
    }
  }

  class TicTacToe {
    var board: Board
    var currentPlayer: int

    ghost predicate Valid()
      reads this, board
    {
      board.Valid()
    }

    /** The game's value. */
    ghost function State(): Game
      reads this, board, board.board
      requires Valid()
    {
      Game(board.board[..], currentPlayer)
    }

    /** `TicTacToe()`: a new empty board, player 1 to move. */
    constructor ()
      ensures Valid() && fresh(board) && fresh(board.board)
      ensures State() == InitialGame
    {
      board := new Board();
      currentPlayer := 1;
    }

    /** `TicTacToe(board, current_player)`: the game uses the given board object itself. */
    constructor WithBoard(b: Board, player: int)
      requires b.Valid()
      ensures Valid() && board == b && currentPlayer == player
    {
      board := b;
      currentPlayer := player;
    }

    /**
     * Places the current player's mark on `move`, then hands the turn over.
     * When the board raises `ValueError` the player is not flipped.
     */
    method MakeMove(move: nat) returns (r: Outcome)
      requires Valid() && move < Size
      modifies this, board.board
      ensures Valid() && board == old(board)
      ensures r == Pass <==> Legal(old(State()), move)
      ensures State() == if r == Pass then Play(old(State()), move) else old(State())
    {
      r := board.MakeMove(move, currentPlayer);
      if r == ValueError {
        return;
      }
      currentPlayer := -currentPlayer;
    }

    method CheckWinner() returns (w: int)
      requires Valid()
      ensures w == Winner(board.board[..])
    {
      w := board.CheckWinner();
    }

    method CheckDraw() returns (draw: bool)
      requires Valid()
      ensures draw <==> IsDraw(board.board[..])
    {
      draw := board.CheckDraw();
    }

    /** Somebody has won, or the board is a draw. */
    method IsOver() returns (over: bool)
      requires Valid()
      ensures over <==> Winner(board.board[..]) != 0 || IsDraw(board.board[..])
      ensures !over ==> |PossibleMoves(board.board[..])| > 0
    {
      var w := CheckWinner();
      if w != 0 {
        over := true;
      } else {
        over := CheckDraw();
      }
      if !over {
        NotOverHasMoves(board.board[..]);
      }
    }

    method GetPossibleMoves() returns (moves: seq<nat>)
      requires Valid()
      ensures moves == PossibleMoves(board.board[..])
    {
      moves := board.GetPossibleMoves();
    }

    method GetCurrentPlayer() returns (player: int)
      requires Valid()
      ensures player == State().player
    {
      player := currentPlayer;
    }

    /** A new empty board and player 1. */
    method Reset()
      modifies this
      ensures Valid() && fresh(board) && fresh(board.board)
      ensures State() == InitialGame
    {
      board := new Board();
      currentPlayer := 1;
    }
  }
}

/**
 * board.py: the 3x3 board as a flat array of 9 integers, 0 for an empty cell
 * and the player's mark (1 or -1) otherwise.
 */
module Boards {
  import opened Wrappers
  import opened Rules

  class Board {
    var board: array<int>

    ghost predicate Valid()
      reads this
    {
      board.Length == Size
    }

    /** `Board()`: nine empty cells. */
    constructor ()
      ensures Valid() && fresh(board)
      ensures board[..] == EmptyCells
    {
      board := new int[Size](_ => 0);
    }

    /** A board holding `cells`: what `copy.deepcopy` of a board produces. */
    constructor FromCells(cells: seq<int>)
      requires |cells| == Size
      ensures Valid() && fresh(board)
      ensures board[..] == cells
    {
      board := new int[Size](i requires 0 <= i < Size => cells[i]);
    }

    /** Puts `player` on an empty cell; raises `ValueError` on an occupied one. */
    method MakeMove(move: nat, player: int) returns (r: Outcome)
      requires Valid() && move < Size
      modifies board
      ensures Valid()
      ensures r == Pass <==> old(board[move]) == 0
      ensures r == Pass ==> board[..] == old(board[..])[move := player]
      ensures r == ValueError ==> board[..] == old(board[..])
    {
      if board[move] == 0 {
        board[move] := player;
        r := Pass;
      } else {
        r := ValueError;
      }
    }

    /** A move is valid exactly when it is one of the possible moves. */
    method IsValidMove(move: nat) returns (valid: bool)
      requires Valid() && move < Size
      ensures valid <==> board[move] == 0
      ensures valid <==> move in PossibleMoves(board[..])
    {
      valid := board[move] == 0;
    }

    /** Rows, then columns, then both diagonals; 1 comes before -1. */
    method CheckWinner() returns (w: int)
      requires Valid()
      ensures w == Winner(board[..])
    {
      var cells := board[..];
      var i := 0;
      while i < HorizontalSize
        invariant 0 <= i <= HorizontalSize
        invariant Winner(cells) == FirstWinner(cells, Lines[i..])
      {
        var row := board[i * VerticalSize..(i + 1) * VerticalSize];
        RowStep(cells, i);
        if AllEqual(row, 1) {
          return 1;
        } else if AllEqual(row, -1) {
          return -1;
        }
        i := i + 1;
      }
      i := 0;
      while i < VerticalSize
        invariant 0 <= i <= VerticalSize
        invariant Winner(cells) == FirstWinner(cells, Lines[HorizontalSize + i..])
      {
        var column := Slice(cells, i, Size, VerticalSize);
        ColumnStep(cells, i);
        if AllEqual(column, 1) {
          return 1;
        } else if AllEqual(column, -1) {
          return -1;
        }
        i := i + 1;
      }
      var diagonal := Slice(cells, 0, Size, VerticalSize + 1);
      var antiDiagonal := Slice(cells, VerticalSize - 1, Size - 1, VerticalSize - 1);
      DiagonalsStep(cells);
      if AllEqual(diagonal, 1) || AllEqual(antiDiagonal, 1) {
        w := 1;
      } else if AllEqual(diagonal, -1) || AllEqual(antiDiagonal, -1) {
        w := -1;
      } else {
        w := 0;
      }
    }

    /** A draw is a full board that `CheckWinner` scores 0. */
    method CheckDraw() returns (draw: bool)
      requires Valid()
      ensures draw <==> IsDraw(board[..])
    {
      if 0 in board[..] {
        draw := false;
      } else {
        var w := CheckWinner();
        draw := w == 0;
      }
    }

    /** `np.where(board == 0)`: the empty cells in ascending order. */
    method GetPossibleMoves() returns (moves: seq<nat>)
      requires Valid()
      ensures moves == PossibleMoves(board[..])
    {
      moves := PossibleMoves(board[..]);
    }
  }
}

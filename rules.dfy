/**
 * The rules of 3x3 tic-tac-toe that board.py and tictactoe2.py both implement:
 * the winning lines in the order the sources test them, the winner, the full
 * board and the list of empty cells. Cells hold 1 (first player), -1 (second
 * player) or 0 (empty); the functions here accept any integers, as the sources do.
 */
module Rules {

  const HorizontalSize: nat := 3
  const VerticalSize: nat := 3
  /** Number of cells of the flat board. */
  const Size: nat := 9
  /** The board `np.zeros(9)`. */
  const EmptyCells: seq<int> := [0, 0, 0, 0, 0, 0, 0, 0, 0]

  /** x * (-1)^k: the sign alternates with every move and every tree level. */
  function Alternating(x: int, k: nat): (a: int)
    ensures a == x || a == -x
  {
    if k == 0 then x else -Alternating(x, k - 1)
  }

  /** Starting from -x gives the opposite sign at every step. */
  lemma {:induction false} AlternatingNegated(x: int, k: nat)
    ensures Alternating(-x, k) == -Alternating(x, k)
  {
    if k > 0 {
      AlternatingNegated(x, k - 1);
    }
  }

  /** One level further up, the sign of `-x` is the sign of `x` one step on. */
  lemma AlternatingShift(x: int, k: nat)
    requires k > 0
    ensures Alternating(x, k) == Alternating(-x, k - 1)
  {
    AlternatingNegated(x, k - 1);
  }

  /** Three cell indices that win when they all hold one player's mark. */
  datatype Line = Line(a: nat, b: nat, c: nat)

  /** Rows, then columns, then the diagonals 0,4,8 and 2,4,6. */
  const Lines: seq<Line> := [
    Line(0, 1, 2), Line(3, 4, 5), Line(6, 7, 8),
    Line(0, 3, 6), Line(1, 4, 7), Line(2, 5, 8),
    Line(0, 4, 8), Line(2, 4, 6)]

  /** Every cell of line `l` holds `p`. */
  predicate Holds(cells: seq<int>, l: Line, p: int) {
    l.a < |cells| && l.b < |cells| && l.c < |cells| &&
    cells[l.a] == p && cells[l.b] == p && cells[l.c] == p
  }

  /** Some line of `ls` is complete for player 1 or player -1. */
  predicate AnyComplete(cells: seq<int>, ls: seq<Line>) {
    exists k :: 0 <= k < |ls| && (Holds(cells, ls[k], 1) || Holds(cells, ls[k], -1))
  }

  /**
   * The player owning the first complete line of `ls`, testing 1 before -1 on
   * each line; 0 when no line of `ls` is complete.
   */
  function FirstWinner(cells: seq<int>, ls: seq<Line>): (w: int)
    ensures w == 0 || w == 1 || w == -1
    ensures w != 0 ==> exists k :: 0 <= k < |ls| && Holds(cells, ls[k], w)
    ensures w == 0 <==> !AnyComplete(cells, ls)
  {
    if ls == [] then 0
    else if Holds(cells, ls[0], 1) then 1
    else if Holds(cells, ls[0], -1) then -1
    else
      var w := FirstWinner(cells, ls[1..]);
      assert forall k :: 1 <= k < |ls| ==> ls[k] == ls[1..][k - 1];
      w
  }

  /** The winner of the position: 1, -1, or 0 when no line is complete. */
  function Winner(cells: seq<int>): int {
    FirstWinner(cells, Lines)
  }

  /** The first complete line of `ls` decides the result, whatever comes after it. */
  lemma {:induction false} FirstCompleteLineDecides(cells: seq<int>, ls: seq<Line>, k: nat, p: int)
    requires k < |ls| && (p == 1 || p == -1) && Holds(cells, ls[k], p)
    requires forall j :: 0 <= j < k ==> !Holds(cells, ls[j], 1) && !Holds(cells, ls[j], -1)
    ensures FirstWinner(cells, ls) == p
  {
    if k > 0 {
      FirstCompleteLineDecides(cells, ls[1..], k - 1, p);
    }
  }


  /** Python's slice `s[start:stop:step]` for 0 <= start, a positive step and stop <= |s|. */
  function Slice(s: seq<int>, start: nat, stop: nat, step: nat): seq<int>
    requires step > 0 && stop <= |s|
    decreases stop - start
  {
    if start >= stop then [] else [s[start]] + Slice(s, start + step, stop, step)
  }

  /** numpy's `all(xs == p)`. */
  predicate AllEqual(xs: seq<int>, p: int) {
    forall k :: 0 <= k < |xs| ==> xs[k] == p
  }

  /** The three cells of line `l`, in order. */
  function LineCells(cells: seq<int>, l: Line): seq<int>
    requires l.a < |cells| && l.b < |cells| && l.c < |cells|
  {
    [cells[l.a], cells[l.b], cells[l.c]]
  }

  lemma LineCellsHold(cells: seq<int>, l: Line, p: int)
    requires l.a < |cells| && l.b < |cells| && l.c < |cells|
    ensures AllEqual(LineCells(cells, l), p) <==> Holds(cells, l, p)
  {
    var xs := LineCells(cells, l);
    assert xs[0] == cells[l.a] && xs[1] == cells[l.b] && xs[2] == cells[l.c];
  }

  /** Row `i` is the contiguous slice `board[3i:3i+3]`. */
  lemma RowSlice(cells: seq<int>, i: nat)
    requires |cells| == Size && i < HorizontalSize
    ensures Lines[i] == Line(VerticalSize * i, VerticalSize * i + 1, VerticalSize * i + 2)
    ensures cells[i * VerticalSize..(i + 1) * VerticalSize] == LineCells(cells, Lines[i])
  {
  }

  /** Column `i` is the strided slice `board[i::3]`. */
  lemma ColumnSlice(cells: seq<int>, i: nat)
    requires |cells| == Size && i < VerticalSize
    ensures Lines[HorizontalSize + i] == Line(i, i + VerticalSize, i + 2 * VerticalSize)
    ensures Slice(cells, i, Size, VerticalSize) == LineCells(cells, Lines[HorizontalSize + i])
  {
    assert Slice(cells, i + 9, Size, 3) == [];
    assert Slice(cells, i + 6, Size, 3) == [cells[i + 6]];
    assert Slice(cells, i + 3, Size, 3) == [cells[i + 3], cells[i + 6]];
  }

  /** The diagonals are the slices `board[0::4]` and `board[2:-1:2]`. */
  lemma DiagonalSlices(cells: seq<int>)
    requires |cells| == Size
    ensures Slice(cells, 0, Size, VerticalSize + 1) == LineCells(cells, Lines[6])
    ensures Slice(cells, VerticalSize - 1, Size - 1, VerticalSize - 1) == LineCells(cells, Lines[7])
  {
    assert Slice(cells, 8, 9, 4) == [cells[8]];
    assert Slice(cells, 4, 9, 4) == [cells[4], cells[8]];
    assert Slice(cells, 6, 8, 2) == [cells[6]];
    assert Slice(cells, 4, 8, 2) == [cells[4], cells[6]];
  }

  /**
   * One step of the line-by-line search: line `k` is examined for 1, then for -1,
   * and the rest decides otherwise.
   */
  lemma FirstWinnerStep(cells: seq<int>, k: nat)
    requires k < |Lines|
    ensures FirstWinner(cells, Lines[k..]) ==
      if Holds(cells, Lines[k], 1) then 1
      else if Holds(cells, Lines[k], -1) then -1
      else FirstWinner(cells, Lines[k + 1..])
  {
    assert Lines[k..][0] == Lines[k];
    assert Lines[k..][1..] == Lines[k + 1..];
  }

  /** Testing row `i`'s slice for 1, then -1, is one step of the search. */
  lemma RowStep(cells: seq<int>, i: nat)
    requires |cells| == Size && i < HorizontalSize
    ensures var row := cells[i * VerticalSize..(i + 1) * VerticalSize];
      FirstWinner(cells, Lines[i..]) ==
        if AllEqual(row, 1) then 1
        else if AllEqual(row, -1) then -1
        else FirstWinner(cells, Lines[i + 1..])
  {
    RowSlice(cells, i);
    LineCellsHold(cells, Lines[i], 1);
    LineCellsHold(cells, Lines[i], -1);
    FirstWinnerStep(cells, i);
  }

  /** Testing column `i`'s strided slice for 1, then -1, is one step of the search. */
  lemma ColumnStep(cells: seq<int>, i: nat)
    requires |cells| == Size && i < VerticalSize
    ensures var column := Slice(cells, i, Size, VerticalSize);
      FirstWinner(cells, Lines[HorizontalSize + i..]) ==
        if AllEqual(column, 1) then 1
        else if AllEqual(column, -1) then -1
        else FirstWinner(cells, Lines[HorizontalSize + i + 1..])
  {
    ColumnSlice(cells, i);
    LineCellsHold(cells, Lines[HorizontalSize + i], 1);
    LineCellsHold(cells, Lines[HorizontalSize + i], -1);
    FirstWinnerStep(cells, HorizontalSize + i);
  }

  /**
   * The last two lines decide as the source tests them: either diagonal full
   * of 1, else either full of -1, else nobody. (Testing both diagonals for 1
   * first agrees with testing them one by one because they cannot be complete
   * for different players.)
   */
  lemma DiagonalsStep(cells: seq<int>)
    requires |cells| == Size
    ensures var diagonal := Slice(cells, 0, Size, VerticalSize + 1);
      var antiDiagonal := Slice(cells, VerticalSize - 1, Size - 1, VerticalSize - 1);
      FirstWinner(cells, Lines[2 * HorizontalSize..]) ==
        if AllEqual(diagonal, 1) || AllEqual(antiDiagonal, 1) then 1
        else if AllEqual(diagonal, -1) || AllEqual(antiDiagonal, -1) then -1
        else 0
  {
    DiagonalSlices(cells);
    LineCellsHold(cells, Lines[6], 1);
    LineCellsHold(cells, Lines[6], -1);
    LineCellsHold(cells, Lines[7], 1);
    LineCellsHold(cells, Lines[7], -1);
    FirstWinnerStep(cells, 6);
    FirstWinnerStep(cells, 7);
    DiagonalsAgree(cells);
    assert Lines[8..] == [];
  }

  /** No cell is empty. */
  predicate IsFull(cells: seq<int>) {
    0 !in cells
  }

  /** board.py's draw: a full board without a complete line. */
  predicate IsDraw(cells: seq<int>) {
    IsFull(cells) && Winner(cells) == 0
  }

  /** tictactoe.py's `is_over`: somebody won, or it is a draw. */
  predicate IsOver(cells: seq<int>) {
    Winner(cells) != 0 || IsDraw(cells)
  }

  /** The indices of the empty cells. */
  function PossibleMoves(cells: seq<int>): (ms: seq<nat>)
    ensures forall k :: 0 <= k < |ms| ==> ms[k] < |cells| && cells[ms[k]] == 0
    ensures forall j :: 0 <= j < |cells| && cells[j] == 0 ==> j in ms
    ensures forall k, l :: 0 <= k < l < |ms| ==> ms[k] < ms[l]
  {
    if cells == [] then []
    else
      var n := |cells| - 1;
      var front := PossibleMoves(cells[..n]);
      if cells[n] == 0 then front + [n] else front
  }

  /** Number of empty cells. */
  function ZeroCount(cells: seq<int>): (z: nat)
    ensures z <= |cells|
  {
    if cells == [] then 0
    else (if cells[0] == 0 then 1 else 0) + ZeroCount(cells[1..])
  }

  /** Writing a non-zero mark into an empty cell removes exactly one empty cell. */
  lemma {:induction false} FillingDecreasesZeroCount(cells: seq<int>, m: nat, p: int)
    requires m < |cells| && cells[m] == 0 && p != 0
    ensures ZeroCount(cells[m := p]) == ZeroCount(cells) - 1
  {
    if m > 0 {
      FillingDecreasesZeroCount(cells[1..], m - 1, p);
      assert cells[m := p][1..] == cells[1..][m - 1 := p];
    }
  }

  /** There are exactly as many possible moves as empty cells. */
  lemma {:induction false} PossibleMovesCount(cells: seq<int>)
    ensures |PossibleMoves(cells)| == ZeroCount(cells)
  {
    if cells != [] {
      var n := |cells| - 1;
      PossibleMovesCount(cells[..n]);
      ZeroCountSnoc(cells[..n], cells[n]);
      assert cells[..n] + [cells[n]] == cells;
    }
  }

  lemma {:induction false} ZeroCountSnoc(cells: seq<int>, x: int)
    ensures ZeroCount(cells + [x]) == ZeroCount(cells) + (if x == 0 then 1 else 0)
  {
    if cells != [] {
      assert (cells + [x])[1..] == cells[1..] + [x];
      ZeroCountSnoc(cells[1..], x);
    }
  }

  /** On a board without marks every cell is a possible move. */
  lemma {:induction false} NoMarksAllMoves(cells: seq<int>)
    requires forall j :: 0 <= j < |cells| ==> cells[j] == 0
    ensures |PossibleMoves(cells)| == |cells|
    ensures forall k :: 0 <= k < |cells| ==> PossibleMoves(cells)[k] == k
  {
    if cells != [] {
      var n := |cells| - 1;
      NoMarksAllMoves(cells[..n]);
    }
  }

  /**
   * Nobody has won on the empty board and it is not full; all nine cells are
   * possible moves.
   */
  lemma EmptyBoardGoesOn()
    ensures Winner(EmptyCells) == 0 && !IsFull(EmptyCells)
    ensures |PossibleMoves(EmptyCells)| == Size
    ensures forall k :: 0 <= k < Size ==> PossibleMoves(EmptyCells)[k] == k
  {
    assert EmptyCells[0] == 0;
    assert !AnyComplete(EmptyCells, Lines);
    NoMarksAllMoves(EmptyCells);
  }

  /** A game that is not over has an empty cell to play, so a move is always available. */
  lemma NotOverHasMoves(cells: seq<int>)
    requires !IsOver(cells)
    ensures |PossibleMoves(cells)| > 0
  {
    var j :| 0 <= j < |cells| && cells[j] == 0;
    assert j in PossibleMoves(cells);
  }

  /** The two diagonals share the centre, so they cannot be complete for different players. */
  lemma DiagonalsAgree(cells: seq<int>)
    ensures !(Holds(cells, Lines[6], 1) && Holds(cells, Lines[7], -1))
    ensures !(Holds(cells, Lines[6], -1) && Holds(cells, Lines[7], 1))
  {
  }
}

/** The board of the game: nine squares in row-major order, each empty or holding a mark. */
module Squares {
  import opened Wrappers

  /** A player's mark, the strings 'X' and 'O' of the game. */
  datatype Mark = X | O

  /** A square: None for null (empty), or the mark written there. */
  type Cell = Option<Mark>

  /** A square index: 0..8, row = index / 3, column = index % 3. */
  type Index = i: nat | i < 9

  /** The nine squares of one board snapshot. */
  type Board = s: seq<Cell> | |s| == 9 witness [None, None, None, None, None, None, None, None, None]

  /** `Array(9).fill(null)`: the board before the first move. */
  const EmptyBoard: Board := [None, None, None, None, None, None, None, None, None]

  /** How many of the cells hold `v` (None counts the empty squares). */
  function Count(cells: seq<Cell>, v: Cell): (n: nat)
    ensures n <= |cells|
  {
    if cells == [] then 0
    else (if cells[0] == v then 1 else 0) + Count(cells[1..], v)
  }

  /** The board after writing mark `m` into square `i`. */
  function Play(squares: Board, i: Index, m: Mark): (r: Board)
    ensures r[i] == Some(m)
    ensures forall j :: 0 <= j < 9 && j != i ==> r[j] == squares[j]
  {
    squares[i := Some(m)]
  }

  /** Overwriting one cell moves one unit of count from its old value to its new value. */
  lemma {:induction false} CountUpdate(cells: seq<Cell>, i: nat, v: Cell, w: Cell)
    requires i < |cells|
    ensures Count(cells[i := v], w) ==
            Count(cells, w) - (if cells[i] == w then 1 else 0) + (if v == w then 1 else 0)
  {
    if i > 0 {
      assert cells[i := v][1..] == cells[1..][i - 1 := v];
      CountUpdate(cells[1..], i - 1, v, w);
    } else {
      assert cells[i := v][1..] == cells[1..];
    }
  }

  /** Writing a mark into an empty square fills exactly one more square, with that mark. */
  lemma PlayCounts(squares: Board, i: Index, m: Mark)
    requires squares[i] == None
    ensures Count(Play(squares, i, m), None) == Count(squares, None) - 1
    ensures Count(Play(squares, i, m), Some(m)) == Count(squares, Some(m)) + 1
    ensures forall m' :: m' != m ==> Count(Play(squares, i, m), Some(m')) == Count(squares, Some(m'))
  {
    CountUpdate(squares, i, Some(m), None);
    CountUpdate(squares, i, Some(m), Some(m));
    forall m' | m' != m
      ensures Count(Play(squares, i, m), Some(m')) == Count(squares, Some(m'))
    {
      CountUpdate(squares, i, Some(m), Some(m'));
    }
  }

  /** Every cell is empty, X or O. */
  lemma {:induction false} CountsPartition(cells: seq<Cell>)
    ensures Count(cells, None) + Count(cells, Some(X)) + Count(cells, Some(O)) == |cells|
  {
    if cells != [] {
      CountsPartition(cells[1..]);
      match cells[0]
      case None =>
      case Some(m) => assert m == X || m == O;
    }
  }

  /** The empty board has nine empty squares and no marks. */
  lemma EmptyBoardCounts()
    ensures Count(EmptyBoard, None) == 9
    ensures Count(EmptyBoard, Some(X)) == 0 && Count(EmptyBoard, Some(O)) == 0
  {
    CountsPartition(EmptyBoard);
  }
}

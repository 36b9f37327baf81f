/** `calculateWinner`: the first of the eight winning lines whose three squares hold the same mark. */
module WinDetector {
  import opened Wrappers
  import opened Squares

  /** One winning line: three square indices. */
  datatype Line = Line(a: Index, b: Index, c: Index)

  /** A detected win: the mark and the line that holds it (`{winner, positions}`). */
  datatype Win = Win(winner: Mark, positions: Line)

  /** The eight lines in the order they are scanned: rows, then columns, then diagonals. */
  const Lines: seq<Line> := [
    Line(0, 1, 2), Line(3, 4, 5), Line(6, 7, 8),
    Line(0, 3, 6), Line(1, 4, 7), Line(2, 5, 8),
    Line(0, 4, 8), Line(2, 4, 6)
  ]

  /** The three squares of `l` are non-empty and hold the same mark. */
  predicate Completes(squares: Board, l: Line)
  {
    squares[l.a].Some? && squares[l.a] == squares[l.b] && squares[l.a] == squares[l.c]
  }

  /** Line `k` is complete and no line scanned before it is. */
  predicate FirstComplete(squares: Board, k: nat)
  {
    k < |Lines| && Completes(squares, Lines[k]) &&
    forall j :: 0 <= j < k ==> !Completes(squares, Lines[j])
  }

  /** The winner reported from line `k` onwards of the scan. */
  function WinnerFrom(squares: Board, k: nat): (r: Option<Win>)
    requires k <= |Lines|
    ensures r.Some? ==> r.value.positions in Lines[k..]
    ensures r.Some? ==> Completes(squares, r.value.positions)
    ensures r.Some? ==> squares[r.value.positions.a] == Some(r.value.winner)
    decreases |Lines| - k
  {
    if k == |Lines| then None
    else if Completes(squares, Lines[k]) then Some(Win(squares[Lines[k].a].value, Lines[k]))
    else WinnerFrom(squares, k + 1)
  }

  /** The specification of `calculateWinner`: None stands for `null`. */
  function Winner(squares: Board): Option<Win>
  {
    WinnerFrom(squares, 0)
  }

  /** `calculateWinner(squares)`: scans `Lines` in order and returns at the first complete one. */
  method CalculateWinner(squares: Board) returns (r: Option<Win>)
    ensures r == Winner(squares)
  {
    var i := 0;
    while i < |Lines|
      invariant 0 <= i <= |Lines|
      invariant WinnerFrom(squares, i) == Winner(squares)
    {
      var line := Lines[i];
      if squares[line.a].Some? && squares[line.a] == squares[line.b] && squares[line.a] == squares[line.c] {
        return Some(Win(squares[line.a].value, line));
      }
      i := i + 1;
    }
    return None;
  }

  lemma {:induction false} WinnerFromFirst(squares: Board, k: nat, j: nat)
    requires k <= j < |Lines|
    requires Completes(squares, Lines[j])
    requires forall i :: k <= i < j ==> !Completes(squares, Lines[i])
    ensures WinnerFrom(squares, k) == Some(Win(squares[Lines[j].a].value, Lines[j]))
    decreases j - k
  {
    if k < j {
      WinnerFromFirst(squares, k + 1, j);
    }
  }

  lemma {:induction false} WinnerFromNone(squares: Board, k: nat)
    requires k <= |Lines|
    ensures WinnerFrom(squares, k).None? <==> forall i :: k <= i < |Lines| ==> !Completes(squares, Lines[i])
    decreases |Lines| - k
  {
    if k < |Lines| {
      WinnerFromNone(squares, k + 1);
    }
  }

  lemma {:induction false} WinnerFromSome(squares: Board, k: nat) returns (j: nat)
    requires k <= |Lines|
    requires WinnerFrom(squares, k).Some?
    ensures k <= j < |Lines| && Completes(squares, Lines[j])
    ensures forall i :: k <= i < j ==> !Completes(squares, Lines[i])
    ensures WinnerFrom(squares, k) == Some(Win(squares[Lines[j].a].value, Lines[j]))
    decreases |Lines| - k
  {
    if Completes(squares, Lines[k]) {
      j := k;
    } else {
      j := WinnerFromSome(squares, k + 1);
    }
  }

  /** When line `k` is the first complete line, the winner is its mark and its positions are line `k`. */
  lemma WinnerIsFirstComplete(squares: Board, k: nat)
    requires FirstComplete(squares, k)
    ensures Winner(squares) == Some(Win(squares[Lines[k].a].value, Lines[k]))
  {
    WinnerFromFirst(squares, 0, k);
  }

  /** No winner is reported exactly when no line is complete. */
  lemma WinnerNone(squares: Board)
    ensures Winner(squares).None? <==> forall k :: 0 <= k < |Lines| ==> !Completes(squares, Lines[k])
  {
    WinnerFromNone(squares, 0);
  }

  /** A reported winner comes from the first complete line of the scan. */
  lemma WinnerSome(squares: Board) returns (k: nat)
    requires Winner(squares).Some?
    ensures FirstComplete(squares, k)
    ensures Winner(squares) == Some(Win(squares[Lines[k].a].value, Lines[k]))
  {
    k := WinnerFromSome(squares, 0);
  }

  /** The empty board has no winner. */
  lemma EmptyBoardNoWinner()
    ensures Winner(EmptyBoard).None?
  {
    WinnerNone(EmptyBoard);
  }
}

/**
 * The values `Game.render` derives from the state: the status line, the winning positions to
 * highlight and the label of each history button. The JSX around them is not modelled.
 */
module View {
  import opened Wrappers
  import opened Squares
  import opened WinDetector
  import opened History

  /** The text of a mark. */
  function MarkText(m: Mark): string
  {
    if m == X then "X" else "O"
  }

  /** The status line: the winner, else a draw once step 9 is reached, else the next player. */
  function Status(squares: Board, stepNumber: nat, xIsNext: bool): string
  {
    match Winner(squares)
    case Some(w) => "Winner: " + MarkText(w.winner)
    case None =>
      if stepNumber == 9 then "No one wins"
      else "Next player: " + MarkText(Turn(xIsNext))
  }

  /**
   * In any state the game can reach, the status describes the live board: "No one wins" exactly
   * when the board is full without a winner, "Next player: X" exactly when the game is open and
   * both players have played equally often, "Next player: O" exactly when it is open and X is one
   * move ahead, and a win is always announced for the player who made the last move.
   */
  lemma StatusInGame(h: seq<Snapshot>, stepNumber: nat, xIsNext: bool)
    requires ValidHistory(h) && stepNumber < |h|
    requires xIsNext == (stepNumber % 2 == 0)
    ensures var live := h[stepNumber].squares;
      Status(live, stepNumber, xIsNext) == "No one wins" <==>
        Winner(live).None? && Count(live, None) == 0
    ensures var live := h[stepNumber].squares;
      Status(live, stepNumber, xIsNext) == "Next player: X" <==>
        Winner(live).None? && Count(live, None) > 0 && Count(live, Some(X)) == Count(live, Some(O))
    ensures var live := h[stepNumber].squares;
      Status(live, stepNumber, xIsNext) == "Next player: O" <==>
        Winner(live).None? && Count(live, None) > 0 && Count(live, Some(X)) == Count(live, Some(O)) + 1
    ensures var live := h[stepNumber].squares;
      Winner(live).Some? <==>
        stepNumber > 0 && Status(live, stepNumber, xIsNext) == "Winner: " + MarkText(MarkAt(stepNumber - 1))
  {
    var live := h[stepNumber].squares;
    var status := Status(live, stepNumber, xIsNext);
    StepCounts(h, stepNumber);
    if Winner(live).Some? {
      WinnerIsLastMover(h, stepNumber);
      assert |status| == 9;
    } else if stepNumber == 9 {
      assert |status| == 11;
    } else {
      assert |status| == 14 && status[13] == MarkText(Turn(xIsNext))[0];
    }
  }

  /** A top row of X's is announced as X's win on positions 0, 1, 2. */
  lemma WinExample()
    ensures var b: Board := [Some(X), Some(X), Some(X), None, None, None, None, None, None];
      Status(b, 5, false) == "Winner: X" && Winner(b) == Some(Win(X, Line(0, 1, 2)))
  {
    var b: Board := [Some(X), Some(X), Some(X), None, None, None, None, None, None];
    WinnerIsFirstComplete(b, 0);
  }

  /** A full board without three in a row, after nine moves, is announced as a draw. */
  lemma DrawExample()
    ensures var b: Board := [Some(X), Some(O), Some(X), Some(X), Some(O), Some(O), Some(O), Some(X), Some(X)];
      Status(b, 9, false) == "No one wins"
  {
    var b: Board := [Some(X), Some(O), Some(X), Some(X), Some(O), Some(O), Some(O), Some(X), Some(X)];
    WinnerNone(b);
  }

  /** The empty board announces X as the next player. */
  lemma StartExample()
    ensures Status(EmptyBoard, 0, true) == "Next player: X"
  {
    EmptyBoardNoWinner();
  }

  /** `Math.ceil(a / b)` on naturals: the least r with a <= r * b. */
  function CeilDiv(a: nat, b: nat): (r: nat)
    requires b > 0
    ensures (r - 1) * b < a <= r * b
  {
    (a + b - 1) / b
  }

  /** The column label of a square, `originEvent % 3 + 1`. */
  function ColumnOf(o: Index): (c: nat)
    ensures 1 <= c <= 3
  {
    o % 3 + 1
  }

  /** The line label of a square, `Math.ceil((originEvent + 1) / 3)`: its row counted from 1. */
  function LineOf(o: Index): (l: nat)
    ensures 1 <= l <= 3
    ensures l == o / 3 + 1
  {
    CeilDiv(o + 1, 3)
  }

  /** The two labels name the square: it is recovered from its line and column. */
  lemma LabelsIdentifySquare(o: Index)
    ensures 3 * (LineOf(o) - 1) + (ColumnOf(o) - 1) == o
  {
  }

  /** The decimal digit character of `d`. */
  function DigitChar(d: nat): (c: char)
    requires d < 10
    ensures '0' <= c <= '9'
  {
    (d + '0' as int) as char
  }

  predicate IsDigits(s: string)
  {
    forall i :: 0 <= i < |s| ==> '0' <= s[i] <= '9'
  }

  /** The number a string of decimal digits denotes. */
  function DigitsValue(s: string): nat
    requires IsDigits(s)
  {
    if s == [] then 0 else 10 * DigitsValue(s[..|s| - 1]) + (s[|s| - 1] as int - '0' as int)
  }

  /** A number as a JavaScript template literal prints it: decimal digits, no leading zero. */
  function NatToString(n: nat): (s: string)
    ensures |s| >= 1 && IsDigits(s)
    ensures |s| > 1 ==> s[0] != '0'
  {
    if n < 10 then [DigitChar(n)] else NatToString(n / 10) + [DigitChar(n % 10)]
  }

  /** Printing a number and reading its digits back gives the number. */
  lemma {:induction false} NatToStringRoundTrip(n: nat)
    ensures DigitsValue(NatToString(n)) == n
  {
    if n >= 10 {
      var s := NatToString(n);
      assert s[..|s| - 1] == NatToString(n / 10);
      NatToStringRoundTrip(n / 10);
    }
  }

  /**
   * The label of history button `move`. An entry without an origin square (the start entry) would
   * print `NaN` coordinates; only the start entry lacks one, and it is labelled as the game start.
   */
  function MoveDescription(move: nat, originEvent: Option<Index>): string
  {
    if move == 0 then "Go to game start"
    else match originEvent
      case Some(o) =>
        "Go to move #" + NatToString(move) + "(" + NatToString(ColumnOf(o)) + ", " + NatToString(LineOf(o)) + ")"
      case None => "Go to move #" + NatToString(move) + "(NaN, NaN)"
  }

  /** The square a move label names, read from its `(column, line)` suffix. */
  function SquareNamedBy(desc: string): int
    requires |desc| >= 6
  {
    3 * (desc[|desc| - 2] as int - '1' as int) + (desc[|desc| - 5] as int - '1' as int)
  }

  /** The label of a move ends in the coordinates of the square that was clicked. */
  lemma DescriptionNamesSquare(move: nat, o: Index)
    requires move > 0
    ensures |MoveDescription(move, Some(o))| >= 6
    ensures SquareNamedBy(MoveDescription(move, Some(o))) == o
  {
    var d := MoveDescription(move, Some(o));
    var tail := "(" + NatToString(ColumnOf(o)) + ", " + NatToString(LineOf(o)) + ")";
    assert tail == ['(', DigitChar(ColumnOf(o)), ',', ' ', DigitChar(LineOf(o)), ')'];
    assert d == "Go to move #" + NatToString(move) + tail;
    assert d[|d| - 6..] == tail;
    LabelsIdentifySquare(o);
  }

  /** The labels of the examples: the start, and move 2 on the centre square. */
  lemma DescriptionExamples()
    ensures MoveDescription(0, None) == "Go to game start"
    ensures MoveDescription(2, Some(4)) == "Go to move #2(2, 2)"
  {
  }

  /** The values the render method computes from the state. */
  datatype ViewModel = ViewModel(
    squares: Board,
    status: string,
    winnerPositions: seq<Index>,
    overBtnOnHistory: Option<Index>,
    moves: seq<string>)

  /** `Game.render` without its JSX: the live board, status, highlighted line, hover and labels. */
  function Render(history: seq<Snapshot>, stepNumber: nat, xIsNext: bool, overBtnOnHistory: Option<Index>): (v: ViewModel)
    requires stepNumber < |history|
    ensures v.squares == history[stepNumber].squares
    ensures v.status == Status(history[stepNumber].squares, stepNumber, xIsNext)
    ensures v.overBtnOnHistory == overBtnOnHistory
    ensures match Winner(v.squares)
      case None => v.winnerPositions == []
      case Some(w) =>
        v.winnerPositions == [w.positions.a, w.positions.b, w.positions.c] &&
        forall p :: p in v.winnerPositions ==> v.squares[p] == Some(w.winner)
    ensures |v.moves| == |history|
    ensures forall k :: 0 <= k < |history| ==> v.moves[k] == MoveDescription(k, history[k].originEvent)
  {
    var current := history[stepNumber];
    var winner := Winner(current.squares);
    ViewModel(
      current.squares,
      Status(current.squares, stepNumber, xIsNext),
      if winner.Some? then [winner.value.positions.a, winner.value.positions.b, winner.value.positions.c] else [],
      overBtnOnHistory,
      seq(|history|, k requires 0 <= k < |history| => MoveDescription(k, history[k].originEvent)))
  }

  /** A highlighted winning line is the first complete line of the scan on the live board. */
  lemma RenderHighlightsFirstCompleteLine(history: seq<Snapshot>, stepNumber: nat, xIsNext: bool, overBtnOnHistory: Option<Index>)
    requires stepNumber < |history|
    requires Winner(history[stepNumber].squares).Some?
    ensures var v := Render(history, stepNumber, xIsNext, overBtnOnHistory);
      exists k: nat :: FirstComplete(v.squares, k) && v.winnerPositions == [Lines[k].a, Lines[k].b, Lines[k].c]
  {
    var k := WinnerSome(history[stepNumber].squares);
    var v := Render(history, stepNumber, xIsNext, overBtnOnHistory);
    assert FirstComplete(v.squares, k) && v.winnerPositions == [Lines[k].a, Lines[k].b, Lines[k].c];
  }
}

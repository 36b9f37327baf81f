/**
 * The `Game` component's state and its event handlers. Each `setState` call is one atomic
 * assignment to the fields it names.
 */
module GameState {
  import opened Wrappers
  import opened Squares
  import opened WinDetector
  import opened History
  import opened View

  class Game {
    /** The snapshots, one per move, the start entry first. */
    var history: seq<Snapshot>
    /** The index of the live snapshot. */
    var stepNumber: nat
    /** Whether X plays the next move. */
    var xIsNext: bool
    /** The square highlighted while a history button is hovered. */
    var overBtnOnHistory: Option<Index>

    /** The history is one the game can build, the live step is in it and the turn matches its parity. */
    ghost predicate Valid()
      reads this
    {
      ValidHistory(history) && stepNumber < |history| && xIsNext == (stepNumber % 2 == 0)
    }

    /** The live board. */
    function Live(): Board
      reads this
      requires stepNumber < |history|
    {
      history[stepNumber].squares
    }

    /** The initial state: one empty board, step 0, X to move, nothing highlighted. */
    constructor ()
      ensures Valid()
      ensures history == [Start] && stepNumber == 0 && xIsNext && overBtnOnHistory == None
    {
      history := [Start];
      stepNumber := 0;
      xIsNext := true;
      overBtnOnHistory := None;
    }

    /**
     * `handleClick(i)`: ignored when the live board has a winner or square `i` is taken;
     * otherwise drops the entries after the live step, appends the live board with the current
     * player's mark in square `i`, and advances the step and the turn.
     */
    method HandleClick(i: Index)
      requires Valid()
      modifies this
      ensures Valid()
      ensures overBtnOnHistory == old(overBtnOnHistory)
      ensures !Accepts(old(Live()), i) ==>
        history == old(history) && stepNumber == old(stepNumber) && xIsNext == old(xIsNext)
      ensures Accepts(old(Live()), i) ==>
        history == old(history[..stepNumber + 1]) + [Snapshot(Play(old(Live()), i, Turn(old(xIsNext))), Some(i))] &&
        stepNumber == old(stepNumber) + 1 == |history| - 1 &&
        xIsNext == !old(xIsNext)
    {
      var past := history[..stepNumber + 1];
      var current := past[|past| - 1];
      var squares := new Cell[9](k => if k < 9 then current.squares[k] else None);
      assert squares[..] == current.squares;
      var winner := CalculateWinner(squares[..]);
      if winner.Some? || squares[i].Some? {
        return;
      }
      squares[i] := Some(if xIsNext then X else O);
      assert squares[..] == Play(current.squares, i, MarkAt(stepNumber));
      PrefixValid(history, stepNumber + 1);
      ExtendValid(past, i);
      history := past + [Snapshot(squares[..], Some(i))];
      stepNumber := |past|;
      xIsNext := !xIsNext;
    }

    /** `jumpTo(step)`: makes `step` the live step and recomputes the turn from its parity. */
    method JumpTo(step: nat)
      requires Valid() && step < |history|
      modifies this
      ensures Valid()
      ensures history == old(history) && overBtnOnHistory == old(overBtnOnHistory)
      ensures stepNumber == step && xIsNext == (step % 2 == 0)
    {
      stepNumber := step;
      xIsNext := step % 2 == 0;
    }

    /** `highlightHistoryMouseOver(step)`: highlights the square whose click produced entry `step`. */
    method HighlightHistoryMouseOver(step: nat)
      requires Valid() && step < |history|
      modifies this
      ensures Valid()
      ensures history == old(history) && stepNumber == old(stepNumber) && xIsNext == old(xIsNext)
      ensures overBtnOnHistory == history[step].originEvent
    {
      var overStep := history[step];
      overBtnOnHistory := overStep.originEvent;
    }

    /** `highlightHistoryMouseOut(step)`: clears the highlight, whatever `step` is. */
    method HighlightHistoryMouseOut(step: nat)
      requires Valid()
      modifies this
      ensures Valid()
      ensures overBtnOnHistory == None
      ensures history == old(history) && stepNumber == old(stepNumber) && xIsNext == old(xIsNext)
    {
      overBtnOnHistory := None;
    }

    /** What `render` shows for the current state. */
    function Rendered(): (v: ViewModel)
      reads this
      requires stepNumber < |history|
      ensures v.squares == Live()
      ensures v.overBtnOnHistory == overBtnOnHistory
      ensures v.status == Status(Live(), stepNumber, xIsNext)
    {
      Render(history, stepNumber, xIsNext, overBtnOnHistory)
    }
  }
}

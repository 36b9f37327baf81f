/**
 * The history of board snapshots kept by the `Game` component, and what holds of every
 * history the click handler can build: each entry adds one mark to an empty square of the
 * entry before it, X on even steps and O on odd ones, and never after a win.
 */
module History {
  import opened Wrappers
  import opened Squares
  import opened WinDetector

  /** One history entry: a board and the square whose click produced it (none for the start). */
  datatype Snapshot = Snapshot(squares: Board, originEvent: Option<Index>)

  /** The entry a game starts with. */
  const Start: Snapshot := Snapshot(EmptyBoard, None)

  /** The mark that `xIsNext` selects. */
  function Turn(xIsNext: bool): Mark
  {
    if xIsNext then X else O
  }

  /** The mark played by the move made at `step`: X moves from even steps. */
  function MarkAt(step: nat): Mark
  {
    Turn(step % 2 == 0)
  }

  /** A click on square `i` of this board is accepted: no winner yet and the square is empty. */
  predicate Accepts(squares: Board, i: Index)
  {
    Winner(squares).None? && squares[i].None?
  }

  /** `next` is what an accepted click on `prev`, made at `step`, appends. */
  predicate Follows(prev: Snapshot, next: Snapshot, step: nat)
  {
    next.originEvent.Some? && Accepts(prev.squares, next.originEvent.value) &&
    next.squares == Play(prev.squares, next.originEvent.value, MarkAt(step))
  }

  /** A history the game can build: it begins at `Start` and each entry follows the one before it. */
  predicate ValidHistory(h: seq<Snapshot>)
  {
    |h| >= 1 && h[0] == Start &&
    forall k :: 0 < k < |h| ==> Follows(h[k - 1], h[k], k - 1)
  }

  /** The initial history is valid. */
  lemma StartValid()
    ensures ValidHistory([Start])
  {
  }

  /** Truncating a valid history to its first `n` entries keeps it valid. */
  lemma PrefixValid(h: seq<Snapshot>, n: nat)
    requires ValidHistory(h) && 1 <= n <= |h|
    ensures ValidHistory(h[..n])
  {
  }

  /** Appending an accepted click on the last entry keeps a history valid. */
  lemma ExtendValid(h: seq<Snapshot>, i: Index)
    requires ValidHistory(h)
    requires Accepts(h[|h| - 1].squares, i)
    ensures ValidHistory(h + [Snapshot(Play(h[|h| - 1].squares, i, MarkAt(|h| - 1)), Some(i))])
  {
    var h' := h + [Snapshot(Play(h[|h| - 1].squares, i, MarkAt(|h| - 1)), Some(i))];
    forall k | 0 < k < |h'|
      ensures Follows(h'[k - 1], h'[k], k - 1)
    {
      if k < |h| {
        assert h'[k - 1] == h[k - 1] && h'[k] == h[k];
      }
    }
  }

  /**
   * Entry k of a valid history holds k marks: (k + 1) / 2 X's and k / 2 O's, so X and O
   * alternate and X never trails O.
   */
  lemma {:induction false} StepCounts(h: seq<Snapshot>, k: nat)
    requires ValidHistory(h) && k < |h|
    ensures Count(h[k].squares, None) == 9 - k
    ensures Count(h[k].squares, Some(X)) == (k + 1) / 2
    ensures Count(h[k].squares, Some(O)) == k / 2
  {
    if k == 0 {
      EmptyBoardCounts();
    } else {
      StepCounts(h, k - 1);
      PlayCounts(h[k - 1].squares, h[k].originEvent.value, MarkAt(k - 1));
    }
  }

  /** A valid history holds at most ten entries: the start and one per square. */
  lemma HistoryBounded(h: seq<Snapshot>)
    requires ValidHistory(h)
    ensures |h| <= 10
  {
    StepCounts(h, |h| - 1);
  }

  /** Every entry of a valid history except the last has no winner: a won game takes no more moves. */
  lemma NoMoveAfterWin(h: seq<Snapshot>)
    requires ValidHistory(h)
    ensures forall k :: 0 <= k < |h| - 1 ==> Winner(h[k].squares).None?
  {
    forall k | 0 <= k < |h| - 1
      ensures Winner(h[k].squares).None?
    {
      assert Follows(h[k], h[k + 1], k);
    }
  }

  /**
   * In a valid history a winner is the player who made the last move, and every complete line
   * on that board holds the winner's mark, so the order of the scan does not change the mark
   * reported.
   */
  lemma WinnerIsLastMover(h: seq<Snapshot>, k: nat)
    requires ValidHistory(h) && k < |h|
    requires Winner(h[k].squares).Some?
    ensures k > 0 && Winner(h[k].squares).value.winner == MarkAt(k - 1)
    ensures forall j :: 0 <= j < |Lines| && Completes(h[k].squares, Lines[j]) ==>
              h[k].squares[Lines[j].a] == Some(MarkAt(k - 1))
  {
    if k == 0 {
      EmptyBoardNoWinner();
      assert false;
    }
    var prev, board := h[k - 1].squares, h[k].squares;
    var c := h[k].originEvent.value;
    WinnerNone(prev);
    forall j | 0 <= j < |Lines| && Completes(board, Lines[j])
      ensures board[Lines[j].a] == Some(MarkAt(k - 1))
    {
      var l := Lines[j];
      assert !Completes(prev, l);
      assert c == l.a || c == l.b || c == l.c;
    }
    var first := WinnerSome(board);
  }
}

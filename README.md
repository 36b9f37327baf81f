# Tic-Tac-Toe game logic in Dafny

This project models the game logic of the React Tic-Tac-Toe app in `tictactoe/src/index.js`. The rendering is left out. The model has three parts:

- **Win detection** (`calculateWinner`): the eight winning lines are scanned in a fixed order (rows, then columns, then diagonals). The function returns the first line whose three squares hold the same mark, as `{winner, positions}`, or `null`. `WinDetector.Winner` is the specification. `WinDetector.CalculateWinner` is the loop itself, proved equal to it.
- **The `Game` component's state** (`GameState.Game`): the `history` of board snapshots, `stepNumber`, `xIsNext` and `overBtnOnHistory`. Four methods model the handlers `handleClick`, `jumpTo`, `highlightHistoryMouseOver` and `highlightHistoryMouseOut`. Each `setState` is one atomic assignment. `Valid()` holds in the initial state and every handler preserves it. It says:
  - the history is one the game can build (`History.ValidHistory`);
  - the live step lies inside the history;
  - `xIsNext` equals the parity of the step.
- **View derivation inside `render`** (module `View`): the status line, the highlighted winning positions and the label of each history button.

Modules: `Wrappers` (Option), `Squares` (marks, squares, boards, counting), `WinDetector`, `History` (snapshots and reachable histories), `View` and `GameState`.

JavaScript's `null` and `undefined` become `None`. A board is a sequence of nine `Option<Mark>` values. A square index is a natural number below 9. `handleClick` copies the live board into a fresh array and writes the new mark into that copy. The model keeps this step: it copies into a Dafny array and stores the array's contents in the new snapshot.

The draw test is the code's own: the status is "No one wins" when `stepNumber === 9` (index.js:117). Step 9 is reached only after the ninth move, when every square is taken. `View.StatusInGame` shows that, in every reachable state, this test holds exactly when the board is full and nobody has won.

## Model

| member | source | states |
|---|---|---|
| `Squares.Play` | tictactoe/src/index.js:69-75 | the copied board holds the player's mark in square i and equals the live board on every other square |
| `Squares.PlayCounts` | tictactoe/src/index.js:75 | writing a mark into an empty square removes one empty square, adds one of that mark and leaves the other mark's count alone |
| `Squares.EmptyBoardCounts` | tictactoe/src/index.js:56 | the initial board has nine empty squares and no marks |
| `WinDetector.WinnerFrom` | tictactoe/src/index.js:180-189 | a winner found by the scan from line k on lies on one of lines k..7, that line is complete and the winner is the mark in it |
| `WinDetector.CalculateWinner` | tictactoe/src/index.js:169-190 | the loop over the line table returns exactly the winner specification: the first complete line in scan order, or None |
| `WinDetector.WinnerIsFirstComplete` | tictactoe/src/index.js:170-187 | if line k is complete and no earlier line is, the result has winner = the mark on line k and positions = line k |
| `WinDetector.WinnerNone` | tictactoe/src/index.js:180-189 | the result is null exactly when no line has three equal non-empty squares |
| `WinDetector.WinnerSome` | tictactoe/src/index.js:180-187 | a non-null result comes from the first complete line in scan order, with its mark and its positions |
| `WinDetector.EmptyBoardNoWinner` | tictactoe/src/index.js:56 | the initial board has no winner |
| `History.StartValid` | tictactoe/src/index.js:55-58 | the initial one-entry history is a valid history |
| `History.PrefixValid` | tictactoe/src/index.js:67 | cutting a valid history down to the live step keeps it valid |
| `History.ExtendValid` | tictactoe/src/index.js:71-80 | appending an accepted click, with the mark of that step, keeps a history valid |
| `History.StepCounts` | tictactoe/src/index.js:75-82 | entry k of a valid history holds k marks, (k+1)/2 of them X and k/2 of them O, and 9-k empty squares |
| `History.HistoryBounded` | tictactoe/src/index.js:71-83 | a valid history has at most ten entries |
| `History.NoMoveAfterWin` | tictactoe/src/index.js:71-73 | every entry except the last of a valid history has no winner |
| `History.WinnerIsLastMover` | tictactoe/src/index.js:71-83 | on a board of a valid history a winner is the player of the last move, and every complete line holds that mark, so scan order never changes the reported mark |
| `View.StatusInGame` | tictactoe/src/index.js:112-121 | in a reachable state the status is "No one wins" iff the board is full without a winner, "Next player: X" iff the game is open with equal counts, "Next player: O" iff open with X one ahead, and a win is announced for the last mover |
| `View.WinExample` | tictactoe/src/index.js:114-116 | a top row of X's gives "Winner: X" with positions 0, 1, 2 |
| `View.DrawExample` | tictactoe/src/index.js:117-118 | a full board without a line, at step 9, gives "No one wins" |
| `View.StartExample` | tictactoe/src/index.js:119-120 | the empty board gives "Next player: X" |
| `View.CeilDiv` | tictactoe/src/index.js:124 | `Math.ceil(a / b)` on naturals is the least r with a <= r * b |
| `View.ColumnOf` | tictactoe/src/index.js:125 | the column label lies in 1..3 |
| `View.LineOf` | tictactoe/src/index.js:124 | the line label lies in 1..3 and equals originEvent / 3 + 1 in integer division |
| `View.LabelsIdentifySquare` | tictactoe/src/index.js:124-125 | the square is recovered from its line and column labels |
| `View.NatToString` | tictactoe/src/index.js:127 | a number is printed as a non-empty string of decimal digits with no leading zero |
| `View.NatToStringRoundTrip` | tictactoe/src/index.js:127 | reading the printed digits back gives the number |
| `View.DescriptionNamesSquare` | tictactoe/src/index.js:123-128 | for move > 0 the label ends in "(column, line)" of the clicked square, from which the square is recovered |
| `View.DescriptionExamples` | tictactoe/src/index.js:126-128 | move 0 is "Go to game start" and move 2 on square 4 is "Go to move #2(2, 2)" |
| `View.Render` | tictactoe/src/index.js:107-128 | the view shows the live board, the status of that board and the hover highlight unchanged. Without a winner nothing is highlighted; with one, the highlighted positions are exactly the winning line, and each holds the winner's mark. There is one label per history entry, the label of that entry |
| `View.RenderHighlightsFirstCompleteLine` | tictactoe/src/index.js:110-116 | when the live board has a winner, the highlighted positions are the first complete line in scan order |
| `GameState.Game.constructor` | tictactoe/src/index.js:52-64 | the state starts with one empty board, step 0, X to move and no highlight, and it is valid |
| `GameState.Game.HandleClick` | tictactoe/src/index.js:66-84 | a click is ignored when the live board is won or the square is taken. Otherwise the history becomes the entries up to the live step plus one new entry: the live board with the current player's mark in square i, and origin i. The step becomes old step + 1 = new length - 1, the turn flips, and validity is kept |
| `GameState.Game.JumpTo` | tictactoe/src/index.js:86-91 | sets the step and sets xIsNext to the step's parity; history and highlight are unchanged and validity is kept |
| `GameState.Game.HighlightHistoryMouseOver` | tictactoe/src/index.js:93-99 | sets the highlight to the origin square of entry step, changes nothing else and keeps validity |
| `GameState.Game.HighlightHistoryMouseOut` | tictactoe/src/index.js:101-105 | clears the highlight, changes nothing else and keeps validity |
| `GameState.Game.Rendered` | tictactoe/src/index.js:107-121 | the rendered view of the state shows the live board, the highlight and the status of the live board |

## Left out

- The `Square` and `Board` components (index.js:5-49) are left out. They are presentation only: CSS class choice and row building.
- The JSX of `Game.render` is left out: the move list, the buttons and the handler bindings (index.js:130-158). Only the values it shows are modelled.
- `ReactDOM.render` and the stylesheet import (index.js:2-3, 164-167) are left out. They are DOM I/O.
- React's asynchronous, batched `setState` is not modelled. Each handler is one atomic update.
- The `winnerPositions` field of the initial state (index.js:60) is left out. It is never read, because `render` recomputes it.
- The `overBtnOnHistory: null` key inside the first history entry (index.js:57) is left out for the same reason.
- GameState.Game.JumpTo and GameState.Game.HighlightHistoryMouseOver require `step < |history|`. The source does not check the bounds, so an out-of-range step is a crash or `undefined` there, and that case is not modelled.
- GameState.Game.HandleClick takes a square index 0..8. The board only ever passes such indices.
- The start entry has no origin square. Hovering it yields `undefined` in the source and `None` here; `null` is `None` too.
- For a label of an entry without an origin, `MoveDescription` prints the `NaN` coordinates JavaScript would print. Only the start entry lacks an origin, and it always gets the game-start label.
- A "new game" reset action is not modelled. The source has none.
- The turn is kept as the stored flag `xIsNext`, as in the source, rather than derived from the step. `Valid()` ties the two together.

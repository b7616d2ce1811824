# Tic-tac-toe game state machine, in Dafny

This project models the logic of the `Game` component of a browser
tic-tac-toe game (`src/index.js`). The component owns three pieces of state:
the history of board snapshots, a flag saying whether X moves next, and the
winner. Two handlers change that state. A click on a square plays a move. A
click on a history button jumps back to an earlier snapshot. The win
evaluation scans the eight lines of the board. Each render derives a status
line and one label per history button.

Files:

- `wrappers.dfy`: the `Option` type. A missing winner is JavaScript's `null`.
- `squares.dfy` (module `Squares`): cells, marks, the eight lines in scanning
  order, and the win evaluation. The spec function `Winner` is proved to
  return the mark of the first complete line. The loop `CalculateWinner` is
  proved equal to it.
- `display.dfy` (module `Display`): the status line, the history-button
  labels, and the decimal rendering of step numbers.
- `game.dfy` (module `TicTacToe`): the `Game` class with `HandleClick` and
  `JumpTo`. It also has the invariant these keep, lemmas about that
  invariant, and two scripted games.

Modelling choices:

- A board is a `seq<Cell>` with `Cell = Empty | X | O`. `Mark` is the
  non-empty cells. `At` reads a square and gives `Empty` past the end, as a
  JavaScript array gives `undefined`.
- Each `setState` call is one atomic assignment to the class fields.
- The click index is required to be in 0..8. The `Board` component only
  passes those indices (src/index.js:40-46).
- `JumpTo` requires `step < |history|`. The history list only offers those
  indices (src/index.js:122-126).
- The class invariant `Valid()` says:
  - history is non-empty;
  - snapshot k has nine squares, (k+1)/2 of them X and k/2 of them O;
  - every snapshot keeps all marks of the one before;
  - `xIsNext == (((|history| - 1) % 2 == 0) == winner.None?)`, i.e. the flag
    follows move parity, except that a winning move does not flip it;
  - a recorded winner is the winner of the current board.
- Line 115 reads as if a jump should recompute the winner from the target
  snapshot. The model follows what the code does instead. The code at
  src/index.js:115 keeps a null winner. Otherwise it
  passes the wrapper object `{squares}` to `calculateWinner`, which finds no
  numbered squares in it and returns null. So after every jump the winner
  is null, and `JumpTo` sets it to `None`.
- One consequence: jumping to the snapshot on which someone won reopens the
  board. Play goes on from a board that already has a line. The next move is
  then "won" by whoever owns the first complete line in scanning order, even
  if that is not the mover. `ReplayAfterWin` shows this: X wins the top row,
  the game jumps to step 5, O plays square 8, and X is recorded as the
  winner. The invariant still holds in such games, because it says nothing
  about who made the winning move.

## Model

| member | source | states |
|---|---|---|
| `Squares.CalculateWinner` | src/index.js:92-110 | The loop over the eight lines returns exactly `Winner(squares)`. That is the mark of the first complete line, or none. |
| `Squares.Winner` | src/index.js:92-110 | No winner if and only if no line holds three equal non-empty marks, so a full board without a line is a draw. Otherwise the winner is the mark of a complete line that no earlier line (rows, then columns, then diagonals) precedes. |
| `Squares.WinnerOwnsALine` | src/index.js:105-106 | A reported winner m has all three squares of some line equal to m. |
| `Squares.LoneLineWins` | src/index.js:93-106 | Each of the eight lines, filled with one mark on an otherwise empty board, makes that mark the winner. |
| `Squares.DrawnBoardHasNoWinner` | src/index.js:103-109 | A concrete full board with no line evaluates to no winner. |
| `Display.Status` | src/index.js:121 | The status starts with "W" exactly when there is a winner. Its last letter is the winner's mark, or, with no winner, the mark of the player to move. |
| `Display.StatusDistinguishes` | src/index.js:121 | Two states with the same status line have the same winner and, when there is none, the same player to move. |
| `Display.NatToDecimal` | src/index.js:123 | A step number is written as at least one decimal digit, with no leading zero. |
| `Display.DecimalRoundTrip` | src/index.js:123 | Reading back the decimal text of a step number gives the number. |
| `Display.MoveLabel` | src/index.js:123 | Snapshot 0 is labelled "Go to game start" and no other is. Snapshot k > 0 is labelled "Go to step #" followed by decimal digits with no leading zero whose value is k. |
| `Display.MoveLabelInjective` | src/index.js:123 | Different snapshots get different labels. |
| `Display.MoveLabels` | src/index.js:122-123 | The history list has one label per snapshot, and entry k is the label of snapshot k. |
| `TicTacToe.Game.constructor` | src/index.js:54-64 | The game starts with one empty snapshot, X to move and no winner. The status reads "Next player: X" and the history list is just "Go to game start". |
| `TicTacToe.Game.CurrentSquares` | src/index.js:66-68 | The displayed board is the last snapshot. In a valid state it has nine squares, with one mark per move played. |
| `TicTacToe.Game.HandleClick` | src/index.js:70-90 | With a winner or an occupied square, history, turn flag and winner are unchanged. Otherwise: history gains exactly one snapshot, the old board with the mover's mark at i; earlier snapshots are unchanged; the winner is the winner of the new board; a winning move leaves the turn flag alone and any other move flips it. The invariant is kept. |
| `TicTacToe.Game.JumpTo` | src/index.js:112-117 | History becomes its prefix of step + 1 snapshots. The turn flag becomes `step % 2 == 0`. The winner becomes null, as line 115 does. The invariant is kept. |
| `TicTacToe.MoveKeepsSnapshot` | src/index.js:75-76 | Writing the parity-designated mark on an empty square of snapshot k gives a board that is snapshot k + 1 and keeps every earlier mark. |
| `TicTacToe.AppendKeepsLegal` | src/index.js:81 | Appending the next snapshot, one mark further and keeping every earlier mark, to a legal history keeps it legal. |
| `TicTacToe.PrefixKeepsLegal` | src/index.js:113 | Every non-empty prefix of a legal history is legal. |
| `TicTacToe.HistoryShape` | src/index.js:57-63 | In a valid game, snapshot k has nine squares with exactly k marked, and there are at most ten snapshots. |
| `TicTacToe.FullBoardIgnoresClicks` | src/index.js:71 | After nine moves every square is occupied, so every click is ignored. |
| `TicTacToe.StatusShowsTurn` | src/index.js:121 | While nobody has won, the status names X after an even number of moves and O after an odd number. |
| `TicTacToe.PlayTopRowWin` | src/index.js:70-90 | X at 0, O at 3, X at 1, O at 4, X at 2 leaves six snapshots, X as the winner, the turn flag still with X, and the top row filled with X. |
| `TicTacToe.TopRowWin` | src/index.js:121-123 | That game shows "Winner: X", six snapshots, and labels from "Go to game start" to "Go to step #5". |
| `TicTacToe.ReplayAfterWin` | src/index.js:112-117 | After X's top-row win, jumping to step 5 shows "Next player: O". O's move at 8 is accepted, and X is recorded as the winner. |

## Left out

- The `Square` and `Board` components (src/index.js:20-51) only lay out the
  nine buttons and forward clicks. The model keeps only their row-major
  indices 0..8, as the precondition of `HandleClick`.
- The JSX output of `Game.render` other than the status and label strings:
  the list structure, keys and CSS classes are presentation only.
- Mounting into the DOM (`ReactDOM.render`, `document.getElementById`) is
  I/O.
- React's asynchronous scheduling of `setState`. Updates are applied one at
  a time, in order, so each handler is one atomic state update.
- Recomputing the winner from the target snapshot on a jump is not
  modelled. The code always yields a null winner there (see above).

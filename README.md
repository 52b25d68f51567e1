# Tic-tac-toe with time travel, modelled in Dafny

This project models the game logic of a React tic-tac-toe component
(`src/App.jsx`): the win detector `checkWinner`, the state of the `Game`
component (the history of boards, the log of clicked squares, the index of
the displayed board, the popup slot and the order of the move list) with the
handlers that change it, the click handler of `Board`, the status line, and
the move list that labels each history entry with the row and column of its
move.

Files and modules:

- `wrappers.dfy`, module `Wrappers`: `Option`, standing for JavaScript's `null`.
- `rules.dfy`, module `Rules`: players, squares, the board (a sequence of
  exactly 9 squares, since `size` is 3), the table of eight winning lines,
  `Winner` (the value `checkWinner` returns, as a recursive scan of the
  table) and `CheckWinner` (its `for` loop with the early return), the
  square counts every board of the history satisfies, and `Place`, the `slice()`-and-assign step of `handleClick`.
- `move_list.dfy`, module `HistoryView`: the move list as a sequence of
  label records, one per history index (none for index 0), optionally
  reversed.
- `game.dfy`, module `GameState`: the popup messages, the status line, the
  history invariants stated on values with their preservation lemmas, and
  the class `Game`. Its fields are `history`, `moves`, `moveIdx`,
  `isReversed` and `popup`. Its methods are `Click` (`Board.handleClick`),
  `HandlePlay`, `JumpTo`, `ResetBoard`, `OnReverse` and `Dismiss` (the
  popup's OK button). Every React state setter is an immediate assignment.
  `isXNext` is derived from `moveIdx` and never stored.
- `move_log.dfy`, module `MoveLog`: what the move log is meant to record,
  and the finding below.
- `scenarios.dfy`, module `Scenarios`: whole games driven through a fresh
  `Game` object.

The class `Game` follows the code as written:

- `handlePlay` cuts `history` after `moveIdx` but appends to `moves`
  without cutting it.
- `resetBoard` leaves `moves`, the popup and the order alone.

So `moves` only grows, and after a jump back or a restart it no longer
runs parallel to `history`. The move list itself shows what the log is
for: it labels history entry `idx` with the row and column of `moves[idx]`
(`src/App.jsx`, lines 42-45), which names the move that produced board
`idx` only while the two arrays run side by side. That mismatch is the
finding below; the class keeps the update as written.

The invariant `Game.Valid()` says:

- the history is never empty and `moveIdx` points into it;
- board 0 is the empty board, and every later board is the board before
  it with one empty square marked for the player to move;
- board `k` holds `ceil(k/2)` X marks, `floor(k/2)` O marks and `9 - k`
  empty squares;
- no board but the last has a winner;
- a winning last board is the displayed one, won by the player who made
  the last move;
- `moves` is at least as long as `history`, starts with `null` and holds
  a square everywhere else.

Every method keeps it. `JumpTo` assumes this much of its caller: it is only
called from a "Go to" button of the move list, so its index lies inside the
history.

## Model

| member | source | states |
|---|---|---|
| `Rules.Winner` | src/App.jsx:176-192 | a winner is always the mark that fills some line of the table |
| `Rules.WinnerSpec` | src/App.jsx:176-192 | `Winner` gives no result exactly when none of the eight lines has three equal marks; otherwise it gives the mark of the first winning line in table order, and such a line exists |
| `Rules.WinnerFromSpec` | src/App.jsx:185-190 | scanning the table from entry `k` finds nothing exactly when no line from `k` on wins, and otherwise finds the first winning line from `k` on |
| `Rules.CheckWinner` | src/App.jsx:185-191 | the loop with its early return computes exactly `Winner` |
| `Rules.EmptyHasNoWinner` | src/App.jsx:176-192 | the all-null board has no winner |
| `Rules.FilledLineWins` | src/App.jsx:186-189 | a line whose three squares carry one player's mark gives a winner, and that player is the winner when no earlier line wins |
| `Rules.SingleLineWins` | src/App.jsx:177-184 | for each of the eight lines, the empty board with that line filled by one player is won by that player |
| `Rules.WinnerIsLastMover` | src/App.jsx:116-129 | marking an empty square of a board without a winner can only produce a winner that is the player who just moved |
| `Rules.MoverAlternates` | src/App.jsx:12 | the player to move (`Mover`) is X at index 0, and never the player who moved at the index before |
| `Rules.CountOfUpdate` | src/App.jsx:125-127 | overwriting one square changes each square count by exactly the old and new contents of that square |
| `Rules.CountPartition` | src/App.jsx:8 | every square is empty, X or O |
| `Rules.TallyEmpty` | src/App.jsx:8 | the initial board has no marks and nine empty squares |
| `Rules.TallyTaken` | src/App.jsx:8-25 | a board after `k` moves has exactly `k` taken squares, so `k` is at most 9 |
| `Rules.TallyAfterPlace` | src/App.jsx:125-127 | the player to move taking an empty square turns the board after `k` moves into a board after `k + 1` moves |
| `Rules.Place` | src/App.jsx:125-127 | the new board is a copy of the displayed board with only square `i` changed, to the current player's mark |
| `HistoryView.Entry` | src/App.jsx:42-56 | no entry for index 0; any other index gets an entry carrying that index, row and column in 0..2 with `row * 3 + col` the logged square, current exactly when the index is `moveIdx` |
| `HistoryView.Ascending` | src/App.jsx:42-56 | one position per history board; position `idx` holds the entry of index `idx`, empty only at position 0 |
| `HistoryView.Reverse` | src/App.jsx:60 | the reversed list has the same length and the same elements |
| `HistoryView.MoveList` | src/App.jsx:42-63 | one position per history board; the entry of index `idx` sits at position `idx`, or `n - 1 - idx` when reversed |
| `HistoryView.ReverseIndex` | src/App.jsx:60 | `reverse` puts element `k` at position `length - 1 - k` |
| `HistoryView.ReverseReverse` | src/App.jsx:60 | reversing twice gives the list back |
| `HistoryView.MoveListOrder` | src/App.jsx:42-63 | the list has one position per history board; position `p` is history index `p`, or `n - 1 - p` when reversed, and only index 0 has no entry |
| `HistoryView.LabelsLocateMove` | src/App.jsx:43-45 | each entry is for a history index after the first, has row and column in 0..2, and `row * 3 + col` is the square logged for that index |
| `HistoryView.OneCurrentEntry` | src/App.jsx:46-53 | an entry reads "currently at" exactly when its index is `moveIdx`; at most one entry does, and one does whenever `moveIdx` is at least 1 |
| `HistoryView.ToggleReverses` | src/App.jsx:57-67 | flipping the order shows the reversed list, and flipping twice shows the original list |
| `GameState.GameOverPopup` | src/App.jsx:117-119 | the popup is titled "Game Over" and its message begins with the winner's symbol |
| `GameState.Status` | src/App.jsx:133-135 | the status line starts with "Winner: " exactly when the board has a winner, and ends with the winner's symbol or else with the next player's symbol |
| `GameState.PlayedHistory` | src/App.jsx:17-18 | the new history keeps boards `0..moveIdx` and adds the displayed board with square `i` marked, so it has `moveIdx + 2` boards |
| `GameState.InitialHistoryInvariant` | src/App.jsx:8-10 | the one-board history at index 0 satisfies the history invariant |
| `GameState.SuccessiveTallied` | src/App.jsx:8-25 | a history that starts with the empty board and goes on by single moves holds `k` alternating marks on board `k` |
| `GameState.UnplayableHistoryRejected` | src/App.jsx:17-25 | a history whose boards are not one move apart (X on square 0, then X on 1 and O on 2) fails the invariant |
| `GameState.PlayKeepsSuccessive` | src/App.jsx:17-25 | after a play every board is still the previous board with one empty square marked for the mover; the clicked square makes the new board one move on |
| `GameState.PlayKeepsTallied` | src/App.jsx:17-25 | after a play every board `k` still holds `k` alternating marks |
| `GameState.PlayKeepsOnlyLastWon` | src/App.jsx:17-25 | after a play on a board without a winner, only the new last board may be won, it is the displayed one, and it is won by the mover |
| `GameState.PlayKeepsHistoryInvariant` | src/App.jsx:17-25 | a play on an empty square of a board without a winner keeps the whole history invariant, with `moveIdx` on the new board |
| `GameState.JumpKeepsHistoryInvariant` | src/App.jsx:26-35 | while the displayed board has no winner, no board of the history has one, and any index of the history may be displayed |
| `GameState.HistoryLength` | src/App.jsx:8-25 | a reachable history has at most ten boards, and board `k` has exactly `k` taken squares |
| `GameState.AppendedMoves` | src/App.jsx:19 | the log update as written keeps the whole old log, entries of discarded boards included, and adds the clicked square |
| `GameState.Game.CurrSquares` | src/App.jsx:11 | the displayed board holds `moveIdx` alternating marks, and it can only be won when it is the last board |
| `GameState.Game.IsXNext` | src/App.jsx:12 | X is to move exactly when `Mover(moveIdx)` is X, and on a reachable board exactly when X and O hold as many squares |
| `GameState.Game.StatusLine` | src/App.jsx:133-135 | without a winner the line names the player to move; with one it names the player who made the last move |
| `GameState.Game.ShownMoveList` | src/App.jsx:42-63 | one position per history board, and the entry of `moveIdx` is at position `moveIdx` (or mirrored when reversed) and marked current |
| `GameState.Game.Ordering` | src/App.jsx:57-63 | the caption is "Descending" exactly when the list is reversed and "Ascending" exactly when the list is in history order |
| `GameState.Game.LabelsLocateLoggedMove` | src/App.jsx:42-45 | on a reachable state every entry's index is a history index with a logged square, and `row * 3 + col` is that square |
| `GameState.Game.constructor` | src/App.jsx:8-15 | the initial state: one empty board, `moveIdx` 0, move log `[null]`, ascending order, no popup |
| `GameState.Game.HandlePlay` | src/App.jsx:17-25 | the history is cut after `moveIdx` and the new board appended and displayed; the move log gets the clicked square appended without being cut |
| `GameState.Game.Click` | src/App.jsx:116-130 | on a won board: only the "Game Over" popup naming the winner; else on a taken square: only the "occupied" popup; else the history is cut and the marked copy appended and displayed, and the clicked square is appended to the log |
| `GameState.Game.JumpTo` | src/App.jsx:26-35 | on a won board only the "Game has ended" popup; otherwise `moveIdx` becomes `idx`; history and log never change |
| `GameState.Game.ResetBoard` | src/App.jsx:36-41 | one empty board at index 0, X to move, no winner; the log, popup and order are untouched |
| `GameState.Game.OnReverse` | src/App.jsx:65-67 | the order flag flips, the shown list is the reverse of the previous one, the caption changes, and nothing else changes |
| `GameState.Game.Dismiss` | src/App.jsx:81 | the popup slot is cleared and nothing else changes |
| `Scenarios.DiagonalWin` | src/App.jsx:113-135 | X 0, O 1, X 4, O 2, X 8 gives the status "Winner: X"; a further click raises "Game Over: X has won"; a jump back is refused and `moveIdx` stays 5 |
| `Scenarios.OccupiedSquare` | src/App.jsx:121-124 | clicking X's square 0 again raises the "occupied" popup and leaves the history at two boards |
| `Scenarios.StaleMoveLabel` | src/App.jsx:17-25 | after X 0, O 1, X 2, a jump to move 1 and O 5, the current move-list entry reads (0, 1), a square still empty on the board it labels |
| `MoveLog.TruncatedMoves` | src/App.jsx:18 | the corrected log update keeps entries `0..moveIdx` and adds the clicked square |
| `MoveLog.AppendedMovesLoseTrack` | src/App.jsx:17-25 | on a concrete game the log tracks the history before a play after a jump back; the appended log no longer does and mislabels the new board, while the cut log still tracks it |
| `MoveLog.TruncatedMovesKeepTrack` | src/App.jsx:17-25 | with the log cut like the history, every play keeps entry `k` naming the square played to reach board `k` |
| `MoveLog.ResetKeepsTrack` | src/App.jsx:36-41 | after a restart, the one-board history is described by any log that is not empty |
| `MoveLog.TrackedLabelsNamePlayedSquare` | src/App.jsx:42-47 | while the log tracks the history, every move-list entry names the square that was empty before its board and holds the mover's mark on it |

## Left out

- Rendering: the JSX, CSS classes, images, the popup overlay markup and its
  `stopPropagation`, and the `Square` and `ResetButton` components. The
  popup is kept as an optional title and message with the exact strings.
- The text of the move-list items ("Go to (r, c)", "You're currently at
  (r, c)") is not built. Each item is a record holding its index, row,
  column and whether it is the current one. The `null` the map callback
  returns for index 0 is kept as `None`.
- The list is hidden while the history has one board
  (`history.length > 1`). No visibility flag is modelled. Such a list
  holds only the `None` for index 0.
- The `size` / `boardSize` parameter: the winning-line table only works
  for a 3x3 board, so the size is fixed at 3.
- React's re-rendering and batching of state updates: each setter is an
  immediate assignment inside one synchronous event handler.
- Commented-out code and `console.log` lines.
- `GameState.Game.JumpTo`: requires an index inside the history. `App.jsx`
  only calls it from the move-list buttons, which offer indices 1 to
  `history.length - 1`.
- `HistoryView.Entry` turns a `null` logged move into square 0, as
  JavaScript's `Math.floor(null / 3)` and `null % 3` do. An index past the
  end of the log (JavaScript's `undefined`, giving `NaN`) is excluded by a
  precondition, and the invariant shows that it never happens.

## Findings

| source | as written | input that shows it | evidently intended | confidence | as-written member | corrected member |
|---|---|---|---|---|---|---|
| src/App.jsx:19 | `handlePlay` appends the clicked square to `moves` without cutting it at `moveIdx + 1`, as it cuts `history`; `resetBoard` does not reset it either | X 0, O 1, X 2, "Go to" move 1, O clicks 5: the current entry reads (0, 1), the square O took in the discarded branch, instead of (1, 2) | the move list labels history entry `idx` with `moves[idx]` (src/App.jsx:42-45), so the log is meant to run parallel to the history: cut with it, `[...moves.slice(0, moveIdx + 1), clickedSquare]`, so entry `k` names the square played to reach board `k` | high, not executed | `Scenarios.StaleMoveLabel` | `MoveLog.TruncatedMovesKeepTrack` |

`MoveLog.AppendedMovesLoseTrack` shows the same discrepancy on values. The
corrected update also copes with a reset: a history of one board is
described by any log (`MoveLog.ResetKeepsTrack`), and the next play cuts
the old entries off after index 0 before appending, so the log keeps
tracking the new game (`MoveLog.TruncatedMovesKeepTrack`). `MoveLog.TrackedLabelsNamePlayedSquare` states the intended
labelling for a log that tracks the history. The class `Game` keeps the
update as written, because it models what the program does.

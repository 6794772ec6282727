# Tic-tac-toe game logic in Dafny

This project models the game logic of a browser tic-tac-toe app. The logic lives in the
`App` component (`src/App.tsx`). A human plays X against a computer that plays O.

The model has five modules:

- `Grid` (`grid.dfy`): the cell type (`'X' | 'O' | null`) and the nine-cell board in
  row-major order. It also holds the eight lines in the app's scan order, and the ascending
  lists of empty cells and free corners that the computer picks from.
- `WinDetector` (`win_detector.dfy`): `checkWinner`. The app records the winning line through
  a state setter; here it is a pure function returning the outcome together with that line.
- `MoveSelector` (`move_selector.dfy`): the choice of cell in `makeComputerMove`. First a coin
  flip decides between a random empty cell and the heuristic. The heuristic takes the first
  O win, else blocks the first X win, else takes the centre, else a random free corner, else
  a random empty cell. Every `Math.random()` call is replaced by a caller-supplied `Dice`:
  - a boolean for `Math.random() < 0.5`;
  - a natural below `n` for each `Math.floor(Math.random() * n)`.
- `Controller` (`controller.dfy`): the component's state fields and the handlers
  `handleCellClick` (`Click`), the move commit of `makeComputerMove`/`tryMove` (`Reply`),
  `endGame` (`EndGame`) and `resetGame` (`RequestReset`, then `CompleteReset`).
  - A callback handed to `setTimeout` is returned as a `Timer` value instead of being run.
    The caller fires it later through the matching step function, in any order.
  - The confetti call is modelled as a `celebrations` counter.
- `Scenarios` (`scenarios.dfy`): concrete games played through the step functions.

The record `winningLine` follows a rule in the model. React applies the state updates of one
handler together, so the last `setWinningLine` call wins. In every handler that last call is
the `checkWinner` call on the board being committed, because the look-ahead calls come
earlier. So after `Click` and `Reply`, `winningLine` is the line the detector reports for the
committed board.

Where the code departs from the intended design of the game, the model follows the code:
- Input is blocked again after the computer's move only on the random branch and on the final
  any-empty-cell rule. The other rules leave through an early `return tryMove(i)`.
- A reset neither clears the input block nor cancels a pending computer reply.
- `isFading` and `isResetting` are never set to true (`FadeFlagsStayDown`), so clicks stay
  accepted while the board fades out. The reply works on the board it was scheduled with (`ReplyIgnoresCurrentBoard`).
  So a click during the fade can be answered on the old board after the reset has cleared it.
- The state invariant `Consistent` (the recorded winner and line agree with the board) holds
  after every handler. For a computer reply it is guaranteed only when the game was not
  already over when the reply fired (`ReplyPreservesConsistency`). A reply that fires after
  the game ended, on a board it leaves undecided, commits that board under the old winner
  (`LateReplyBreaksConsistency`, `LateReplyExample`). The model does not assume any ordering
  of the timers.

## Model

| member | source | states |
|---|---|---|
| Grid.FreeAmong | src/App.tsx:58-60 | the kept indices are exactly the candidates whose cell is empty, and any two of them appear in the same order as in the candidates, whatever that order is (ascending candidates give an ascending result) |
| Grid.EmptyIndices | src/App.tsx:58-60 | `emptyIndices` holds exactly the empty cells, in ascending order, and is non-empty exactly when the board is not full |
| Grid.FreeCorners | src/App.tsx:95-96 | `freeCorners` holds exactly the empty cells among 0, 2, 6, 8, in that order |
| WinDetector.ScanLines | src/App.tsx:26-34 | scanning from line k: the first complete line from k on gives the winner (the symbol on it) and is the winning line; with none, the line is empty and the result is a draw exactly when the board is full, else no result |
| WinDetector.CheckWinner | src/App.tsx:19-35 | the first complete line in the order of lines 20-23 decides the winner and becomes the winning line; with no complete line the winning line is empty and the result is `'draw'` iff every cell is filled, otherwise `null` |
| WinDetector.FirstCompleteExists | src/App.tsx:26-31 | if any line from k on is complete, there is a first such line, so the scan always stops at a definite line |
| WinDetector.WinnerIffCompleteLine | src/App.tsx:26-31 | the result is a winner iff some line is complete, and then the winning line is the first complete line in the order of lines 20-23 |
| WinDetector.WinningLineHoldsWinner | src/App.tsx:27-29 | a reported winning line has three cells, each holding the winner's mark |
| WinDetector.DrawIffFullWithoutLine | src/App.tsx:33-34 | with no winner the winning line is empty; the result is a draw iff no line is complete and every cell is filled, and no result iff no line is complete and a cell is empty |
| MoveSelector.FirstCompleting | src/App.tsx:81-91 | the position returned is the first candidate from k on where the player's mark makes the detector report that player; no position means no candidate does |
| MoveSelector.FindCompleting | src/App.tsx:81-91 | the look-ahead loops return the lowest empty index at which the player wins in one move, and return nothing exactly when no empty index wins |
| MoveSelector.ChooseMove | src/App.tsx:75-104 | the chosen cell is always empty; the random branch takes the picked empty cell; the heuristic takes the lowest O win, else the lowest X win, else the centre, else the picked free corner, else the picked empty cell |
| Controller.EndGame | src/App.tsx:110-122 | commits the board, records the result, ends the game, and celebrates exactly when X won |
| Controller.Click | src/App.tsx:37-55 | a click is dropped (nothing changes, nothing scheduled) exactly when the cell is taken, the game is over, the board fades or input is blocked; otherwise the board changes only at the index, which gets X, input is blocked, and either the game ends with the detector's result or the board is committed and the reply is scheduled on it, a board that is not full; the celebration count rises by one exactly on an X win and is otherwise unchanged; the fading flags and the reset flag are unchanged |
| Controller.Reply | src/App.tsx:57-108 | O goes on the chosen empty cell of the scheduled board and no other cell changes; the game ends on a result or else the board is committed; the celebration count rises by one exactly on an X win and is otherwise unchanged; the fading flags and the reset flag are unchanged; input is blocked again exactly on the random and final any-empty-cell rules |
| Controller.RequestReset | src/App.tsx:124-128 | a cell is marked fading exactly when it is occupied; nothing else changes and the clearing is scheduled |
| Controller.CompleteReset | src/App.tsx:129-136 | the board is empty, no cell fades, the game is not over, there is no winner and no winning line; the input block is left as it was |
| Controller.Unblock | src/App.tsx:45 | the timer callback lifts the input block and leaves the board, result, fading flags and celebrations alone |
| Controller.InitialAcceptsEveryClick | src/App.tsx:10-17 | the initial state is consistent and accepts a click on every cell |
| Controller.ClickPreservesConsistency | src/App.tsx:37-55 | after a click the recorded winner, game-over flag and winning line still agree with the board |
| Controller.ReplyPreservesConsistency | src/App.tsx:64-73 | a reply fired while the game is not over keeps the recorded winner, game-over flag and winning line in agreement with the board |
| Controller.LateReplyBreaksConsistency | src/App.tsx:64-72 | a reply fired after the game ended whose board stays undecided is committed by `setCells` under the old winner, so the state no longer agrees with its board |
| Controller.LateReplyExample | src/App.tsx:75-79 | after a finished game, a random reply on a board holding one X leaves the board undecided and the state inconsistent |
| Controller.FadeFlagsStayDown | src/App.tsx:14-15 | no step raises `isFading` or `isResetting` when they are down, so the fading guard never drops a click |
| Controller.ResetAndUnblockPreserveConsistency | src/App.tsx:124-136 | the reset request, the reset completion and the unblock callback keep the recorded result in agreement with the board |
| Controller.AcceptedClickBlocksInput | src/App.tsx:38-45 | after an accepted click every further click is dropped until the unblock fires, so a double click places one X |
| Controller.ClickThenReply | src/App.tsx:40-54 | a human move and the reply to it leave the old board with X at the clicked cell and O at exactly one other, previously empty cell, and the state consistent |
| Controller.HeuristicTakesAvailableWin | src/App.tsx:81-85 | on the heuristic branch, when O can win in one move the reply ends the game with O as the winner |
| Controller.ReplyIgnoresCurrentBoard | src/App.tsx:54-66 | the reply's board depends only on the scheduled board, so a reply that fires after a completed reset puts back a non-empty board |
| Controller.ResetRequestDoesNotBlockClicks | src/App.tsx:124-128 | a reset request does not change which clicks are dropped |
| Controller.ResetCompletionAcceptsClicks | src/App.tsx:129-136 | after the reset completes the state is consistent, and a click is accepted exactly when input was not blocked and the board was not fading |
| Scenarios.CentreOpening | src/App.tsx:37-55 | a click on the centre of an empty board commits X there, blocks input and schedules the reply on that board |
| Scenarios.CentreReply | src/App.tsx:57-108 | the reply to the centre opening keeps the X and puts O on exactly one other cell |
| Scenarios.HumanWinsTopRow | src/App.tsx:37-50 | completing the top row ends the game with X as winner, the winning line 0, 1, 2 and one celebration |
| Scenarios.LastCellIsDraw | src/App.tsx:33-34 | filling the last cell without completing a line ends the game in a draw with no winning line and no celebration |
| Scenarios.OwnWinBeforeBlock | src/App.tsx:81-85 | when the centre completes a line for O the heuristic takes it as a win, although it would also block X |
| Scenarios.BlockWhenNoOwnWin | src/App.tsx:87-91 | when O cannot win but X can complete a diagonal at the centre, the heuristic blocks there |

## Left out

- `src/components/GameBoard.tsx` is not part of this model. It is presentation only: animations, click-zone positions and class names.
- The confetti parameters, the Lottie animations and the result-message strings are display-side effects. The confetti call is kept only as the `celebrations` counter.
- The 600 ms delays and the order in which timers fire are not modelled. Handlers return the callbacks they schedule, and any firing order can be fed to the step functions.
- React state batching is not modelled beyond the rule for `winningLine` described above.
- `Math.random` floating-point values are replaced by the `Dice` choices. The model does not state that the picks are uniform.
- `isFading` and `isResetting` are modelled as fields that the app never sets to true. No transition in the model sets them either.
- ChooseMove: requires the board to have an empty cell (`Fits`). The app calls it only on boards that `Click` left undecided, and `Click` guarantees those are not full. On a full board the app would index past the end of `emptyIndices`, which has no meaning here.
- Reply: has the same requirement, for the same reason.
- An index outside 0-8 passed to `handleCellClick` is excluded by the `Index` type. The presentation layer passes only the nine click-zone indices.

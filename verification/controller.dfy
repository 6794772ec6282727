/** The game controller of the `App` component: its state fields and the
    handlers `handleCellClick`, `makeComputerMove` (the move it commits),
    `endGame` and `resetGame`.
    Each handler is a step function from one state to the next. The
    callbacks a handler hands to `setTimeout` are returned as `Timer` values
    rather than run; the caller fires them later, in any order, through the
    step function of each timer. The confetti effect is a counter.
 */
module Controller {
  import opened Grid
  import opened WinDetector
  import opened MoveSelector

  /** The state fields of the component (`winner` is `null`, X, O or
      `'draw'`; `celebrations` counts the confetti calls). */
  datatype GameState = GameState(
    cells: Board,
    isGameOver: bool,
    winner: Outcome,
    winningLine: seq<Index>,
    isResetting: bool,
    isFading: bool,
    isInputBlocked: bool,
    fadingCells: seq<bool>,
    celebrations: nat)

  /** A callback handed to `setTimeout`: unblock input, the computer's reply
      on the board it was scheduled with, or the end of the reset fade. */
  datatype Timer = UnblockInput | ComputerReply(snapshot: Board) | ResetCompletion

  /** The state after a handler, and the callbacks it scheduled. */
  datatype Step = Step(state: GameState, scheduled: seq<Timer>)

  const NoFading: seq<bool> := [false, false, false, false, false, false, false, false, false]

  /** The state of a freshly mounted component. */
  function Initial(): GameState {
    GameState(EmptyBoard, false, NoResult, [], false, false, false, NoFading, 0)
  }

  /** The recorded result and winning line agree with the board: the winner
      field is what the win detector says of the board, the game is over
      exactly when there is a result, and the winning line is the one the
      detector reports. */
  predicate Consistent(g: GameState) {
    |g.fadingCells| == 9 &&
    g.winner == CheckWinner(g.cells).outcome &&
    g.winningLine == CheckWinner(g.cells).line &&
    (g.isGameOver <==> g.winner != NoResult)
  }

  /** `endGame`: commit the board, record the result, end the game, and
      celebrate when the human (X) won. */
  function EndGame(g: GameState, result: Outcome, cells: Board): (g': GameState)
    requires result != NoResult
    ensures g'.cells == cells && g'.winner == result && g'.isGameOver
    ensures g'.celebrations == g.celebrations + 1 <==> result == Winner(X)
    ensures result != Winner(X) ==> g'.celebrations == g.celebrations
    ensures g'.winningLine == g.winningLine && g'.isInputBlocked == g.isInputBlocked &&
            g'.fadingCells == g.fadingCells && g'.isFading == g.isFading &&
            g'.isResetting == g.isResetting
  {
    g.(cells := cells, winner := result, isGameOver := true,
       celebrations := if result == Winner(X) then g.celebrations + 1 else g.celebrations)
  }

  /** The guard of `handleCellClick`: the click is dropped. */
  predicate Ignored(g: GameState, index: Index) {
    g.cells[index] != Empty || g.isGameOver || g.isFading || g.isInputBlocked
  }

  /** `handleCellClick`: unless the guard drops the click, place X, block
      input, and either end the game on a result or commit the board and
      schedule the computer's reply on it. */
  function Click(g: GameState, index: Index): (s: Step)
    ensures s.scheduled == [] <==> Ignored(g, index)
    ensures Ignored(g, index) ==> s.state == g
    ensures !Ignored(g, index) ==>
              s.state.cells[index] == Mark(X) &&
              (forall j: Index :: j != index ==> s.state.cells[j] == g.cells[j]) &&
              s.state.isInputBlocked && s.scheduled[0] == UnblockInput &&
              s.state.winningLine == CheckWinner(s.state.cells).line &&
              s.state.fadingCells == g.fadingCells &&
              s.state.isFading == g.isFading && s.state.isResetting == g.isResetting &&
              s.state.celebrations ==
                (if CheckWinner(s.state.cells).outcome == Winner(X) then g.celebrations + 1
                 else g.celebrations)
    ensures !Ignored(g, index) && CheckWinner(s.state.cells).outcome != NoResult ==>
              s.state.isGameOver && s.state.winner == CheckWinner(s.state.cells).outcome &&
              s.scheduled == [UnblockInput] &&
              (s.state.celebrations == g.celebrations + 1 <==> s.state.winner == Winner(X))
    ensures !Ignored(g, index) && CheckWinner(s.state.cells).outcome == NoResult ==>
              !s.state.isGameOver && s.state.winner == g.winner &&
              !Full(s.state.cells) &&
              s.scheduled == [UnblockInput, ComputerReply(s.state.cells)] &&
              s.state.celebrations == g.celebrations
  {
    if Ignored(g, index) then Step(g, [])
    else
      var next: Board := g.cells[index := Mark(X)];
      var ev := CheckWinner(next);
      var blocked := g.(isInputBlocked := true, winningLine := ev.line);
      if ev.outcome != NoResult then
        Step(EndGame(blocked, ev.outcome, next), [UnblockInput])
      else
        DrawIffFullWithoutLine(next);
        Step(blocked.(cells := next), [UnblockInput, ComputerReply(next)])
  }

  /** The computer's reply on the board it was scheduled with (the body of
      `tryMove` for the chosen cell): place O on the chosen empty cell, then
      end the game on a result or else commit the board. Input is blocked
      again only on the random branch and on the final any-empty-cell rule;
      the other rules return before reaching that code. */
  function Reply(g: GameState, snapshot: Board, d: Dice): (s: Step)
    requires Fits(snapshot, d)
    ensures var k := ChooseMove(snapshot, d).index;
            snapshot[k] == Empty && s.state.cells[k] == Mark(O) &&
            forall j: Index :: j != k ==> s.state.cells[j] == snapshot[j]
    ensures s.state.winningLine == CheckWinner(s.state.cells).line
    ensures CheckWinner(s.state.cells).outcome != NoResult ==>
              s.state.isGameOver && s.state.winner == CheckWinner(s.state.cells).outcome
    ensures CheckWinner(s.state.cells).outcome == NoResult ==>
              s.state.isGameOver == g.isGameOver && s.state.winner == g.winner
    ensures s.state.celebrations ==
              (if CheckWinner(s.state.cells).outcome == Winner(X) then g.celebrations + 1
               else g.celebrations)
    ensures s.state.fadingCells == g.fadingCells && s.state.isFading == g.isFading &&
            s.state.isResetting == g.isResetting
    ensures s.scheduled != [] <==> ChooseMove(snapshot, d).rule in {RandomMove, AnyEmpty}
    ensures s.scheduled != [] ==> s.scheduled == [UnblockInput] && s.state.isInputBlocked
    ensures s.scheduled == [] ==> s.state.isInputBlocked == g.isInputBlocked
  {
    var move := ChooseMove(snapshot, d);
    var updated: Board := snapshot[move.index := Mark(O)];
    var ev := CheckWinner(updated);
    var g1 := g.(winningLine := ev.line);
    var g2 := if ev.outcome != NoResult then EndGame(g1, ev.outcome, updated) else g1.(cells := updated);
    if move.rule == RandomMove || move.rule == AnyEmpty then
      Step(g2.(isInputBlocked := true), [UnblockInput])
    else
      Step(g2, [])
  }

  /** `resetGame`: mark every occupied cell as fading and schedule the
      clearing of the board. */
  function RequestReset(g: GameState): (s: Step)
    ensures |s.state.fadingCells| == 9
    ensures forall i: Index :: s.state.fadingCells[i] <==> g.cells[i] != Empty
    ensures s.state == g.(fadingCells := s.state.fadingCells)
    ensures s.scheduled == [ResetCompletion]
  {
    var flags := seq(9, i requires 0 <= i < 9 => g.cells[i] != Empty);
    Step(g.(fadingCells := flags), [ResetCompletion])
  }

  /** The end of the reset fade: an empty board with no result. Input
      blocking, the fading flag and the celebrations are left as they were. */
  function CompleteReset(g: GameState): (g': GameState)
    ensures |g'.fadingCells| == 9
    ensures forall i: Index :: g'.cells[i] == Empty && !g'.fadingCells[i]
    ensures !g'.isGameOver && g'.winner == NoResult && g'.winningLine == [] && !g'.isResetting
    ensures g'.isInputBlocked == g.isInputBlocked && g'.isFading == g.isFading &&
            g'.celebrations == g.celebrations
  {
    g.(cells := EmptyBoard, fadingCells := NoFading, isGameOver := false,
       winner := NoResult, winningLine := [], isResetting := false)
  }

  /** The callback that lifts the input block. */
  function Unblock(g: GameState): (g': GameState)
    ensures !g'.isInputBlocked
    ensures g'.cells == g.cells && g'.isGameOver == g.isGameOver && g'.winner == g.winner &&
            g'.winningLine == g.winningLine && g'.fadingCells == g.fadingCells &&
            g'.isFading == g.isFading && g'.isResetting == g.isResetting &&
            g'.celebrations == g.celebrations
  {
    g.(isInputBlocked := false)
  }

  /** A fresh component is consistent and accepts a click on every cell. */
  lemma InitialAcceptsEveryClick(index: Index)
    ensures Consistent(Initial())
    ensures !Ignored(Initial(), index)
  {
    assert NoneCompleteFrom(EmptyBoard, 0) by {
      forall j | 0 <= j < |Lines| ensures !Complete(EmptyBoard, Lines[j]) {
        assert EmptyBoard[Lines[j].a] == Empty;
      }
    }
    assert !Full(EmptyBoard) by {
      assert EmptyBoard[0] == Empty;
    }
  }

  /** A click keeps the recorded result in agreement with the board. */
  lemma ClickPreservesConsistency(g: GameState, index: Index)
    requires Consistent(g)
    ensures Consistent(Click(g, index).state)
  {
  }

  /** The computer's reply keeps the recorded result in agreement with the
      board, provided the game was not already over when it fired. */
  lemma ReplyPreservesConsistency(g: GameState, snapshot: Board, d: Dice)
    requires Consistent(g) && !g.isGameOver
    requires Fits(snapshot, d)
    ensures Consistent(Reply(g, snapshot, d).state)
  {
  }

  /** A reply that fires after the game has ended, on a board it leaves
      undecided, commits that board under the old winner: `setCells` in
      `tryMove` does not touch the recorded result, so the state is no longer
      consistent. */
  lemma LateReplyBreaksConsistency(g: GameState, snapshot: Board, d: Dice)
    requires Consistent(g) && g.isGameOver
    requires Fits(snapshot, d)
    requires CheckWinner(snapshot[ChooseMove(snapshot, d).index := Mark(O)]).outcome == NoResult
    ensures !Consistent(Reply(g, snapshot, d).state)
  {
    var k := ChooseMove(snapshot, d).index;
    assert Reply(g, snapshot, d).state.cells == snapshot[k := Mark(O)];
  }

  /** A concrete late reply: after a finished game, a random reply on a board
      holding a single X leaves the board undecided, and the state keeps the
      old result, out of agreement with the board. */
  lemma LateReplyExample(g: GameState, snapshot: Board, d: Dice)
    requires Consistent(g) && g.isGameOver
    requires snapshot[0] == Mark(X) && forall j: Index :: j != 0 ==> snapshot[j] == Empty
    requires d.randomMove && Fits(snapshot, d)
    ensures !Consistent(Reply(g, snapshot, d).state)
  {
    var k := ChooseMove(snapshot, d).index;
    var after: Board := snapshot[k := Mark(O)];
    assert NoneCompleteFrom(after, 0) by {
      forall i | 0 <= i < |Lines| ensures !Complete(after, Lines[i]) {
        assert i in {0, 1, 2, 3, 4, 5, 6, 7};
      }
    }
    assert !Full(after) by {
      var e: Index := if k == 1 then 2 else 1;
      assert after[e] == Empty;
    }
    LateReplyBreaksConsistency(g, snapshot, d);
  }

  /** The app never raises `isFading` or `isResetting`: no step sets either
      flag when it was down. */
  lemma FadeFlagsStayDown(g: GameState, index: Index, snapshot: Board, d: Dice)
    requires !g.isFading && !g.isResetting
    requires Fits(snapshot, d)
    ensures var s := Click(g, index).state; !s.isFading && !s.isResetting
    ensures var s := Reply(g, snapshot, d).state; !s.isFading && !s.isResetting
    ensures var s := RequestReset(g).state; !s.isFading && !s.isResetting
    ensures !CompleteReset(g).isFading && !CompleteReset(g).isResetting
    ensures !Unblock(g).isFading && !Unblock(g).isResetting
  {
  }

  /** The reset request, its completion and the unblock callback keep the
      recorded result in agreement with the board. */
  lemma ResetAndUnblockPreserveConsistency(g: GameState)
    requires Consistent(g)
    ensures Consistent(RequestReset(g).state)
    ensures Consistent(CompleteReset(g))
    ensures Consistent(Unblock(g))
  {
    InitialAcceptsEveryClick(0);
  }

  /** After an accepted click every further click is dropped until the
      unblock callback fires; in particular a double click on the same cell
      places one X. */
  lemma AcceptedClickBlocksInput(g: GameState, index: Index, other: Index)
    requires !Ignored(g, index)
    ensures Ignored(Click(g, index).state, other)
    ensures Click(Click(g, index).state, index) == Step(Click(g, index).state, [])
  {
  }

  /** A human move followed by the computer's reply to it: the board is the
      old one with X at the clicked cell and O at exactly one other cell
      that was empty, and the recorded result agrees with it. */
  lemma ClickThenReply(g: GameState, index: Index, d: Dice)
    requires Consistent(g) && !Ignored(g, index)
    requires CheckWinner(Click(g, index).state.cells).outcome == NoResult
    requires Fits(Click(g, index).state.cells, d)
    ensures var s := Click(g, index);
            var r := Reply(Unblock(s.state), s.state.cells, d);
            Consistent(r.state) &&
            r.state.cells[index] == Mark(X) &&
            exists k: Index :: k != index && g.cells[k] == Empty && r.state.cells[k] == Mark(O) &&
              forall j: Index :: j != index && j != k ==> r.state.cells[j] == g.cells[j]
  {
    var s := Click(g, index);
    ClickPreservesConsistency(g, index);
    ResetAndUnblockPreserveConsistency(s.state);
    ReplyPreservesConsistency(Unblock(s.state), s.state.cells, d);
    var k := ChooseMove(s.state.cells, d).index;
    assert k != index;
    assert g.cells[k] == Empty;
  }

  /** On the heuristic branch, when O can complete a line in one move the
      reply takes that win and ends the game with O as the winner. */
  lemma HeuristicTakesAvailableWin(g: GameState, board: Board, d: Dice, i: Index)
    requires Fits(board, d) && !d.randomMove
    requires Completes(board, i, O)
    ensures Reply(g, board, d).state.isGameOver
    ensures Reply(g, board, d).state.winner == Winner(O)
  {
    var k := ChooseMove(board, d).index;
    assert Reply(g, board, d).state.cells == board[k := Mark(O)];
  }

  /** The reply works on the board it was scheduled with and never reads the
      current one: a reset that completes before a pending reply fires does
      not stop the reply from committing the old board plus an O. */
  lemma ReplyIgnoresCurrentBoard(g: GameState, h: GameState, snapshot: Board, d: Dice)
    requires Fits(snapshot, d)
    ensures Reply(g, snapshot, d).state.cells == Reply(h, snapshot, d).state.cells
    ensures Reply(CompleteReset(g), snapshot, d).state.cells != EmptyBoard
  {
    var k := ChooseMove(snapshot, d).index;
    assert Reply(CompleteReset(g), snapshot, d).state.cells[k] == Mark(O);
  }

  /** A reset request does not block input: a click is dropped after the
      request exactly when it would have been dropped before it. */
  lemma ResetRequestDoesNotBlockClicks(g: GameState, index: Index)
    ensures Ignored(RequestReset(g).state, index) <==> Ignored(g, index)
  {
  }

  /** After the reset completes, the board is empty and a click is accepted
      unless input is still blocked or the fading flag is set: the reset
      itself clears neither. */
  lemma ResetCompletionAcceptsClicks(g: GameState, index: Index)
    ensures Consistent(CompleteReset(RequestReset(g).state))
    ensures !Ignored(CompleteReset(RequestReset(g).state), index) <==> !g.isInputBlocked && !g.isFading
  {
    InitialAcceptsEveryClick(index);
  }
}

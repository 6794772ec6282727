/** The app's `checkWinner`: it scans the eight lines in their fixed order and
    reports the first complete one, or else a draw on a full board.
    In the app the function also records the winning line through a state
    setter; here that line is part of the returned value.
 */
module WinDetector {
  import opened Grid

  /** The app's result type `'X' | 'O' | 'draw' | null`. */
  datatype Outcome = NoResult | Winner(player: Player) | Draw

  /** The outcome together with the line the app stores as `winningLine`
      (the three indices of the winning line, or the empty list). */
  datatype Evaluation = Evaluation(outcome: Outcome, line: seq<Index>)

  /** `Lines[j]` is complete and no line before it, from `k` on, is. */
  predicate FirstCompleteFrom(board: Board, k: nat, j: nat) {
    k <= j < |Lines| && Complete(board, Lines[j]) &&
    forall i :: k <= i < j ==> !Complete(board, Lines[i])
  }

  /** No line from `k` on is complete. */
  predicate NoneCompleteFrom(board: Board, k: nat) {
    forall j :: k <= j < |Lines| ==> !Complete(board, Lines[j])
  }

  /** The evaluation that reports a win on the complete line `Lines[j]`. */
  function WinOn(board: Board, j: nat): Evaluation
    requires j < |Lines| && Complete(board, Lines[j])
  {
    Evaluation(Winner(board[Lines[j].a].player), Lines[j].Indices())
  }

  /** The scan of the lines from position `k` on. */
  function ScanLines(board: Board, k: nat): (r: Evaluation)
    requires k <= |Lines|
    ensures forall j :: FirstCompleteFrom(board, k, j) ==> r == WinOn(board, j)
    ensures NoneCompleteFrom(board, k) ==>
              r.line == [] &&
              (r.outcome == Draw <==> Full(board)) &&
              (r.outcome == NoResult <==> !Full(board))
    decreases |Lines| - k
  {
    if k == |Lines| then
      Evaluation(if Full(board) then Draw else NoResult, [])
    else if Complete(board, Lines[k]) then
      WinOn(board, k)
    else
      ScanLines(board, k + 1)
  }

  /** The win detector: the first complete line in scan order decides the
      winner and is the winning line; with no complete line the result is a
      draw exactly when the board is full. */
  function CheckWinner(board: Board): (r: Evaluation)
    ensures forall j :: FirstCompleteFrom(board, 0, j) ==> r == WinOn(board, j)
    ensures NoneCompleteFrom(board, 0) ==>
              r.line == [] &&
              (r.outcome == Draw <==> Full(board)) &&
              (r.outcome == NoResult <==> !Full(board))
  {
    ScanLines(board, 0)
  }

  /** When some line from `k` on is complete, a first one exists. */
  lemma {:induction false} FirstCompleteExists(board: Board, k: nat)
    requires k <= |Lines|
    requires !NoneCompleteFrom(board, k)
    ensures exists j :: FirstCompleteFrom(board, k, j)
    decreases |Lines| - k
  {
    if Complete(board, Lines[k]) {
      assert FirstCompleteFrom(board, k, k);
    } else {
      FirstCompleteExists(board, k + 1);
      var j :| FirstCompleteFrom(board, k + 1, j);
      assert FirstCompleteFrom(board, k, j);
    }
  }

  /** The detector reports a winner exactly when some line is complete, and
      then its winning line is the first complete line in scan order. */
  lemma WinnerIffCompleteLine(board: Board)
    ensures CheckWinner(board).outcome.Winner? <==> !NoneCompleteFrom(board, 0)
    ensures CheckWinner(board).outcome.Winner? ==>
              exists j: nat :: FirstCompleteFrom(board, 0, j) &&
                               CheckWinner(board).line == Lines[j].Indices()
  {
    if !NoneCompleteFrom(board, 0) {
      FirstCompleteExists(board, 0);
    }
  }

  /** A reported winning line has three cells, each holding the winner's mark. */
  lemma WinningLineHoldsWinner(board: Board)
    ensures CheckWinner(board).outcome.Winner? ==>
              |CheckWinner(board).line| == 3 &&
              forall n :: 0 <= n < 3 ==>
                board[CheckWinner(board).line[n]] == Mark(CheckWinner(board).outcome.player)
  {
    WinnerIffCompleteLine(board);
  }

  /** Without a winner there is no winning line, and the result is a draw
      exactly when no line is complete and the board is full, and no result
      exactly when no line is complete and a cell is empty. */
  lemma DrawIffFullWithoutLine(board: Board)
    ensures CheckWinner(board).outcome == Draw <==> NoneCompleteFrom(board, 0) && Full(board)
    ensures CheckWinner(board).outcome == NoResult <==> NoneCompleteFrom(board, 0) && !Full(board)
    ensures !CheckWinner(board).outcome.Winner? ==> CheckWinner(board).line == []
  {
    WinnerIffCompleteLine(board);
  }
}

/** The computer player's choice of cell in `makeComputerMove`: on a coin
    flip either a random empty cell, or a one-ply heuristic (take a win,
    block a win, take the centre, take a random free corner, take a random
    empty cell). The app's calls to `Math.random` are given as a `Dice`.
 */
module MoveSelector {
  import opened Grid
  import opened WinDetector

  datatype Option<T> = None | Some(value: T)

  /** The random draws of one computer move: whether `Math.random() < 0.5`
      (the fully random branch), and the index `floor(Math.random() * n)`
      into the list of empty cells and into the list of free corners. */
  datatype Dice = Dice(randomMove: bool, emptyPick: nat, cornerPick: nat)

  /** Which rule of the selector decided the move. */
  datatype Rule = RandomMove | TakeWin | BlockWin | TakeCentre | TakeCorner | AnyEmpty

  datatype Decision = Decision(index: Index, rule: Rule)

  /** Each pick lies below the length of the list it indexes, as
      `floor(Math.random() * n)` does; the list of empty cells must not be
      empty, which the app guarantees by replying only to an undecided board. */
  predicate Fits(board: Board, d: Dice) {
    d.emptyPick < |EmptyIndices(board)| &&
    (FreeCorners(board) != [] ==> d.cornerPick < |FreeCorners(board)|)
  }

  /** Putting `p`'s mark on the empty cell `i` makes the win detector report
      `p` as the winner. */
  predicate Completes(board: Board, i: Index, p: Player) {
    board[i] == Empty && CheckWinner(board[i := Mark(p)]).outcome == Winner(p)
  }

  /** `i` is the lowest index at which `p` completes a line. */
  predicate LowestCompleting(board: Board, p: Player, i: Index) {
    Completes(board, i, p) && forall j: Index :: j < i ==> !Completes(board, j, p)
  }

  /** The first position from `k` on of a candidate at which `p` completes
      a line. */
  function FirstCompleting(board: Board, p: Player, cands: seq<Index>, k: nat): (r: Option<nat>)
    requires k <= |cands|
    ensures r.Some? ==>
              k <= r.value < |cands| && Completes(board, cands[r.value], p) &&
              forall m :: k <= m < r.value ==> !Completes(board, cands[m], p)
    ensures r.None? ==> forall m :: k <= m < |cands| ==> !Completes(board, cands[m], p)
    decreases |cands| - k
  {
    if k == |cands| then None
    else if Completes(board, cands[k], p) then Some(k)
    else FirstCompleting(board, p, cands, k + 1)
  }

  /** The first empty cell, in ascending order, at which `p` completes a
      line; the two look-ahead loops of the heuristic. */
  function FindCompleting(board: Board, p: Player): (r: Option<Index>)
    ensures r.Some? ==> LowestCompleting(board, p, r.value)
    ensures r.None? <==> forall j: Index :: !Completes(board, j, p)
  {
    var es := EmptyIndices(board);
    match FirstCompleting(board, p, es, 0)
    case None =>
      assert forall j: Index :: !Completes(board, j, p) by {
        forall j: Index ensures !Completes(board, j, p) {
          if j in es {
            var m :| 0 <= m < |es| && es[m] == j;
          }
        }
      }
      None
    case Some(n) =>
      assert forall j: Index :: j < es[n] ==> !Completes(board, j, p) by {
        forall j: Index | j < es[n] ensures !Completes(board, j, p) {
          if j in es {
            var m :| 0 <= m < |es| && es[m] == j;
            assert m < n;
          }
        }
      }
      Some(es[n])
  }

  /** The heuristic branch's choice, rule by rule, stated on the board. */
  predicate Heuristic(board: Board, d: Dice, r: Decision)
    requires Fits(board, d)
  {
    if exists i: Index :: Completes(board, i, O) then
      r.rule == TakeWin && LowestCompleting(board, O, r.index)
    else if exists i: Index :: Completes(board, i, X) then
      r.rule == BlockWin && LowestCompleting(board, X, r.index)
    else if board[Centre] == Empty then
      r == Decision(Centre, TakeCentre)
    else if exists i: Index :: i in Corners && board[i] == Empty then
      r.rule == TakeCorner && r.index == FreeCorners(board)[d.cornerPick]
    else
      r.rule == AnyEmpty && r.index == EmptyIndices(board)[d.emptyPick]
  }

  /** The cell the computer plays: always an empty one; on the random branch
      the picked empty cell, otherwise the heuristic's choice. */
  function ChooseMove(board: Board, d: Dice): (r: Decision)
    requires Fits(board, d)
    ensures board[r.index] == Empty
    ensures r.rule == RandomMove <==> d.randomMove
    ensures d.randomMove ==> r.index == EmptyIndices(board)[d.emptyPick]
    ensures !d.randomMove ==> Heuristic(board, d, r)
  {
    var empty := EmptyIndices(board);
    assert empty[d.emptyPick] in empty;
    if d.randomMove then
      Decision(empty[d.emptyPick], RandomMove)
    else
      match FindCompleting(board, O)
      case Some(i) => Decision(i, TakeWin)
      case None =>
        match FindCompleting(board, X)
        case Some(i) => Decision(i, BlockWin)
        case None =>
          if board[Centre] == Empty then
            Decision(Centre, TakeCentre)
          else
            var corners := FreeCorners(board);
            if corners != [] then
              assert corners[d.cornerPick] in corners;
              Decision(corners[d.cornerPick], TakeCorner)
            else
              Decision(empty[d.emptyPick], AnyEmpty)
  }
}

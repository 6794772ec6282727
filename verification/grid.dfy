/** The 3x3 board of the tic-tac-toe game: cells, the eight winning lines,
    and the lists of free indices the computer player picks from.
    A board is a sequence of nine cells in row-major order (index = row * 3 + col).
 */
module Grid {

  /** The two symbols; the human plays X, the computer plays O. */
  datatype Player = X | O

  /** A cell is empty (`null` in the app) or holds a player's mark. */
  datatype Cell = Empty | Mark(player: Player)

  type Index = i: int | 0 <= i < 9

  type Board = b: seq<Cell> | |b| == 9
    witness [Empty, Empty, Empty, Empty, Empty, Empty, Empty, Empty, Empty]

  const EmptyBoard: Board := [Empty, Empty, Empty, Empty, Empty, Empty, Empty, Empty, Empty]

  /** A row, column or diagonal, given by its three indices. */
  datatype Line = Line(a: Index, b: Index, c: Index) {
    function Indices(): seq<Index> {
      [a, b, c]
    }
  }

  /** The eight lines, in the order in which the win detector scans them. */
  const Lines: seq<Line> := [
    Line(0, 1, 2), Line(3, 4, 5), Line(6, 7, 8),
    Line(0, 3, 6), Line(1, 4, 7), Line(2, 5, 8),
    Line(0, 4, 8), Line(2, 4, 6)
  ]

  const AllIndices: seq<Index> := [0, 1, 2, 3, 4, 5, 6, 7, 8]

  const Corners: seq<Index> := [0, 2, 6, 8]

  const Centre: Index := 4

  /** The three cells of `l` hold the same mark. */
  predicate Complete(board: Board, l: Line) {
    board[l.a] != Empty && board[l.a] == board[l.b] && board[l.a] == board[l.c]
  }

  /** No cell is empty. */
  predicate Full(board: Board) {
    forall i: Index :: board[i] != Empty
  }

  predicate Increasing(s: seq<Index>) {
    forall m, n :: 0 <= m < n < |s| ==> s[m] < s[n]
  }

  /** `a` occurs in `cands` at a position before one holding `b`. */
  predicate Precedes(a: Index, b: Index, cands: seq<Index>) {
    exists i, j :: 0 <= i < j < |cands| && cands[i] == a && cands[j] == b
  }

  /** Every two elements of `r` occur in `cands` in the same order. */
  predicate KeepsOrder(r: seq<Index>, cands: seq<Index>) {
    forall m, n :: 0 <= m < n < |r| ==> Precedes(r[m], r[n], cands)
  }

  /** The candidates whose cells are empty, in the candidates' order. */
  function FreeAmong(board: Board, cands: seq<Index>): (r: seq<Index>)
    ensures forall i :: i in r <==> i in cands && board[i] == Empty
    ensures KeepsOrder(r, cands)
    ensures Increasing(cands) ==> Increasing(r)
  {
    if cands == [] then []
    else
      var rest := FreeAmong(board, cands[1..]);
      assert Increasing(cands) ==> forall n :: 0 <= n < |rest| ==> cands[0] < rest[n] by {
        if Increasing(cands) {
          forall n | 0 <= n < |rest| ensures cands[0] < rest[n] {
            assert rest[n] in cands[1..];
          }
        }
      }
      KeepsOrderShift(rest, cands);
      if board[cands[0]] == Empty then
        KeepsOrderCons(rest, cands);
        [cands[0]] + rest
      else rest
  }

  /** Order in the tail of `cands` is order in `cands`. */
  lemma KeepsOrderShift(rest: seq<Index>, cands: seq<Index>)
    requires cands != [] && KeepsOrder(rest, cands[1..])
    ensures KeepsOrder(rest, cands)
  {
    forall m, n | 0 <= m < n < |rest|
      ensures Precedes(rest[m], rest[n], cands)
    {
      var i, j :| 0 <= i < j < |cands[1..]| && cands[1..][i] == rest[m] && cands[1..][j] == rest[n];
      assert 0 <= i + 1 < j + 1 < |cands| && cands[i + 1] == rest[m] && cands[j + 1] == rest[n];
    }
  }

  /** Putting the head of `cands` before a list kept in the tail's order keeps
      the order of `cands`. */
  lemma KeepsOrderCons(rest: seq<Index>, cands: seq<Index>)
    requires cands != [] && KeepsOrder(rest, cands)
    requires forall i :: i in rest ==> i in cands[1..]
    ensures KeepsOrder([cands[0]] + rest, cands)
  {
    var r := [cands[0]] + rest;
    forall m, n | 0 <= m < n < |r|
      ensures Precedes(r[m], r[n], cands)
    {
      if m == 0 {
        assert r[n] == rest[n - 1] && rest[n - 1] in cands[1..];
        var j :| 0 <= j < |cands[1..]| && cands[1..][j] == rest[n - 1];
        assert 0 <= 0 < j + 1 < |cands| && cands[0] == r[0] && cands[j + 1] == r[n];
      } else {
        assert r[m] == rest[m - 1] && r[n] == rest[n - 1];
        var i, j :| 0 <= i < j < |cands| && cands[i] == rest[m - 1] && cands[j] == rest[n - 1];
        assert 0 <= i < j < |cands| && cands[i] == r[m] && cands[j] == r[n];
      }
    }
  }

  /** The empty indices of the board in ascending order. */
  function EmptyIndices(board: Board): (r: seq<Index>)
    ensures forall i: Index :: i in r <==> board[i] == Empty
    ensures Increasing(r)
    ensures r != [] <==> !Full(board)
  {
    assert Increasing(AllIndices);
    var r := FreeAmong(board, AllIndices);
    assert forall i: Index :: i in AllIndices by {
      forall i: Index ensures i in AllIndices {
        assert AllIndices[i] == i;
      }
    }
    assert r != [] ==> r[0] in r;
    r
  }

  /** The empty corners, in the order 0, 2, 6, 8. */
  function FreeCorners(board: Board): (r: seq<Index>)
    ensures forall i: Index :: i in r <==> i in Corners && board[i] == Empty
    ensures Increasing(r)
  {
    FreeAmong(board, Corners)
  }
}

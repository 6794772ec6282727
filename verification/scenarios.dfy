/** Concrete games: single boards on which the detector, the selector and the
    controller are evaluated step by step. */
module Scenarios {
  import opened Grid
  import opened WinDetector
  import opened MoveSelector
  import opened Controller

  const E := Empty
  const x := Mark(X)
  const o := Mark(O)

  /** A consistent, unblocked, undecided state on the given board. */
  function Playing(cells: Board): GameState {
    GameState(cells, false, NoResult, [], false, false, false, NoFading, 0)
  }

  /** The first move into the centre of an empty board is committed, blocks
      input and schedules the reply on that board. */
  lemma CentreOpening(start: GameState, next: Board)
    requires start == Initial()
    requires next == [E, E, E, E, x, E, E, E, E]
    ensures var s := Click(start, 4);
            s.state.cells == next &&
            !s.state.isGameOver && s.state.isInputBlocked &&
            s.scheduled == [UnblockInput, ComputerReply(next)]
  {
    InitialAcceptsEveryClick(4);
    assert start.cells[4 := x] == next;
    assert NoneCompleteFrom(next, 0) by {
      forall i | 0 <= i < |Lines| ensures !Complete(next, Lines[i]) {
        assert i in {0, 1, 2, 3, 4, 5, 6, 7};
      }
    }
    assert next[0] == E;
  }

  /** The reply to the centre opening keeps the X and puts O on exactly one
      other cell. */
  lemma CentreReply(g: GameState, next: Board, d: Dice)
    requires next[4] == x && forall j: Index :: j != 4 ==> next[j] == E
    requires Fits(next, d)
    ensures var r := Reply(g, next, d);
            r.state.cells[4] == x &&
            exists k: Index :: k != 4 && r.state.cells[k] == o &&
              forall j: Index :: j != 4 && j != k ==> r.state.cells[j] == E
  {
    var r := Reply(g, next, d);
    var k := ChooseMove(next, d).index;
    assert k != 4;
    assert forall j: Index :: j != 4 && j != k ==> r.state.cells[j] == E;
  }

  /** X completes the top row: the game ends with X as winner, the winning
      line is the top row, and the confetti fires once. */
  lemma HumanWinsTopRow()
    ensures var s := Click(Playing([x, x, E, o, o, E, E, E, E]), 2);
            s.state.cells == [x, x, x, o, o, E, E, E, E] &&
            s.state.isGameOver && s.state.winner == Winner(X) &&
            s.state.winningLine == [0, 1, 2] &&
            s.state.celebrations == 1 &&
            s.scheduled == [UnblockInput]
  {
    var next: Board := [x, x, x, o, o, E, E, E, E];
    assert FirstCompleteFrom(next, 0, 0);
  }

  /** Filling the last cell without completing a line is a draw. */
  lemma LastCellIsDraw()
    ensures var s := Click(Playing([x, o, x, x, o, o, o, x, E]), 8);
            s.state.isGameOver && s.state.winner == Draw && s.state.winningLine == [] &&
            s.state.celebrations == 0
  {
    var next: Board := [x, o, x, x, o, o, o, x, x];
    assert NoneCompleteFrom(next, 0) by {
      forall j | 0 <= j < |Lines| ensures !Complete(next, Lines[j]) {
        assert j in {0, 1, 2, 3, 4, 5, 6, 7};
      }
    }
    assert Full(next) by {
      forall i: Index ensures next[i] != Empty {
        assert i in {0, 1, 2, 3, 4, 5, 6, 7, 8};
      }
    }
  }

  /** On this board no placement completes a line except X in the centre. */
  lemma NoWinFor(board: Board, p: Player, j: Index)
    requires board == [x, E, o, E, E, E, E, o, x]
    ensures !Completes(board, j, p) || (p == X && j == 4)
  {
    if board[j] == Empty && !(p == X && j == 4) {
      var after: Board := board[j := Mark(p)];
      assert NoneCompleteFrom(after, 0) by {
        forall i | 0 <= i < |Lines| ensures !Complete(after, Lines[i]) {
          assert i in {0, 1, 2, 3, 4, 5, 6, 7};
        }
      }
    }
  }

  /** When the centre completes the anti-diagonal for O the heuristic takes
      it, although it would also block X's diagonal. */
  lemma OwnWinBeforeBlock(board: Board, d: Dice)
    requires board == [x, E, o, E, E, E, o, E, x]
    requires !d.randomMove && Fits(board, d)
    ensures ChooseMove(board, d) == Decision(4, TakeWin)
  {
    assert Completes(board, 4, O) by {
      var after: Board := board[4 := o];
      assert FirstCompleteFrom(after, 0, 7) by {
        forall i | 0 <= i < 7 ensures !Complete(after, Lines[i]) {
          assert i in {0, 1, 2, 3, 4, 5, 6};
        }
      }
    }
    forall j: Index | j < 4 ensures !Completes(board, j, O) {
      NoLowerWinForO(board, j);
    }
  }

  /** On the board of `OwnWinBeforeBlock` no O below the centre completes a line. */
  lemma NoLowerWinForO(board: Board, j: Index)
    requires board == [x, E, o, E, E, E, o, E, x]
    requires j < 4
    ensures !Completes(board, j, O)
  {
    if board[j] == Empty {
      var after: Board := board[j := o];
      assert NoneCompleteFrom(after, 0) by {
        forall i | 0 <= i < |Lines| ensures !Complete(after, Lines[i]) {
          assert i in {0, 1, 2, 3, 4, 5, 6, 7};
        }
      }
    }
  }

  /** When O cannot complete a line but X can complete the main diagonal at
      the centre, the heuristic blocks there. */
  lemma BlockWhenNoOwnWin(board: Board, d: Dice)
    requires board == [x, E, o, E, E, E, E, o, x]
    requires !d.randomMove && Fits(board, d)
    ensures ChooseMove(board, d) == Decision(4, BlockWin)
  {
    forall j: Index ensures !Completes(board, j, O) {
      NoWinFor(board, O, j);
    }
    forall j: Index | j < 4 ensures !Completes(board, j, X) {
      NoWinFor(board, X, j);
    }
    CentreWinForX(board);
  }

  /** On the board of `BlockWhenNoOwnWin` X in the centre completes the main
      diagonal, the first complete line of the scan. */
  lemma CentreWinForX(board: Board)
    requires board == [x, E, o, E, E, E, E, o, x]
    ensures Completes(board, 4, X)
  {
    var after: Board := board[4 := x];
    assert FirstCompleteFrom(after, 0, 6) by {
      forall i | 0 <= i < 6 ensures !Complete(after, Lines[i]) {
        assert i in {0, 1, 2, 3, 4, 5};
      }
    }
  }
}

/** Concrete games the service's behaviour is easiest to recognise in. */
module Scenarios {
  import opened Wrappers
  import opened Grid
  import opened WinCheck
  import opened Cpu
  import opened HashGame

  /** X holds the two left cells of the top row, O the two left cells of the
      middle row. */
  const TwoRows: Board := [[X, X, Empty], [O, O, Empty], [Empty, Empty, Empty]]

  /** The computer completes its own row rather than block X's: it plays
      (1, 2), whatever the random number. */
  lemma ComputerWinsBeforeBlocking(rand: real)
    requires 0.0 <= rand < 1.0
    ensures Filled(TwoRows) == 4
    ensures CpuMove(TwoRows, rand).movement == (1, 2)
  {
    var b := TwoRows;
    assert Wins(b, O, (1, 2)) by {
      var b' := Place(b, (1, 2), O);
      assert Full(b', Row(1), O);
      assert CheckOrder(1, 2)[0] == Row(1);
    }
    assert !Wins(b, O, (0, 2)) by {
      var b' := Place(b, (0, 2), O);
      assert At(b', (0, 0)) == X && At(b', (1, 2)) == Empty && At(b', (2, 0)) == Empty;
      assert !Full(b', Row(0), O) && !Full(b', Column(2), O);
      assert !Full(b', MainDiagonal, O) && !Full(b', AntiDiagonal, O);
    }
    assert FirstWin(b, O, (1, 2)) by {
      forall d: Coord | Index(d) < Index((1, 2))
        ensures !Wins(b, O, d)
      {
        if d != (0, 2) {
          assert d.0 == 0 || (d.0 == 1 && d.1 < 2);
          assert At(b, d) != Empty;
        }
      }
    }
    CpuMovePriority(b, rand);
    FirstWinUnique(b, O, CpuMove(b, rand).movement, (1, 2));
  }

  /** X completes the top row: the line is recorded, the final screen is shown
      and the computer does not move. */
  lemma HumanCompletesTopRow(rand: real)
    requires 0.0 <= rand < 1.0
    ensures var g := Game(TwoRows, 4, None, X, false, true, false);
      var r := PerformMove(g, 0, 2, rand);
      && r.won == Some(Row(0))
      && r.showFinal
      && At(r.board, (0, 2)) == X
      && (forall c: Coord :: c != (0, 2) ==> At(r.board, c) == At(TwoRows, c))
      && r.numMovements == 5
  {
    var g := Game(TwoRows, 4, None, X, false, true, false);
    assert Filled(TwoRows) == 4;
    var human := Place(g.board, (0, 2), X);
    assert EndGame(0, 2, human, X) == Some(Row(0)) by {
      assert At(human, (1, 1)) == O && At(human, (1, 2)) == Empty;
      assert Full(human, Row(0), X);
      assert !Full(human, Column(2), X);
      assert !Full(human, MainDiagonal, X) && !Full(human, AntiDiagonal, X);
    }
    HumanWinEndsGame(g, 0, 2, rand);
  }

  /** The first move of a fresh game is answered by exactly one computer move:
      two marks, X to play again. */
  lemma FirstMoveGetsOneReply(rand: real)
    requires 0.0 <= rand < 1.0
    ensures var r := PerformMove(StartGame(Initialize()), 0, 0, rand);
      && Filled(r.board) == 2 && r.numMovements == 2
      && At(r.board, (0, 0)) == X
      && r.won.None? && r.player == X && !r.showFinal
  {
    var g := StartGame(Initialize());
    var human := Place(g.board, (0, 0), X);
    assert EndGame(0, 0, human, X).None? by {
      assert !Full(human, Row(0), X) by { assert At(human, (0, 1)) == Empty; }
      assert !Full(human, Column(0), X) by { assert At(human, (1, 0)) == Empty; }
      assert !Full(human, MainDiagonal, X) by { assert At(human, (1, 1)) == Empty; }
      assert !Full(human, AntiDiagonal, X) by { assert At(human, (0, 2)) == Empty; }
    }
    ComputerReplies(g, 0, 0, rand);
    var r := PerformMove(g, 0, 0, rand);
    var m := CpuMove(human, rand).movement;
    forall d: Coord
      ensures At(human, d) != O
    {
      if d != (0, 0) {
        assert At(human, d) == At(g.board, d) == Empty;
      }
    }
    assert r.board == Place(human, m, O);
    assert forall d: Coord :: At(r.board, d) == O ==> d == m;
    assert r.won.None? by {
      if r.won.Some? {
        LineCellsDistinct(r.won.value);
      }
    }
  }
}

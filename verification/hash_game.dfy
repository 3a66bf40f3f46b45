/** The game state of `HashGameService` and its operations: starting and
    restarting a game, the human's move with the computer's reply, and the
    queries the board view makes. */
module HashGame {
  import opened Wrappers
  import opened Grid
  import opened WinCheck
  import opened Cpu

  /** The fields of the service. `player` is the mark to play next; `Empty`
      stands for the 0 the source stores there once a game is drawn. `won` is
      `None` for the source's `false`, or the winning line. The three flags
      select the start screen, the board and the end-of-game screen; the
      `showStart`, `showBoard`, `showFinal` and `player` getters read them. */
  datatype Game = Game(
    board: Board,
    numMovements: int,
    won: Option<Line>,
    player: Cell,
    showStart: bool,
    showBoard: bool,
    showFinal: bool)

  /** The counter agrees with the board and an open game has a mark to play:
      what `peformMove` relies on so that the computer always finds a cell. */
  predicate Consistent(g: Game)
  {
    && g.numMovements == Filled(g.board)
    && (g.won.None? && g.numMovements < 9 ==> g.player != Empty)
  }

  /** The invariant of the service: it holds after `initialize` and `newGame`
      and every operation keeps it, so every state a game reaches satisfies
      it. Some states no game reaches satisfy it too. */
  ghost predicate Valid(g: Game)
  {
    && g.numMovements == Filled(g.board)
    // while undecided the human (X) is to play, and after a draw nobody is
    && (g.won.None? && g.numMovements < 9 ==> g.player == X)
    && (g.won.None? && g.numMovements == 9 ==> g.player == Empty)
    // no win goes unnoticed
    && (g.won.None? ==> NoLine(g.board, X) && NoLine(g.board, O))
    // a recorded win is a real line of one mark
    && (g.won.Some? ==>
          g.won.value in AllLines && (Full(g.board, g.won.value, X) || Full(g.board, g.won.value, O)))
    // a finished game shows the final screen
    && (g.won.Some? || g.numMovements == 9 ==> g.showFinal)
  }

  lemma ValidIsConsistent(g: Game)
    requires Valid(g)
    ensures Consistent(g)
  {
  }

  /** `initializeBoard`. */
  function InitializeBoard(): (b: Board)
    ensures forall c: Coord :: At(b, c) == Empty
    ensures Filled(b) == 0
  {
    var b := EmptyBoard;
    assert forall c: Coord :: At(b, c) == Empty;
    NoMarkFilledFrom(b, 0);
    b
  }

  /** `initialize`: a fresh game on the start screen, X to play. */
  function Initialize(): (g: Game)
    ensures forall c: Coord :: At(g.board, c) == Empty
    ensures g.numMovements == 0 && g.player == X && g.won == None
    ensures g.showStart && !g.showBoard && !g.showFinal
    ensures Valid(g)
  {
    var b := InitializeBoard();
    NoMarkNoLine(b, X);
    NoMarkNoLine(b, O);
    Game(b, 0, None, X, true, false, false)
  }

  /** `startGame`: leave the start screen for the board; nothing else changes. */
  function StartGame(g: Game): (r: Game)
    ensures !r.showStart && r.showBoard && r.showFinal == g.showFinal
    ensures r.board == g.board && r.numMovements == g.numMovements
    ensures r.won == g.won && r.player == g.player
    ensures Valid(g) ==> Valid(r)
  {
    g.(showStart := false, showBoard := true)
  }

  /** `newGame`: `initialize`, then straight to the board. The result does not
      depend on the state it starts from. */
  function NewGame(g: Game): (r: Game)
    ensures forall c: Coord :: At(r.board, c) == Empty
    ensures r.numMovements == 0 && r.player == X && r.won == None
    ensures !r.showStart && r.showBoard && !r.showFinal
    ensures Valid(r)
  {
    Initialize().(showFinal := false, showStart := false, showBoard := true)
  }

  /** The step `peformMove` and `cpuMovement` share: write the mark of
      `player` on `c`, count it, record what `endGame` reports for it and pass
      the turn. What `c` held before is not looked at. */
  function Mark(g: Game, c: Coord): (r: Game)
    ensures At(r.board, c) == g.player
    ensures forall d: Coord :: d != c ==> At(r.board, d) == At(g.board, d)
    ensures r.numMovements == g.numMovements + 1
    ensures At(g.board, c) == Empty && g.player != Empty ==> Filled(r.board) == Filled(g.board) + 1
    ensures r.won.Some? ==> r.won.value in AllLines && Full(r.board, r.won.value, g.player)
    ensures r.player == Other(g.player)
    ensures r.showStart == g.showStart && r.showBoard == g.showBoard && r.showFinal == g.showFinal
  {
    var board := Place(g.board, c, g.player);
    PlaceFilled(g.board, c, g.player);
    g.(board := board, numMovements := g.numMovements + 1,
       won := EndGame(c.0, c.1, board, g.player), player := Other(g.player))
  }

  /** What `c` held before has no bearing on the result of marking it. */
  lemma MarkOverwrites(g: Game, tab: Board, c: Coord)
    requires forall d: Coord :: d != c ==> At(tab, d) == At(g.board, d)
    ensures Mark(g.(board := tab), c) == Mark(g, c)
  {
    PlaceOverwrites(tab, g.board, c, g.player);
  }

  /** A mark that `endGame` does not report completes no line at all. */
  lemma MarkKeepsNoLine(g: Game, c: Coord, q: Cell)
    requires NoLine(g.board, q)
    requires Mark(g, c).won.None?
    ensures NoLine(Mark(g, c).board, q)
  {
    QuietMoveKeepsNoLine(g.board, c, g.player, q);
  }

  /** `cpuMovement`: the computer writes the current player's mark on the cell
      `CpuMove` chooses, on the board as the searches left it, then counts and
      checks the move like the human's. The random number of the random pick
      is `rand`. Overwriting the X a successful blocking search left behind, the
      outcome is the same as marking the original board. */
  function CpuMovement(g: Game, rand: real): (r: Game)
    requires Filled(g.board) < 9 && 0.0 <= rand < 1.0
    ensures var m := CpuMove(g.board, rand).movement;
      && At(g.board, m) == Empty
      && r == Mark(g, m)
  {
    var reply := CpuMove(g.board, rand);
    MarkOverwrites(g, reply.tab, reply.movement);
    Mark(g.(board := reply.tab), reply.movement)
  }

  /** The computer's turn inside `peformMove`: unless the human's move won or
      filled the board, the computer replies. */
  function Reply(moved: Game, rand: real): (r: Game)
    requires 0.0 <= rand < 1.0
    requires Consistent(moved)
    ensures Consistent(r)
    ensures moved.won.Some? || moved.numMovements >= 9 ==> r == moved
    ensures moved.won.None? && moved.numMovements < 9 ==>
      var m := CpuMove(moved.board, rand).movement;
      At(moved.board, m) == Empty && r == Mark(moved, m)
  {
    if moved.won.None? && moved.numMovements < 9 then
      CpuMovement(moved, rand)
    else moved
  }

  /** The end of `peformMove`, checking for a win and for a draw: a recorded
      win shows the final screen; a full board without a win is a draw, where
      the player becomes 0 (here `Empty`) and the final screen is shown.
      Board, counter and outcome stay. */
  function Settle(g: Game): (r: Game)
    ensures r.board == g.board && r.numMovements == g.numMovements && r.won == g.won
    ensures r.showStart == g.showStart && r.showBoard == g.showBoard
    ensures r.showFinal <==> g.showFinal || g.won.Some? || g.numMovements == 9
    ensures r.player == (if g.won.None? && g.numMovements == 9 then Empty else g.player)
    ensures Consistent(g) ==> Consistent(r)
  {
    var checked := if g.won.Some? then g.(showFinal := true) else g;
    if checked.won.None? && checked.numMovements == 9 then checked.(player := Empty, showFinal := true)
    else checked
  }

  /** An accepted move keeps the counter equal to the number of marks, and
      leaves the computer a cell to play whenever it replies. */
  lemma AcceptedMoveConsistent(g: Game, c: Coord, rand: real)
    requires 0.0 <= rand < 1.0
    requires Consistent(g) && g.won.None? && At(g.board, c) == Empty
    ensures Consistent(Mark(g, c))
    ensures Consistent(Settle(Reply(Mark(g, c), rand)))
  {
    EmptyCellNotFull(g.board, c);
  }

  /** `peformMove(posX, posY)`. A move on a filled cell, or once a line has
      been won, is ignored. Otherwise the current player's mark goes on the
      cell, the computer may reply, and the outcome is settled. The random
      number the computer may use is `rand`. */
  function PerformMove(g: Game, x: int, y: int, rand: real): (r: Game)
    requires 0 <= x < 3 && 0 <= y < 3
    requires 0.0 <= rand < 1.0
    requires Consistent(g)
    ensures Consistent(r)
  {
    if g.board[x][y] != Empty || g.won.Some? then g
    else
      AcceptedMoveConsistent(g, (x, y), rand);
      Settle(Reply(Mark(g, (x, y)), rand))
  }

  /** A move on a filled cell, or after a win, changes nothing: not the board,
      the counter, the player or the screen flags. */
  lemma RejectedMoveChangesNothing(g: Game, x: int, y: int, rand: real)
    requires 0 <= x < 3 && 0 <= y < 3
    requires 0.0 <= rand < 1.0
    requires Consistent(g)
    requires At(g.board, (x, y)) != Empty || g.won.Some?
    ensures PerformMove(g, x, y, rand) == g
  {
  }

  /** A state between a mark and the settling of the outcome: `Valid` but for
      the draw player and the final screen, with `toPlay` to move while the
      game is open. */
  ghost predicate Unsettled(g: Game, toPlay: Cell)
  {
    && g.numMovements == Filled(g.board)
    && (g.won.None? && g.numMovements < 9 ==> g.player == toPlay)
    && (g.won.None? ==> NoLine(g.board, X) && NoLine(g.board, O))
    && (g.won.Some? ==>
          g.won.value in AllLines && (Full(g.board, g.won.value, X) || Full(g.board, g.won.value, O)))
  }

  /** The computer's reply to the human's mark passes the turn back to X. */
  lemma ReplyPassesTurnBack(moved: Game, rand: real)
    requires 0.0 <= rand < 1.0
    requires Unsettled(moved, O)
    ensures Unsettled(Reply(moved, rand), X)
  {
    if moved.won.None? && moved.numMovements < 9 {
      var m := CpuMove(moved.board, rand).movement;
      if Mark(moved, m).won.None? {
        MarkKeepsNoLine(moved, m, X);
        MarkKeepsNoLine(moved, m, O);
      }
    }
  }

  /** Settling the outcome of such a state restores the invariant `Valid`. */
  lemma SettleKeepsValid(g: Game)
    requires Unsettled(g, X)
    ensures Valid(Settle(g))
  {
  }

  /** Every move keeps the invariant `Valid`: the counter equals the
      number of marks, X is to play while the game is open, no completed line
      goes unrecorded, a recorded line is full of one mark, and a finished game
      shows the final screen. */
  lemma PerformMoveKeepsValid(g: Game, x: int, y: int, rand: real)
    requires 0 <= x < 3 && 0 <= y < 3
    requires 0.0 <= rand < 1.0
    requires Valid(g)
    ensures Valid(PerformMove(g, x, y, rand))
  {
    var c: Coord := (x, y);
    if At(g.board, c) == Empty && g.won.None? {
      AcceptedMoveConsistent(g, c, rand);
      var moved := Mark(g, c);
      if moved.won.None? {
        MarkKeepsNoLine(g, c, X);
        MarkKeepsNoLine(g, c, O);
      }
      assert Unsettled(moved, O);
      ReplyPassesTurnBack(moved, rand);
      SettleKeepsValid(Reply(moved, rand));
    }
  }

  /** The computer's reply writes only on an EMPTY cell: every mark already on
      the board stays where it is. */
  lemma ReplyKeepsMarks(moved: Game, rand: real)
    requires 0.0 <= rand < 1.0
    requires Consistent(moved)
    ensures forall d: Coord :: At(moved.board, d) != Empty ==>
      At(Reply(moved, rand).board, d) == At(moved.board, d)
  {
    if moved.won.None? && moved.numMovements < 9 {
      var m := CpuMove(moved.board, rand).movement;
      assert At(moved.board, m) == Empty && Reply(moved, rand) == Mark(moved, m);
    }
  }

  /** No cell is ever overwritten: a mark on the board before a move is still
      there after it. */
  lemma PerformMoveKeepsMarks(g: Game, x: int, y: int, rand: real)
    requires 0 <= x < 3 && 0 <= y < 3
    requires 0.0 <= rand < 1.0
    requires Consistent(g)
    ensures forall c: Coord :: At(g.board, c) != Empty ==>
      At(PerformMove(g, x, y, rand).board, c) == At(g.board, c)
  {
    var c: Coord := (x, y);
    if At(g.board, c) == Empty && g.won.None? {
      AcceptedMoveConsistent(g, c, rand);
      var moved := Mark(g, c);
      ReplyKeepsMarks(moved, rand);
      var r := PerformMove(g, x, y, rand);
      assert r.board == Reply(moved, rand).board;
      forall d: Coord | At(g.board, d) != Empty
        ensures At(r.board, d) == At(g.board, d)
      {
        assert At(moved.board, d) == At(g.board, d);
      }
    }
  }

  /** A winning human move ends the game at once: the computer does not
      reply, the line is recorded and the final screen is shown. */
  lemma HumanWinEndsGame(g: Game, x: int, y: int, rand: real)
    requires 0 <= x < 3 && 0 <= y < 3
    requires 0.0 <= rand < 1.0
    requires Consistent(g) && g.won.None? && At(g.board, (x, y)) == Empty
    requires EndGame(x, y, Place(g.board, (x, y), g.player), g.player).Some?
    ensures var r := PerformMove(g, x, y, rand);
      && r.board == Place(g.board, (x, y), g.player)
      && r.numMovements == g.numMovements + 1
      && r.won == EndGame(x, y, r.board, g.player)
      && r.player == Other(g.player)
      && r.showFinal
  {
    AcceptedMoveConsistent(g, (x, y), rand);
    var moved := Mark(g, (x, y));
    assert moved.won.Some?;
    assert Reply(moved, rand) == moved;
    assert PerformMove(g, x, y, rand) == Settle(moved);
  }

  /** A human move that fills the board without winning is a draw: nobody is
      to play and the final screen is shown. */
  lemma FullBoardIsDraw(g: Game, x: int, y: int, rand: real)
    requires 0 <= x < 3 && 0 <= y < 3
    requires 0.0 <= rand < 1.0
    requires Consistent(g) && g.won.None? && At(g.board, (x, y)) == Empty
    requires EndGame(x, y, Place(g.board, (x, y), g.player), g.player).None?
    requires g.numMovements == 8
    ensures var r := PerformMove(g, x, y, rand);
      && r.board == Place(g.board, (x, y), g.player)
      && Filled(r.board) == 9
      && r.won.None? && r.player == Empty && r.showFinal
  {
    AcceptedMoveConsistent(g, (x, y), rand);
  }

  /** Otherwise the computer answers on a different, EMPTY cell with the other
      mark: the move adds exactly two marks, and under `Valid` X is to
      play again unless the game has just ended. */
  lemma ComputerReplies(g: Game, x: int, y: int, rand: real)
    requires 0 <= x < 3 && 0 <= y < 3
    requires 0.0 <= rand < 1.0
    requires Consistent(g) && g.won.None? && At(g.board, (x, y)) == Empty
    requires EndGame(x, y, Place(g.board, (x, y), g.player), g.player).None?
    requires g.numMovements < 8
    ensures var human := Mark(g, (x, y)).board;
      var m := CpuMove(human, rand).movement;
      var r := PerformMove(g, x, y, rand);
      && m != (x, y)
      && At(human, m) == Empty
      && r.board == Place(human, m, Other(g.player))
      && r.numMovements == g.numMovements + 2
      && r.won == EndGame(m.0, m.1, r.board, Other(g.player))
      && (r.won.None? && r.numMovements < 9 ==> r.player == Other(Other(g.player)))
      && (r.showFinal <==> g.showFinal || r.won.Some? || r.numMovements == 9)
  {
    AcceptedMoveConsistent(g, (x, y), rand);
    var moved := Mark(g, (x, y));
    assert moved.won.None? && moved.numMovements < 9;
    var m := CpuMove(moved.board, rand).movement;
    var replied := Reply(moved, rand);
    assert At(moved.board, m) == Empty && replied == Mark(moved, m);
    assert At(moved.board, (x, y)) != Empty;
    assert PerformMove(g, x, y, rand) == Settle(replied);
  }

  /** `showX(posX, posY)`. */
  function ShowX(g: Game, x: int, y: int): (r: bool)
    requires 0 <= x < 3 && 0 <= y < 3
    ensures r <==> At(g.board, (x, y)) == X
  {
    g.board[x][y] == X
  }

  /** `showO(posX, posY)`. */
  function ShowO(g: Game, x: int, y: int): (r: bool)
    requires 0 <= x < 3 && 0 <= y < 3
    ensures r <==> At(g.board, (x, y)) == O
  {
    g.board[x][y] == O
  }

  /** A cell shows at most one mark, and shows none exactly when it is EMPTY. */
  lemma ShowOneMark(g: Game, x: int, y: int)
    requires 0 <= x < 3 && 0 <= y < 3
    ensures !(ShowX(g, x, y) && ShowO(g, x, y))
    ensures !ShowX(g, x, y) && !ShowO(g, x, y) <==> At(g.board, (x, y)) == Empty
  {
  }

  /** The position `c` is (x, y), compared as the source's `===` on numbers. */
  function IsAt(c: Coord, x: int, y: int): bool
  {
    c.0 == x && c.1 == y
  }

  /** `displayWinner(posX, posY)`: whether (posX, posY) is one of the three
      positions of the recorded winning line. Any numbers may be asked. */
  function DisplayWinner(g: Game, x: int, y: int): (r: bool)
    ensures r <==> g.won.Some? && exists c | c in Cells(g.won.value) :: IsAt(c, x, y)
  {
    match g.won
    case None => false
    case Some(l) => IsAt(l.first, x, y) || IsAt(l.second, x, y) || IsAt(l.third, x, y)
  }

  /** The mark the recorded line is full of. */
  function Winner(g: Game): (p: Cell)
    requires g.won.Some?
    requires Full(g.board, g.won.value, X) || Full(g.board, g.won.value, O)
    ensures p != Empty && Full(g.board, g.won.value, p)
  {
    if Full(g.board, g.won.value, X) then X else O
  }

  /** Under `Valid` the highlighted positions are on the board and all
      hold the winner's mark. */
  lemma WinnerCellsHoldOneMark(g: Game)
    requires Valid(g) && g.won.Some?
    ensures forall x: int, y: int :: DisplayWinner(g, x, y) ==> 0 <= x < 3 && 0 <= y < 3
    ensures forall c: Coord :: DisplayWinner(g, c.0, c.1) ==> At(g.board, c) == Winner(g)
  {
    var l := g.won.value;
    forall c: Coord | DisplayWinner(g, c.0, c.1)
      ensures At(g.board, c) == Winner(g)
    {
      assert c == l.first || c == l.second || c == l.third;
    }
  }
}

/** The win check `endGame`: after a mark is placed on (line, column), look at
    the row through `line`, the column through `column` and both diagonals. */
module WinCheck {
  import opened Wrappers
  import opened Grid

  /** The lines `endGame` examines, in the order it examines them. */
  function CheckOrder(line: Idx, column: Idx): seq<Line>
  {
    [Row(line), Column(column), MainDiagonal, AntiDiagonal]
  }

  /** `endGame(line, column, board, player)`. Each test assigns its line to the
      same variable, so when several lines are full the one examined LAST is
      reported: anti-diagonal, then main diagonal, then column, then row.
      `None` is the source's `false`. */
  function EndGame(line: Idx, column: Idx, b: Board, p: Cell): (r: Option<Line>)
    ensures r.None? <==> forall k | 0 <= k < 4 :: !Full(b, CheckOrder(line, column)[k], p)
    ensures r.Some? ==>
      exists k | 0 <= k < 4 ::
        && r.value == CheckOrder(line, column)[k]
        && Full(b, r.value, p)
        && forall k' | k < k' < 4 :: !Full(b, CheckOrder(line, column)[k'], p)
    ensures r.Some? ==> r.value in AllLines
  {
    var order := CheckOrder(line, column);
    assert order[0] == Row(line) && order[1] == Column(column);
    assert order[2] == MainDiagonal && order[3] == AntiDiagonal;
    var notOver: Option<Line> := None;
    var afterRow := if Full(b, Row(line), p) then Some(Row(line)) else notOver;
    var afterColumn := if Full(b, Column(column), p) then Some(Column(column)) else afterRow;
    var afterMain := if Full(b, MainDiagonal, p) then Some(MainDiagonal) else afterColumn;
    if Full(b, AntiDiagonal, p) then Some(AntiDiagonal) else afterMain
  }

  /** Every line of the board through the played cell is among those examined,
      so a full line through that cell is never missed. */
  lemma {:induction false} FullLineThroughCellDetected(b: Board, c: Coord, l: Line, p: Cell)
    requires l in AllLines && c in Cells(l) && Full(b, l, p)
    ensures EndGame(c.0, c.1, b, p).Some?
  {
    var order := CheckOrder(c.0, c.1);
    if l == Row(0) || l == Row(1) || l == Row(2) {
      assert l == order[0];
    } else if l == Column(0) || l == Column(1) || l == Column(2) {
      assert l == order[1];
    } else if l == MainDiagonal {
      assert l == order[2];
    } else {
      assert l == order[3];
    }
  }

  /** A move that `endGame` does not report as a win leaves no full line of the
      mover, and no move ever completes a line of the other mark. */
  lemma QuietMoveKeepsNoLine(b: Board, c: Coord, p: Cell, q: Cell)
    requires NoLine(b, q)
    requires q == p ==> EndGame(c.0, c.1, Place(b, c, p), p).None?
    ensures NoLine(Place(b, c, p), q)
  {
    var b' := Place(b, c, p);
    forall i | 0 <= i < |AllLines|
      ensures !Full(b', AllLines[i], q)
    {
      if Full(b', AllLines[i], q) {
        PlaceFull(b, c, p, AllLines[i], q);
        FullLineThroughCellDetected(b', c, AllLines[i], p);
      }
    }
  }

  /** The order matters: a move on (0, 0) that completes both the top row and
      the main diagonal is reported as the main diagonal. */
  lemma LaterLineWins()
    ensures EndGame(0, 0, [[X, X, X], [O, X, O], [O, Empty, X]], X) == Some(MainDiagonal)
  {
  }
}

/** The 3x3 board of the hash game (tic-tac-toe): cell values, coordinates,
    the eight lines a player can complete, and counting of filled cells in
    row-major order. */
module Grid {

  /** A cell value. The source stores numbers: EMPTY = 0, X = 1, O = 2. */
  datatype Cell = Empty | X | O

  /** The mark the other side plays: the source's `(p === X) ? O : X`.
      Anything that is not X (including the 0 left after a draw) becomes X. */
  function Other(p: Cell): (q: Cell)
    ensures q != Empty
    ensures p != Empty ==> q != p
    ensures p == Empty ==> q == X
  {
    if p == X then O else X
  }

  /** A row or column index on the fixed board of size 3. */
  type Idx = i: int | 0 <= i < 3

  /** A board position (line, column), as the source's `[i, j]` pairs. */
  type Coord = (Idx, Idx)

  /** A 3x3 grid of cells, indexed `b[line][column]`. */
  type Board = b: seq<seq<Cell>> | |b| == 3 && forall i | 0 <= i < |b| :: |b[i]| == 3
    witness [[Empty, Empty, Empty], [Empty, Empty, Empty], [Empty, Empty, Empty]]

  function At(b: Board, c: Coord): Cell
  {
    b[c.0][c.1]
  }

  /** The board with cell `c` set to `p` (the source's `board[i][j] = p`). */
  function Place(b: Board, c: Coord, p: Cell): (r: Board)
    ensures At(r, c) == p
    ensures forall d: Coord :: d != c ==> At(r, d) == At(b, d)
  {
    b[c.0 := b[c.0][c.1 := p]]
  }

  /** Two boards that agree on every cell are the same board. */
  lemma BoardExt(a: Board, b: Board)
    requires forall c: Coord :: At(a, c) == At(b, c)
    ensures a == b
  {
    forall i: Idx
      ensures a[i] == b[i]
    {
      assert At(a, (i, 0)) == At(b, (i, 0));
      assert At(a, (i, 1)) == At(b, (i, 1));
      assert At(a, (i, 2)) == At(b, (i, 2));
    }
  }

  /** Writing a mark on an EMPTY cell and then EMPTY again restores the board. */
  lemma PlaceRestore(b: Board, c: Coord, p: Cell)
    requires At(b, c) == Empty
    ensures Place(Place(b, c, p), c, Empty) == b
  {
    BoardExt(Place(Place(b, c, p), c, Empty), b);
  }

  /** Writing `p` on `c` hides whatever `c` held before. */
  lemma PlaceOverwrites(a: Board, b: Board, c: Coord, p: Cell)
    requires forall d: Coord :: d != c ==> At(a, d) == At(b, d)
    ensures Place(a, c, p) == Place(b, c, p)
  {
    BoardExt(Place(a, c, p), Place(b, c, p));
  }

  /** The board `initializeBoard` builds: every cell EMPTY. */
  const EmptyBoard: Board := [[Empty, Empty, Empty], [Empty, Empty, Empty], [Empty, Empty, Empty]]

  /** A board with no mark has no filled cell. */
  lemma {:induction false} NoMarkFilledFrom(b: Board, k: nat)
    requires k <= 9
    requires forall c: Coord :: At(b, c) == Empty
    ensures FilledFrom(b, k) == 0
    decreases 9 - k
  {
    if k < 9 {
      NoMarkFilledFrom(b, k + 1);
    }
  }

  // ---------------------------------------------------------------------
  // Row-major order: the order of the source's nested `for` loops.

  /** The row-major position of a cell, 0 .. 8. */
  function Index(c: Coord): (k: nat)
    ensures k < 9
  {
    3 * c.0 + c.1
  }

  /** The cell at row-major position `k`. */
  function CoordOf(k: nat): (c: Coord)
    requires k < 9
    ensures Index(c) == k
  {
    if k < 3 then (0, k) else if k < 6 then (1, k - 3) else (2, k - 6)
  }

  /** Distinct cells have distinct row-major positions. */
  lemma IndexInjective(c: Coord, d: Coord)
    requires Index(c) == Index(d)
    ensures c == d
  {
  }

  /** `CoordOf` undoes `Index`. */
  lemma CoordOfIndex(c: Coord)
    ensures CoordOf(Index(c)) == c
  {
  }

  /** The number of non-EMPTY cells at row-major positions `k` .. 8. */
  function FilledFrom(b: Board, k: nat): (n: nat)
    requires k <= 9
    ensures n <= 9 - k
    decreases 9 - k
  {
    if k == 9 then 0
    else (if At(b, CoordOf(k)) != Empty then 1 else 0) + FilledFrom(b, k + 1)
  }

  /** The number of non-EMPTY cells on the board. */
  function Filled(b: Board): (n: nat)
    ensures n <= 9
  {
    FilledFrom(b, 0)
  }

  /** The EMPTY cells at row-major positions `k` .. 8, in row-major order: the
      list `cpuMovement` builds with its nested loops before picking at random. */
  function EmptyCellsFrom(b: Board, k: nat): (r: seq<Coord>)
    requires k <= 9
    ensures |r| + FilledFrom(b, k) == 9 - k
    ensures forall i | 0 <= i < |r| :: At(b, r[i]) == Empty && k <= Index(r[i])
    decreases 9 - k
  {
    if k == 9 then []
    else
      var c := CoordOf(k);
      var rest := EmptyCellsFrom(b, k + 1);
      if At(b, c) == Empty then
        assert forall i | 0 < i <= |rest| :: ([c] + rest)[i] == rest[i - 1];
        [c] + rest
      else rest
  }

  /** Cells listed in strictly increasing row-major order. */
  predicate Ascending(s: seq<Coord>)
  {
    forall i, j | 0 <= i < j < |s| :: Index(s[i]) < Index(s[j])
  }

  /** A cell placed before an ascending list of later cells keeps it ascending. */
  lemma AscendingCons(c: Coord, t: seq<Coord>)
    requires Ascending(t)
    requires forall i | 0 <= i < |t| :: Index(c) < Index(t[i])
    ensures Ascending([c] + t)
  {
    var r := [c] + t;
    forall i, j | 0 <= i < j < |r|
      ensures Index(r[i]) < Index(r[j])
    {
      assert r[j] == t[j - 1];
      if 0 < i {
        assert r[i] == t[i - 1];
      }
    }
  }

  /** The list holds the EMPTY cells in strictly increasing row-major order. */
  lemma {:induction false} EmptyCellsFromSorted(b: Board, k: nat)
    requires k <= 9
    ensures Ascending(EmptyCellsFrom(b, k))
    decreases 9 - k
  {
    if k < 9 {
      EmptyCellsFromSorted(b, k + 1);
      if At(b, CoordOf(k)) == Empty {
        AscendingCons(CoordOf(k), EmptyCellsFrom(b, k + 1));
      }
    }
  }

  /** Every EMPTY cell from position `k` on is in the list. */
  lemma {:induction false} EmptyCellsFromComplete(b: Board, k: nat, c: Coord)
    requires k <= Index(c) && At(b, c) == Empty
    ensures c in EmptyCellsFrom(b, k)
    decreases 9 - k
  {
    if k < Index(c) {
      EmptyCellsFromComplete(b, k + 1, c);
    } else {
      CoordOfIndex(c);
    }
  }

  /** The EMPTY cells of the board in row-major order. */
  function EmptyCells(b: Board): (r: seq<Coord>)
    ensures |r| == 9 - Filled(b)
    ensures forall i | 0 <= i < |r| :: At(b, r[i]) == Empty
  {
    EmptyCellsFrom(b, 0)
  }

  /** A cell is in `EmptyCells(b)` exactly when it is EMPTY, and the list is in
      row-major order. */
  lemma EmptyCellsSpec(b: Board)
    ensures forall c: Coord :: c in EmptyCells(b) <==> At(b, c) == Empty
    ensures Ascending(EmptyCells(b))
  {
    var r := EmptyCells(b);
    EmptyCellsFromSorted(b, 0);
    forall c: Coord
      ensures c in r <==> At(b, c) == Empty
    {
      if At(b, c) == Empty {
        EmptyCellsFromComplete(b, 0, c);
      }
    }
  }

  /** Placing a mark on an EMPTY cell fills one more cell from position `k`
      on when the cell is at or after `k`. */
  lemma {:induction false} PlaceFilledFrom(b: Board, c: Coord, p: Cell, k: nat)
    requires k <= 9
    requires At(b, c) == Empty && p != Empty
    ensures FilledFrom(Place(b, c, p), k) == FilledFrom(b, k) + (if k <= Index(c) then 1 else 0)
    decreases 9 - k
  {
    if k < 9 {
      PlaceFilledFrom(b, c, p, k + 1);
      var placed := Place(b, c, p);
      var d := CoordOf(k);
      if d == c {
        assert FilledFrom(placed, k) == 1 + FilledFrom(placed, k + 1);
        assert FilledFrom(b, k) == FilledFrom(b, k + 1);
      } else {
        if Index(c) == k {
          IndexInjective(c, d);
        }
        assert At(placed, d) == At(b, d);
      }
    }
  }

  /** Placing a mark on an EMPTY cell fills exactly one more cell. */
  lemma PlaceFilled(b: Board, c: Coord, p: Cell)
    ensures At(b, c) == Empty && p != Empty ==> Filled(Place(b, c, p)) == Filled(b) + 1
  {
    if At(b, c) == Empty && p != Empty {
      PlaceFilledFrom(b, c, p, 0);
    }
  }

  /** A board with an EMPTY cell is not full. */
  lemma EmptyCellNotFull(b: Board, c: Coord)
    requires At(b, c) == Empty
    ensures Filled(b) < 9
  {
    EmptyCellsSpec(b);
  }

  // ---------------------------------------------------------------------
  // Lines.

  /** Three board positions forming a row, a column or a diagonal: the
      source's `[[i, j], [i, j], [i, j]]` arrays. */
  datatype Line = Line(first: Coord, second: Coord, third: Coord)

  function Row(l: Idx): Line
  {
    Line((l, 0), (l, 1), (l, 2))
  }

  function Column(c: Idx): Line
  {
    Line((0, c), (1, c), (2, c))
  }

  const MainDiagonal: Line := Line((0, 0), (1, 1), (2, 2))

  const AntiDiagonal: Line := Line((0, 2), (1, 1), (2, 0))

  /** The eight lines of the board. */
  const AllLines: seq<Line> :=
    [Row(0), Row(1), Row(2), Column(0), Column(1), Column(2), MainDiagonal, AntiDiagonal]

  function Cells(l: Line): set<Coord>
  {
    {l.first, l.second, l.third}
  }

  /** All three cells of `l` hold `p`. */
  predicate Full(b: Board, l: Line, p: Cell)
  {
    At(b, l.first) == p && At(b, l.second) == p && At(b, l.third) == p
  }

  /** The three positions of a line are different cells. */
  lemma LineCellsDistinct(l: Line)
    requires l in AllLines
    ensures l.first != l.second && l.second != l.third && l.first != l.third
  {
  }

  /** No line of the board is full of `p`. */
  predicate NoLine(b: Board, p: Cell)
  {
    forall i | 0 <= i < |AllLines| :: !Full(b, AllLines[i], p)
  }

  /** A board with no mark has no full line of a mark. */
  lemma NoMarkNoLine(b: Board, p: Cell)
    requires forall c: Coord :: At(b, c) == Empty
    requires p != Empty
    ensures NoLine(b, p)
  {
    forall i | 0 <= i < |AllLines|
      ensures !Full(b, AllLines[i], p)
    {
      assert At(b, AllLines[i].first) == Empty;
    }
  }

  /** Placing `p` on `c` can only complete, for a mark `q`, a line that was
      already full of `q`, or a line through `c` when `q` is `p`. */
  lemma PlaceFull(b: Board, c: Coord, p: Cell, l: Line, q: Cell)
    requires Full(Place(b, c, p), l, q)
    ensures Full(b, l, q) || (c in Cells(l) && q == p)
  {
  }
}

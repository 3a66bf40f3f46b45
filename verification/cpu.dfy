/** The computer opponent: `getMovement`, which looks for a cell where a mark
    completes a line, and the choice `cpuMovement` makes from it (win, else
    block, else a random EMPTY cell). */
module Cpu {
  import opened Wrappers
  import opened Grid
  import opened WinCheck

  /** Placing `p` on the EMPTY cell `c` makes `endGame` report a line. */
  predicate Wins(b: Board, p: Cell, c: Coord)
  {
    At(b, c) == Empty && EndGame(c.0, c.1, Place(b, c, p), p).Some?
  }

  /** `c` is the first cell in row-major order where `p` wins. */
  ghost predicate FirstWin(b: Board, p: Cell, c: Coord)
  {
    Wins(b, p, c) && forall d: Coord :: Index(d) < Index(c) ==> !Wins(b, p, d)
  }

  /** No EMPTY cell lets `p` win. */
  ghost predicate NoWin(b: Board, p: Cell)
  {
    forall c: Coord :: !Wins(b, p, c)
  }

  /** There is at most one first winning cell. */
  lemma FirstWinUnique(b: Board, p: Cell, c: Coord, d: Coord)
    requires FirstWin(b, p, c) && FirstWin(b, p, d)
    ensures c == d
  {
    assert Wins(b, p, c) && Wins(b, p, d);
    IndexInjective(c, d);
  }

  /** What `getMovement` returns (`None` is the source's `[]`) together with
      the board it leaves behind: the search writes into the game's own board. */
  datatype Probe = Probe(move: Option<Coord>, tab: Board)

  /** The loops of `getMovement` from row-major position `k` on: skip a filled
      cell; otherwise write `p` there, stop if `endGame` reports a line (leaving
      the mark in place), else write EMPTY back and go on. */
  function ScanFrom(tab: Board, p: Cell, k: nat): (r: Probe)
    requires k <= 9
    ensures r.move.Some? ==>
      && k <= Index(r.move.value)
      && Wins(tab, p, r.move.value)
      && (forall d: Coord :: k <= Index(d) < Index(r.move.value) ==> !Wins(tab, p, d))
      && r.tab == Place(tab, r.move.value, p)
    ensures r.move.None? ==>
      && (forall d: Coord :: k <= Index(d) ==> !Wins(tab, p, d))
      && r.tab == tab
    decreases 9 - k
  {
    if k == 9 then Probe(None, tab)
    else
      var c := CoordOf(k);
      assert forall d: Coord :: Index(d) == k ==> d == c;
      if At(tab, c) != Empty then ScanFrom(tab, p, k + 1)
      else
        var probed := Place(tab, c, p);
        if EndGame(c.0, c.1, probed, p).Some? then Probe(Some(c), probed)
        else
          PlaceRestore(tab, c, p);
          ScanFrom(Place(probed, c, Empty), p, k + 1)
  }

  /** `getMovement(p)`: the first cell in row-major order where `p` wins. On
      `[]` the board is as it was; otherwise that cell, and only that cell, now
      holds `p`. */
  function GetMovement(b: Board, p: Cell): (r: Probe)
    ensures r.move.None? <==> NoWin(b, p)
    ensures r.move.Some? ==> FirstWin(b, p, r.move.value)
    ensures r.move.None? ==> r.tab == b
    ensures r.move.Some? ==>
      && At(r.tab, r.move.value) == p
      && forall d: Coord :: d != r.move.value ==> At(r.tab, d) == At(b, d)
  {
    ScanFrom(b, p, 0)
  }

  /** The largest index the random pick can produce among `n` EMPTY cells. */
  function MaxPick(n: nat): nat
  {
    if n <= 1 then 0 else n - 2
  }

  /** A number in [0, 1) scaled by a positive `m` stays in [0, m). */
  lemma ScaledBelow(rand: real, m: real)
    requires 0.0 <= rand < 1.0 && 0.0 < m
    ensures 0.0 <= rand * m < m
  {
    assert m - rand * m == (1.0 - rand) * m;
  }

  /** The floor of a number in [0, m) lies in 0 .. m - 1. */
  lemma FloorBelow(x: real, m: int)
    requires 0.0 <= x < m as real
    ensures 0 <= x.Floor < m
  {
    assert x.Floor as real <= x;
  }

  /** The floor of `rand * (n - 1)` lies in 0 .. MaxPick(n). */
  lemma ScaledFloorBelow(n: nat, rand: real)
    requires 1 <= n && 0.0 <= rand < 1.0
    ensures 0 <= (rand * (n - 1) as real).Floor <= MaxPick(n)
  {
    var x := rand * (n - 1) as real;
    if n == 1 {
      assert x == 0.0;
    } else {
      ScaledBelow(rand, (n - 1) as real);
      FloorBelow(x, n - 1);
    }
  }

  /** `Math.floor(Math.random() * (n - 1))`, with the random number in [0, 1)
      passed in as `rand`. */
  function RandomIndex(n: nat, rand: real): (k: nat)
    requires 1 <= n && 0.0 <= rand < 1.0
    ensures k <= MaxPick(n) < n
  {
    ScaledFloorBelow(n, rand);
    (rand * (n - 1) as real).Floor
  }

  /** Every index up to `MaxPick(n)` is produced by some random number, so the
      pick ranges over exactly the first `MaxPick(n) + 1` EMPTY cells. */
  lemma RandomIndexReaches(n: nat, k: nat)
    requires 1 <= n && k <= MaxPick(n)
    ensures exists rand: real :: 0.0 <= rand < 1.0 && RandomIndex(n, rand) == k
  {
    if n == 1 {
      assert RandomIndex(n, 0.0) == 0;
    } else {
      var m := (n - 1) as real;
      var rand := k as real / m;
      assert rand * m == k as real;
      assert RandomIndex(n, rand) == k;
    }
  }

  /** With two or more EMPTY cells the last one in row-major order is never
      picked; with exactly one, it is. */
  lemma LastEmptyCellNeverPicked(n: nat, rand: real)
    requires 1 <= n && 0.0 <= rand < 1.0
    ensures RandomIndex(n, rand) == n - 1 <==> n == 1
  {
  }

  /** The random branch of `cpuMovement`: list the EMPTY cells in row-major
      order and take the one at `RandomIndex`. */
  function RandomMove(b: Board, rand: real): (c: Coord)
    requires Filled(b) < 9 && 0.0 <= rand < 1.0
    ensures At(b, c) == Empty
    ensures exists k | 0 <= k <= MaxPick(|EmptyCells(b)|) :: c == EmptyCells(b)[k]
  {
    var movements := EmptyCells(b);
    movements[RandomIndex(|movements|, rand)]
  }

  /** The cell `cpuMovement` plays and the board as the searches leave it. */
  datatype Choice = Choice(movement: Coord, tab: Board)

  /** The choice of `cpuMovement`: the first cell where O wins, else the first
      cell where X would win (to block it), else a random EMPTY cell. A blocking
      search that succeeds leaves an X on the chosen cell; every other cell is
      as before. `CpuMovePriority` states the order of the three tries. */
  function CpuMove(b: Board, rand: real): (r: Choice)
    requires Filled(b) < 9 && 0.0 <= rand < 1.0
    ensures At(b, r.movement) == Empty
    ensures forall d: Coord :: d != r.movement ==> At(r.tab, d) == At(b, d)
  {
    var win := GetMovement(b, O);
    if win.move.Some? then
      assert FirstWin(b, O, win.move.value);
      Choice(win.move.value, win.tab)
    else
      assert NoWin(b, O) && win.tab == b;
      var block := GetMovement(win.tab, X);
      if block.move.Some? then
        assert FirstWin(b, X, block.move.value);
        Choice(block.move.value, block.tab)
      else
        assert NoWin(b, X) && block.tab == b;
        Choice(RandomMove(block.tab, rand), block.tab)
  }

  /** Winning beats blocking and blocking beats the random pick. */
  lemma CpuMovePriority(b: Board, rand: real)
    requires Filled(b) < 9 && 0.0 <= rand < 1.0
    ensures !NoWin(b, O) ==> FirstWin(b, O, CpuMove(b, rand).movement)
    ensures NoWin(b, O) && !NoWin(b, X) ==> FirstWin(b, X, CpuMove(b, rand).movement)
    ensures NoWin(b, O) && NoWin(b, X) ==>
      exists k | 0 <= k <= MaxPick(|EmptyCells(b)|) :: CpuMove(b, rand).movement == EmptyCells(b)[k]
  {
    var win := GetMovement(b, O);
    if win.move.Some? {
      assert CpuMove(b, rand).movement == win.move.value;
    } else {
      assert NoWin(b, O) && win.tab == b;
      var block := GetMovement(b, X);
      if block.move.Some? {
        assert CpuMove(b, rand).movement == block.move.value;
      } else {
        assert NoWin(b, X) && block.tab == b;
        assert CpuMove(b, rand).movement == RandomMove(b, rand);
      }
    }
  }
}

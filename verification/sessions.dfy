/** A session: the human's clicks on the board, one after another, each
    answered by the service's `peformMove`. */
module Sessions {
  import opened Grid
  import opened HashGame

  /** A number drawn by `Math.random()`: in [0, 1). */
  type Random = r: real | 0.0 <= r < 1.0

  /** One click on cell (x, y), with the random number the computer would
      draw if it has to play at random. */
  datatype Click = Click(x: Idx, y: Idx, rand: Random)

  /** The state after the clicks, in order. The counter equals the number of
      marks after every prefix of the session. */
  function Run(g: Game, clicks: seq<Click>): (r: Game)
    requires Consistent(g)
    ensures Consistent(r)
    decreases |clicks|
  {
    if clicks == [] then g
    else
      Run(PerformMove(g, clicks[0].x, clicks[0].y, clicks[0].rand), clicks[1..])
  }

  /** A session started in a state satisfying `Valid` keeps satisfying it. */
  lemma {:induction false} RunKeepsValid(g: Game, clicks: seq<Click>)
    requires Valid(g)
    ensures Valid(Run(g, clicks))
    decreases |clicks|
  {
    ValidIsConsistent(g);
    if clicks != [] {
      var k := clicks[0];
      PerformMoveKeepsValid(g, k.x, k.y, k.rand);
      RunKeepsValid(PerformMove(g, k.x, k.y, k.rand), clicks[1..]);
    }
  }

  /** A mark, once on the board, stays for the rest of the session. */
  lemma {:induction false} RunKeepsMarks(g: Game, clicks: seq<Click>, c: Coord)
    requires Consistent(g)
    requires At(g.board, c) != Empty
    ensures At(Run(g, clicks).board, c) == At(g.board, c)
    decreases |clicks|
  {
    if clicks != [] {
      var k := clicks[0];
      PerformMoveKeepsMarks(g, k.x, k.y, k.rand);
      RunKeepsMarks(PerformMove(g, k.x, k.y, k.rand), clicks[1..], c);
    }
  }

  /** Once a line is won, no click changes anything. */
  lemma {:induction false} WonGameIsFrozen(g: Game, clicks: seq<Click>)
    requires Consistent(g) && g.won.Some?
    ensures Run(g, clicks) == g
    decreases |clicks|
  {
    if clicks != [] {
      var k := clicks[0];
      RejectedMoveChangesNothing(g, k.x, k.y, k.rand);
      WonGameIsFrozen(g, clicks[1..]);
    }
  }

  /** Once all nine cells are marked, no click changes anything: every cell
      the human can click is taken. */
  lemma {:induction false} DrawnGameIsFrozen(g: Game, clicks: seq<Click>)
    requires Consistent(g) && g.numMovements == 9
    ensures Run(g, clicks) == g
    decreases |clicks|
  {
    if clicks != [] {
      var k := clicks[0];
      if At(g.board, (k.x, k.y)) == Empty {
        EmptyCellNotFull(g.board, (k.x, k.y));
      }
      RejectedMoveChangesNothing(g, k.x, k.y, k.rand);
      DrawnGameIsFrozen(g, clicks[1..]);
    }
  }

  /** A game started from the start screen or with `newGame` keeps the invariant
      `Valid` whatever the human clicks. */
  lemma FreshSessionsStayValid(g: Game, clicks: seq<Click>)
    ensures Valid(Run(StartGame(Initialize()), clicks))
    ensures Valid(Run(NewGame(g), clicks))
  {
    RunKeepsValid(StartGame(Initialize()), clicks);
    RunKeepsValid(NewGame(g), clicks);
  }
}

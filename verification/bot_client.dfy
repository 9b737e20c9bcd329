/** The bot's per-tick decision engine: the move validator, the flood-fill
    area estimator and the move selector. The game state and the player's
    position, fields of the bot in the original, are passed as parameters
    here, since the engine only reads them. */
module BotClient {
  import opened GameGrid
  import opened Reachability
  import opened Selection

  /** The outcome of a decision: a direction to send, or the fatal
      "boxed in" condition under which the original exits. */
  datatype Decision = Move(direction: Direction) | NoLegalMove

  /** Move validator: a step is legal when it lands inside the grid on a cell
      whose marker is 0. Leaving the grid is an ordinary illegal move. */
  function IsValidMove(g: Grid, position: Pos, direction: Direction): (legal: bool)
    requires WellFormed(g)
    ensures legal <==> IsInsideGrid(g, Neighbor(position, direction)) && GridCell(g, Neighbor(position, direction)) == 0
    ensures legal <==> Open(g, {}, Neighbor(position, direction))
  {
    var newPos := Neighbor(position, direction);
    if !IsInsideGrid(g, newPos) then false
    else if GridCell(g, newPos) != 0 then false
    else true
  }

  /** The cells whose visited marker is set. */
  ghost function Marked(visited: array2<bool>): set<Pos>
    reads visited
  {
    set i, j | 0 <= i < visited.Length0 && 0 <= j < visited.Length1 && visited[i, j] :: Pos(i, j)
  }

  lemma MarkedAt(visited: array2<bool>, p: Pos)
    ensures p in Marked(visited) <==>
      0 <= p.x < visited.Length0 && 0 <= p.y < visited.Length1 && visited[p.x, p.y]
  {
    if 0 <= p.x < visited.Length0 && 0 <= p.y < visited.Length1 && visited[p.x, p.y] {
      assert Pos(p.x, p.y) == p;
    }
  }

  /** Every visited marker is set exactly for the cells marked before the
      fill began and the cells the fill has marked since. */
  ghost predicate MarksAgree(g: Grid, visited: array2<bool>, before: set<Pos>, added: set<Pos>)
    reads visited
  {
    visited.Length0 == g.width && visited.Length1 == g.height &&
    forall i, j :: 0 <= i < g.width && 0 <= j < g.height ==>
      (visited[i, j] <==> Pos(i, j) in before || Pos(i, j) in added)
  }

  lemma MarksAgreeInitially(g: Grid, visited: array2<bool>)
    requires visited.Length0 == g.width && visited.Length1 == g.height
    ensures MarksAgree(g, visited, Marked(visited), {})
  {
    forall i, j | 0 <= i < g.width && 0 <= j < g.height
      ensures visited[i, j] <==> Pos(i, j) in Marked(visited)
    {
      MarkedAt(visited, Pos(i, j));
    }
  }

  /** Setting the marker of one more cell keeps the markers in agreement. */
  lemma MarkKeepsAgree(g: Grid, visited: array2<bool>, before: set<Pos>, added: set<Pos>, p: Pos)
    requires visited.Length0 == g.width && visited.Length1 == g.height
    requires IsInsideGrid(g, p) && visited[p.x, p.y]
    requires forall i, j :: 0 <= i < g.width && 0 <= j < g.height && (i != p.x || j != p.y) ==>
      (visited[i, j] <==> Pos(i, j) in before || Pos(i, j) in added)
    ensures MarksAgree(g, visited, before, added + {p})
  {
  }

  lemma MarkedFromAgree(g: Grid, visited: array2<bool>, before: set<Pos>, added: set<Pos>)
    requires MarksAgree(g, visited, before, added)
    requires before <= AllCells(g) && added <= AllCells(g)
    ensures Marked(visited) == before + added
  {
    forall p
      ensures p in Marked(visited) <==> p in before + added
    {
      MarkedAt(visited, p);
    }
  }

  /** Every cell the fill has marked is reachable from the start. */
  ghost predicate AllReachable(g: Grid, before: set<Pos>, start: Pos, added: set<Pos>)
    requires WellFormed(g)
  {
    forall m :: m in added ==> Reachable(g, before, start, m)
  }

  /** Every queued position the fill could still mark is reachable. */
  ghost predicate QueueSound(g: Grid, before: set<Pos>, start: Pos, queue: seq<Pos>)
    requires WellFormed(g)
  {
    forall q :: q in queue && Open(g, before, q) ==> Reachable(g, before, start, q)
  }

  /** Nothing reachable is lost: the open start and every open neighbour of a
      marked cell are marked or still queued. */
  ghost predicate FrontierCovers(g: Grid, before: set<Pos>, start: Pos, added: set<Pos>, queue: seq<Pos>)
    requires WellFormed(g)
  {
    (start in added || start in queue || !Open(g, before, start)) &&
    forall m, n :: m in added && n in Neighbors(m) ==> n in added || n in queue || !Open(g, before, n)
  }

  /** The invariant of the fill's queue and marks, apart from the markers
      themselves: the marked cells are grid cells reachable from the start,
      the queue is sound, and the frontier covers everything reachable. */
  ghost predicate FillInvariant(g: Grid, before: set<Pos>, start: Pos, added: set<Pos>, queue: seq<Pos>)
    requires WellFormed(g)
  {
    added <= AllCells(g) &&
    AllReachable(g, before, start, added) &&
    QueueSound(g, before, start, queue) &&
    FrontierCovers(g, before, start, added, queue)
  }

  /** The fill starts sound: nothing marked, only the start queued. */
  lemma FillStart(g: Grid, before: set<Pos>, start: Pos)
    requires WellFormed(g)
    ensures FillInvariant(g, before, start, {}, [start])
  {
    if Open(g, before, start) {
      ReachableFromItself(g, before, start);
    }
  }

  /** Popping the front of the queue keeps every other queued position. */
  lemma PopKeepsOthers(queue: seq<Pos>)
    requires queue != []
    ensures forall x :: x in queue && x != queue[0] ==> x in queue[1..]
  {
    forall x | x in queue && x != queue[0]
      ensures x in queue[1..]
    {
      var i :| 0 <= i < |queue| && queue[i] == x;
      assert queue[1..][i - 1] == x;
    }
  }

  /** Discarding a popped position that is marked already or not open keeps
      the queue sound and loses nothing. */
  lemma DiscardStep(g: Grid, before: set<Pos>, start: Pos, added: set<Pos>, queue: seq<Pos>)
    requires WellFormed(g)
    requires queue != []
    requires FillInvariant(g, before, start, added, queue)
    requires queue[0] in added || !Open(g, before, queue[0])
    ensures FillInvariant(g, before, start, added, queue[1..])
  {
    PopKeepsOthers(queue);
  }

  /** After marking the front of the queue and appending its neighbours,
      the frontier still covers everything reachable. */
  lemma VisitKeepsCover(g: Grid, before: set<Pos>, start: Pos, added: set<Pos>, queue: seq<Pos>)
    requires WellFormed(g)
    requires queue != []
    requires FrontierCovers(g, before, start, added, queue)
    ensures FrontierCovers(g, before, start, added + {queue[0]}, queue[1..] + Neighbors(queue[0]))
  {
    PopKeepsOthers(queue);
    var next := queue[1..] + Neighbors(queue[0]);
    assert forall x :: x in queue[1..] ==> x in next;
    assert forall x :: x in Neighbors(queue[0]) ==> x in next;
  }

  /** Appending the neighbours of a reachable cell keeps the queue sound. */
  lemma VisitKeepsSound(g: Grid, before: set<Pos>, start: Pos, queue: seq<Pos>)
    requires WellFormed(g)
    requires queue != [] && Open(g, before, queue[0])
    requires QueueSound(g, before, start, queue)
    ensures Reachable(g, before, start, queue[0])
    ensures QueueSound(g, before, start, queue[1..] + Neighbors(queue[0]))
  {
    var pos := queue[0];
    assert pos in queue;
    forall q | q in queue[1..] + Neighbors(pos) && Open(g, before, q)
      ensures Reachable(g, before, start, q)
    {
      if q in queue[1..] {
        assert q in queue;
      } else {
        ReachableStep(g, before, start, pos, q);
      }
    }
  }

  /** Marking a popped open position that is not yet marked, and queueing
      its four neighbours, keeps the invariant of the fill. */
  lemma VisitStep(g: Grid, before: set<Pos>, start: Pos, added: set<Pos>, queue: seq<Pos>)
    requires WellFormed(g)
    requires queue != [] && Open(g, before, queue[0]) && queue[0] !in added
    requires FillInvariant(g, before, start, added, queue)
    ensures |added + {queue[0]}| == |added| + 1 <= g.width * g.height
    ensures FillInvariant(g, before, start, added + {queue[0]}, queue[1..] + Neighbors(queue[0]))
  {
    SubsetSize(added + {queue[0]}, AllCells(g));
    VisitKeepsSound(g, before, start, queue);
    VisitKeepsCover(g, before, start, added, queue);
  }

  /** With the queue empty, the marked cells are exactly the region. */
  lemma FillComplete(g: Grid, before: set<Pos>, start: Pos, added: set<Pos>)
    requires WellFormed(g)
    requires FillInvariant(g, before, start, added, [])
    ensures added <= AllCells(g)
    ensures added == Region(g, before, start)
    ensures before !! added
    ensures forall p :: p in added ==> IsFree(g, p)
  {
    RegionIsLeast(g, before, start, added);
    RegionIsOpen(g, before, start);
  }

  /** The neighbour loop of the flood fill: appends the four cells one step
      from `pos` to the queue, in the order of direction values, with no
      check on any of them. */
  method EnqueueNeighbors(queue: seq<Pos>, pos: Pos) returns (queue': seq<Pos>)
    ensures queue' == queue + Neighbors(pos)
    ensures forall d :: Neighbor(pos, d) in queue'
  {
    queue' := queue;
    for dirValue := 0 to 4
      invariant queue' == queue + Neighbors(pos)[..dirValue]
    {
      var dir := DirectionFromValue(dirValue);
      var nextPos := Neighbor(pos, dir);
      queue' := queue' + [nextPos];
    }
    assert Neighbors(pos)[..4] == Neighbors(pos);
    forall d
      ensures Neighbor(pos, d) in queue'
    {
      assert queue'[|queue| + DirectionValue(d)] == Neighbor(pos, d);
    }
  }

  /** Flood-fill area estimator: a breadth-first walk from `start`. Every
      popped position is discarded when it is outside the grid, already
      visited or occupied; otherwise it is marked, counted, and its four
      neighbours are queued without any check. The cells it marks are exactly
      the region reachable from `start` through free cells not marked
      beforehand, and the area is their number; nothing else in `visited`
      changes. */
  method FloodFill(g: Grid, start: Pos, visited: array2<bool>) returns (area: nat)
    requires WellFormed(g)
    requires visited.Length0 == g.width && visited.Length1 == g.height
    modifies visited
    ensures Marked(visited) == old(Marked(visited)) + Region(g, old(Marked(visited)), start)
    ensures old(Marked(visited)) !! Region(g, old(Marked(visited)), start)
    ensures area == |Marked(visited) - old(Marked(visited))| == |Region(g, old(Marked(visited)), start)|
    ensures forall p :: p in Marked(visited) - old(Marked(visited)) ==> IsFree(g, p)
  {
    ghost var before := Marked(visited);
    ghost var added: set<Pos> := {};
    MarksAgreeInitially(g, visited);
    FillStart(g, before, start);
    var queue := [start];
    area := 0;
    while queue != []
      invariant MarksAgree(g, visited, before, added)
      invariant FillInvariant(g, before, start, added, queue)
      invariant area == |added|
      decreases g.width * g.height - |added|, |queue|
    {
      var pos := queue[0];
      ghost var queued := queue;
      queue := queue[1..];
      if !IsInsideGrid(g, pos) || visited[pos.x, pos.y] || GridCell(g, pos) != 0 {
        // out of the grid, already visited, or occupied: discard it
        DiscardStep(g, before, start, added, queued);
        continue;
      }
      visited[pos.x, pos.y] := true;
      MarkKeepsAgree(g, visited, before, added, pos);
      area := area + 1;
      queue := EnqueueNeighbors(queue, pos);
      VisitStep(g, before, start, added, queued);
      added := added + {pos};
    }
    FillComplete(g, before, start, added);
    MarkedFromAgree(g, visited, before, added);
    assert Marked(visited) - before == added;
  }

  /** The area the estimator reports for a legal move in direction `d`: the
      size of the free component of the landing cell. */
  ghost function Area(g: Grid, position: Pos, d: Direction): nat
    requires WellFormed(g)
  {
    |Component(g, Neighbor(position, d))|
  }

  /** A legal move always has a positive area, at most the number of cells. */
  lemma LegalMoveArea(g: Grid, position: Pos, d: Direction)
    requires WellFormed(g)
    requires IsValidMove(g, position, d)
    ensures 1 <= Area(g, position, d) <= g.width * g.height
  {
    RegionSize(g, {}, Neighbor(position, d));
  }

  /** The (direction, area) pairs the selector records for the directions
      with values below `n`, legal ones only, in value order. */
  ghost function Candidates(g: Grid, position: Pos, n: nat): (moves: seq<MoveArea>)
    requires WellFormed(g)
    requires n <= 4
    ensures forall m :: m in moves ==>
      IsValidMove(g, position, m.direction) && m.area == Area(g, position, m.direction)
      && DirectionValue(m.direction) < n
    ensures forall v :: 0 <= v < n && IsValidMove(g, position, DirectionFromValue(v)) ==>
      MoveArea(DirectionFromValue(v), Area(g, position, DirectionFromValue(v))) in moves
    ensures MovesInCanonicalOrder(moves)
  {
    if n == 0 then []
    else
      var d := DirectionFromValue(n - 1);
      Candidates(g, position, n - 1)
        + (if IsValidMove(g, position, d) then [MoveArea(d, Area(g, position, d))] else [])
  }

  /** The directions the selector chooses among. */
  ghost function BestMoves(g: Grid, position: Pos): seq<Direction>
    requires WellFormed(g)
  {
    BestOf(Candidates(g, position, 4))
  }

  /** The best moves are exactly the legal directions whose area is maximal
      among the legal directions, listed in value order; there are none
      exactly when no direction is legal. */
  lemma BestMovesAreMaximal(g: Grid, position: Pos)
    requires WellFormed(g)
    ensures forall d :: d in BestMoves(g, position) <==>
      IsValidMove(g, position, d) &&
      forall e :: IsValidMove(g, position, e) ==> Area(g, position, e) <= Area(g, position, d)
    ensures InCanonicalOrder(BestMoves(g, position))
    ensures BestMoves(g, position) == [] <==> forall d :: !IsValidMove(g, position, d)
  {
    var moves := Candidates(g, position, 4);
    var best := MaxArea(moves);
    forall d | IsValidMove(g, position, d)
      ensures MoveArea(d, Area(g, position, d)) in moves
    {
      DirectionValueRoundTrip(d);
    }
    forall d
      ensures d in BestMoves(g, position) <==>
        IsValidMove(g, position, d) &&
        forall e :: IsValidMove(g, position, e) ==> Area(g, position, e) <= Area(g, position, d)
    {
      if IsValidMove(g, position, d) &&
        forall e :: IsValidMove(g, position, e) ==> Area(g, position, e) <= Area(g, position, d)
      {
        var i :| 0 <= i < |moves| && moves[i].area == best;
        assert moves[i] in moves;
        assert MoveArea(d, Area(g, position, d)) in moves;
        assert Area(g, position, d) == best;
      }
    }
    TiesKeepOrder(moves, best);
    BestOfNonEmpty(moves);
    if moves != [] {
      assert moves[0] in moves;
    }
  }

  /** Move selector: evaluates the legal directions in value order with a
      fresh visited matrix each, then picks among the directions of maximal
      area with one draw of the random source, `draw(n)` being an index below
      n. With no legal direction the outcome is NoLegalMove. */
  method DecideMove(g: Grid, position: Pos, draw: nat -> nat) returns (decision: Decision)
    requires WellFormed(g)
    requires forall n: nat :: 0 < n ==> draw(n) < n
    ensures decision.NoLegalMove? <==> forall d :: !IsValidMove(g, position, d)
    ensures decision.Move? ==>
      var best := BestMoves(g, position);
      |best| > 0 && decision.direction == best[draw(|best|)]
    ensures decision.Move? ==> IsValidMove(g, position, decision.direction)
    ensures decision.Move? ==> forall d :: IsValidMove(g, position, d) ==>
      Area(g, position, d) <= Area(g, position, decision.direction)
  {
    var moves: seq<MoveArea> := [];
    for dirValue := 0 to 4
      invariant moves == Candidates(g, position, dirValue)
    {
      var dir := DirectionFromValue(dirValue);
      if IsValidMove(g, position, dir) {
        var newPos := Neighbor(position, dir);
        var visited := new bool[g.width, g.height]((_, _) => false);
        assert Marked(visited) == {} by {
          forall p ensures p !in Marked(visited) {
            MarkedAt(visited, p);
          }
        }
        var area := FloodFill(g, newPos, visited);
        moves := moves + [MoveArea(dir, area)];
      }
    }
    if moves == [] {
      BestMovesAreMaximal(g, position);
      return NoLegalMove;
    }
    var maxArea, bestMoves := SelectBest(moves);
    BestOfNonEmpty(moves);
    BestMovesAreMaximal(g, position);
    decision := Move(bestMoves[draw(|bestMoves|)]);
  }
}

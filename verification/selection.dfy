/** The second half of the move selector: from the recorded
    (direction, area) pairs, the maximal area and the directions that attain
    it, kept in the order they were recorded. */
module Selection {
  import opened GameGrid

  /** One recorded candidate: a legal direction and its reachable area. */
  datatype MoveArea = MoveArea(direction: Direction, area: nat)

  /** The largest area among the moves, or -1 (the selector's starting value)
      when there are none. */
  function MaxArea(moves: seq<MoveArea>): (m: int)
    ensures forall i :: 0 <= i < |moves| ==> moves[i].area <= m
    ensures moves == [] ==> m == -1
    ensures moves != [] ==> exists i :: 0 <= i < |moves| && moves[i].area == m
  {
    if moves == [] then -1
    else
      var rest := MaxArea(moves[..|moves| - 1]);
      var last := moves[|moves| - 1].area;
      if last > rest then last else rest
  }

  /** The directions of the moves whose area equals `a`, in recorded order. */
  function Ties(moves: seq<MoveArea>, a: int): (ds: seq<Direction>)
    ensures forall d :: d in ds ==> a >= 0 && MoveArea(d, a) in moves
    ensures forall m :: m in moves && m.area == a ==> m.direction in ds
    ensures |ds| <= |moves|
  {
    if moves == [] then []
    else
      var rest := Ties(moves[..|moves| - 1], a);
      var last := moves[|moves| - 1];
      assert moves == moves[..|moves| - 1] + [last];
      if last.area == a then rest + [last.direction] else rest
  }

  /** The directions attaining the maximal area. */
  function BestOf(moves: seq<MoveArea>): seq<Direction>
  {
    Ties(moves, MaxArea(moves))
  }

  /** Directions listed in strictly increasing numeric value. */
  predicate InCanonicalOrder(ds: seq<Direction>)
  {
    forall i, j :: 0 <= i < j < |ds| ==> DirectionValue(ds[i]) < DirectionValue(ds[j])
  }

  /** Moves whose directions are in strictly increasing numeric value. */
  predicate MovesInCanonicalOrder(moves: seq<MoveArea>)
  {
    forall i, j :: 0 <= i < j < |moves| ==> DirectionValue(moves[i].direction) < DirectionValue(moves[j].direction)
  }

  /** Filtering keeps the recorded order: moves in canonical order give ties in
      canonical order. */
  lemma {:induction false} TiesKeepOrder(moves: seq<MoveArea>, a: int)
    requires MovesInCanonicalOrder(moves)
    ensures InCanonicalOrder(Ties(moves, a))
  {
    if moves != [] {
      var prefix := moves[..|moves| - 1];
      var last := moves[|moves| - 1];
      assert MovesInCanonicalOrder(prefix);
      TiesKeepOrder(prefix, a);
      var rest := Ties(prefix, a);
      forall i | 0 <= i < |rest|
        ensures DirectionValue(rest[i]) < DirectionValue(last.direction)
      {
        assert rest[i] in rest;
      }
    }
  }

  /** There is a best move exactly when some move was recorded. */
  lemma BestOfNonEmpty(moves: seq<MoveArea>)
    ensures BestOf(moves) != [] <==> moves != []
  {
    if moves != [] {
      var i :| 0 <= i < |moves| && moves[i].area == MaxArea(moves);
      assert MoveArea(moves[i].direction, MaxArea(moves)) == moves[i];
      assert moves[i].direction in BestOf(moves);
    }
  }

  /** Once an area above every recorded one is seen, no earlier move ties it. */
  lemma TiesAboveMax(moves: seq<MoveArea>, a: int)
    requires a > MaxArea(moves)
    ensures Ties(moves, a) == []
  {
  }

  /** One step of the scan: the maximum over one more move. */
  lemma MaxAreaStep(moves: seq<MoveArea>, i: nat)
    requires i < |moves|
    ensures MaxArea(moves[..i + 1]) ==
      if moves[i].area > MaxArea(moves[..i]) then moves[i].area else MaxArea(moves[..i])
  {
    assert moves[..i + 1][..i] == moves[..i];
  }

  /** One step of the scan, on a move of area `a`: its direction joins the ties. */
  lemma TiesExtend(moves: seq<MoveArea>, i: nat, a: int)
    requires i < |moves| && moves[i].area == a
    ensures Ties(moves[..i + 1], a) == Ties(moves[..i], a) + [moves[i].direction]
  {
    assert moves[..i + 1][..i] == moves[..i];
  }

  /** One step of the scan, on a move of another area: the ties stay as they are. */
  lemma TiesSkip(moves: seq<MoveArea>, i: nat, a: int)
    requires i < |moves| && moves[i].area != a
    ensures Ties(moves[..i + 1], a) == Ties(moves[..i], a)
  {
    assert moves[..i + 1][..i] == moves[..i];
  }

  /** The selector's scan: one pass that keeps the largest area seen so far
      and the directions attaining it, restarting the list whenever a larger
      area appears. */
  method SelectBest(moves: seq<MoveArea>) returns (maxArea: int, bestMoves: seq<Direction>)
    ensures maxArea == MaxArea(moves)
    ensures bestMoves == BestOf(moves)
  {
    maxArea := -1;
    bestMoves := [];
    for i := 0 to |moves|
      invariant maxArea == MaxArea(moves[..i])
      invariant bestMoves == Ties(moves[..i], maxArea)
    {
      var move := moves[i];
      MaxAreaStep(moves, i);
      if move.area > maxArea {
        TiesAboveMax(moves[..i], move.area);
        TiesExtend(moves, i, move.area);
        maxArea := move.area;
        bestMoves := [move.direction];
      } else if move.area == maxArea {
        TiesExtend(moves, i, maxArea);
        bestMoves := bestMoves + [move.direction];
      } else {
        TiesSkip(moves, i, maxArea);
      }
    }
    assert moves[..|moves|] == moves;
  }
}

/** What the flood fill computes: the cells reachable from a start cell by
    four-connected steps through cells that are inside the grid, free, and
    not already marked visited when the fill begins. */
module Reachability {
  import opened GameGrid

  /** A cell the fill may enter: free, and not marked before the fill began. */
  predicate Open(g: Grid, marked: set<Pos>, p: Pos)
    requires WellFormed(g)
  {
    IsFree(g, p) && p !in marked
  }

  /** A non-empty walk of open cells, each one step from the one before. */
  ghost predicate IsOpenPath(g: Grid, marked: set<Pos>, path: seq<Pos>)
    requires WellFormed(g)
  {
    |path| > 0 &&
    (forall i :: 0 <= i < |path| ==> Open(g, marked, path[i])) &&
    (forall i, j :: 0 <= i && j == i + 1 && j < |path| ==> path[j] in Neighbors(path[i]))
  }

  /** `t` can be reached from `s` through open cells. */
  ghost predicate Reachable(g: Grid, marked: set<Pos>, s: Pos, t: Pos)
    requires WellFormed(g)
  {
    exists path :: IsOpenPath(g, marked, path) && path[0] == s && path[|path| - 1] == t
  }

  /** The cells a fill from `start` reaches when `marked` is already visited. */
  ghost function Region(g: Grid, marked: set<Pos>, start: Pos): set<Pos>
    requires WellFormed(g)
  {
    set p | p in AllCells(g) && Reachable(g, marked, start, p)
  }

  /** The 4-connected free component of `start` (nothing marked beforehand). */
  ghost function Component(g: Grid, start: Pos): set<Pos>
    requires WellFormed(g)
  {
    Region(g, {}, start)
  }

  /** A reachable cell is open. */
  lemma ReachableIsOpen(g: Grid, marked: set<Pos>, s: Pos, t: Pos)
    requires WellFormed(g)
    requires Reachable(g, marked, s, t)
    ensures Open(g, marked, s) && Open(g, marked, t)
  {
    var path :| IsOpenPath(g, marked, path) && path[0] == s && path[|path| - 1] == t;
    assert Open(g, marked, path[0]);
    assert Open(g, marked, path[|path| - 1]);
  }

  /** An open cell reaches itself. */
  lemma ReachableFromItself(g: Grid, marked: set<Pos>, s: Pos)
    requires WellFormed(g)
    requires Open(g, marked, s)
    ensures Reachable(g, marked, s, s)
  {
    assert IsOpenPath(g, marked, [s]);
  }

  /** One more step to an open neighbour keeps a cell reachable. */
  lemma ReachableStep(g: Grid, marked: set<Pos>, s: Pos, p: Pos, q: Pos)
    requires WellFormed(g)
    requires Reachable(g, marked, s, p)
    requires q in Neighbors(p) && Open(g, marked, q)
    ensures Reachable(g, marked, s, q)
  {
    var path :| IsOpenPath(g, marked, path) && path[0] == s && path[|path| - 1] == p;
    var longer := path + [q];
    assert IsOpenPath(g, marked, longer);
  }

  /** The region holds only open cells, so it never includes a marked cell, an
      occupied cell or a cell outside the grid. */
  lemma RegionIsOpen(g: Grid, marked: set<Pos>, start: Pos)
    requires WellFormed(g)
    ensures forall p :: p in Region(g, marked, start) ==> Open(g, marked, p)
  {
    forall p | p in Region(g, marked, start)
      ensures Open(g, marked, p)
    {
      ReachableIsOpen(g, marked, start, p);
    }
  }

  /** The region of an open start contains the start; the region of a start
      that is not open is empty. */
  lemma RegionOfStart(g: Grid, marked: set<Pos>, start: Pos)
    requires WellFormed(g)
    ensures Open(g, marked, start) ==> start in Region(g, marked, start)
    ensures !Open(g, marked, start) ==> Region(g, marked, start) == {}
  {
    if Open(g, marked, start) {
      ReachableFromItself(g, marked, start);
    } else {
      forall p | p in Region(g, marked, start)
        ensures false
      {
        ReachableIsOpen(g, marked, start, p);
      }
    }
  }

  /** The region is closed under stepping to an open neighbour. */
  lemma RegionIsClosed(g: Grid, marked: set<Pos>, start: Pos, p: Pos, q: Pos)
    requires WellFormed(g)
    requires p in Region(g, marked, start)
    requires q in Neighbors(p) && Open(g, marked, q)
    ensures q in Region(g, marked, start)
  {
    ReachableStep(g, marked, start, p, q);
  }

  /** A set closed under open steps. */
  ghost predicate ClosedUnderSteps(g: Grid, marked: set<Pos>, s: set<Pos>)
    requires WellFormed(g)
  {
    forall m, n :: m in s && n in Neighbors(m) && Open(g, marked, n) ==> n in s
  }

  /** A path that starts in a set closed under open steps stays in it. */
  lemma {:induction false} PathStaysInClosedSet(g: Grid, marked: set<Pos>, s: set<Pos>, path: seq<Pos>)
    requires WellFormed(g)
    requires IsOpenPath(g, marked, path)
    requires path[0] in s
    requires ClosedUnderSteps(g, marked, s)
    ensures path[|path| - 1] in s
    decreases |path|
  {
    if |path| > 1 {
      var prefix := path[..|path| - 1];
      assert IsOpenPath(g, marked, prefix);
      PathStaysInClosedSet(g, marked, s, prefix);
      assert path[|path| - 1] in Neighbors(path[|path| - 2]);
    }
  }

  /** The region is the least set that holds the open start and is closed under
      open steps; so any traversal that reaches such a set, in any order,
      has found at least the region (and exactly the region when everything
      it found is reachable). */
  lemma RegionIsLeast(g: Grid, marked: set<Pos>, start: Pos, s: set<Pos>)
    requires WellFormed(g)
    requires Open(g, marked, start) ==> start in s
    requires ClosedUnderSteps(g, marked, s)
    ensures Region(g, marked, start) <= s
  {
    forall p | p in Region(g, marked, start)
      ensures p in s
    {
      var path :| IsOpenPath(g, marked, path) && path[0] == start && path[|path| - 1] == p;
      assert Open(g, marked, path[0]);
      PathStaysInClosedSet(g, marked, s, path);
    }
  }

  /** Counting: an open start gives a region of at least one cell, and the
      region never has more cells than the grid has unmarked cells. */
  lemma RegionSize(g: Grid, marked: set<Pos>, start: Pos)
    requires WellFormed(g)
    ensures Open(g, marked, start) ==> 1 <= |Region(g, marked, start)|
    ensures |Region(g, marked, start)| <= |AllCells(g) - marked| <= g.width * g.height
  {
    RegionOfStart(g, marked, start);
    RegionIsOpen(g, marked, start);
    var r := Region(g, marked, start);
    assert r <= AllCells(g) - marked;
    SubsetSize(r, AllCells(g) - marked);
    SubsetSize(AllCells(g) - marked, AllCells(g));
  }

  lemma SubsetSize<T>(a: set<T>, b: set<T>)
    requires a <= b
    ensures |a| <= |b|
  {
    assert b == a + (b - a);
  }

  /** Walking a path backwards is a path, since adjacency is symmetric. */
  lemma {:induction false} ReversedPath(g: Grid, marked: set<Pos>, path: seq<Pos>)
    requires WellFormed(g)
    requires IsOpenPath(g, marked, path)
    ensures IsOpenPath(g, marked, Reverse(path))
    ensures Reverse(path)[0] == path[|path| - 1]
    ensures Reverse(path)[|path| - 1] == path[0]
  {
    var r := Reverse(path);
    forall i, j | 0 <= i && j == i + 1 && j < |r|
      ensures r[j] in Neighbors(r[i])
    {
      var k := |path| - 1 - j;
      assert r[j] == path[k] && r[i] == path[k + 1];
      NeighborsSymmetric(path[k], path[k + 1]);
    }
  }

  function Reverse(path: seq<Pos>): (r: seq<Pos>)
    ensures |r| == |path|
    ensures forall i :: 0 <= i < |path| ==> r[i] == path[|path| - 1 - i]
  {
    seq(|path|, i requires 0 <= i < |path| => path[|path| - 1 - i])
  }

  /** Joining two paths that meet at a cell gives a path. */
  lemma JoinedPath(g: Grid, marked: set<Pos>, p1: seq<Pos>, p2: seq<Pos>)
    requires WellFormed(g)
    requires IsOpenPath(g, marked, p1) && IsOpenPath(g, marked, p2)
    requires p1[|p1| - 1] == p2[0]
    ensures IsOpenPath(g, marked, p1 + p2[1..])
    ensures (p1 + p2[1..])[0] == p1[0]
    ensures (p1 + p2[1..])[|p1| + |p2| - 2] == p2[|p2| - 1]
  {
    var j := p1 + p2[1..];
    forall i, k | 0 <= i && k == i + 1 && k < |j|
      ensures j[k] in Neighbors(j[i])
    {
      if k >= |p1| {
        assert j[k] == p2[k - |p1| + 1] && j[i] == p2[k - |p1|];
      } else {
        assert j[k] == p1[k] && j[i] == p1[i];
      }
    }
  }

  /** Reachability is symmetric. */
  lemma ReachableSymmetric(g: Grid, marked: set<Pos>, s: Pos, t: Pos)
    requires WellFormed(g)
    requires Reachable(g, marked, s, t)
    ensures Reachable(g, marked, t, s)
  {
    var st :| IsOpenPath(g, marked, st) && st[0] == s && st[|st| - 1] == t;
    ReversedPath(g, marked, st);
  }

  /** Reachability is transitive. */
  lemma ReachableTransitive(g: Grid, marked: set<Pos>, s: Pos, t: Pos, u: Pos)
    requires WellFormed(g)
    requires Reachable(g, marked, s, t) && Reachable(g, marked, t, u)
    ensures Reachable(g, marked, s, u)
  {
    var st :| IsOpenPath(g, marked, st) && st[0] == s && st[|st| - 1] == t;
    var tu :| IsOpenPath(g, marked, tu) && tu[0] == t && tu[|tu| - 1] == u;
    JoinedPath(g, marked, st, tu);
  }

  /** Everything a cell of the region reaches lies in the region. */
  lemma RegionOfMemberIncluded(g: Grid, marked: set<Pos>, s: Pos, t: Pos)
    requires WellFormed(g)
    requires t in Region(g, marked, s)
    ensures Region(g, marked, t) <= Region(g, marked, s)
  {
    forall p | p in Region(g, marked, t)
      ensures p in Region(g, marked, s)
    {
      ReachableTransitive(g, marked, s, t, p);
    }
  }

  /** The cells a start reaches form its connected component: every member of
      the region of `s` reaches `s` back and has exactly the same region. */
  lemma RegionOfMember(g: Grid, marked: set<Pos>, s: Pos, t: Pos)
    requires WellFormed(g)
    requires t in Region(g, marked, s)
    ensures s in Region(g, marked, t)
    ensures Region(g, marked, t) == Region(g, marked, s)
  {
    ReachableSymmetric(g, marked, s, t);
    ReachableIsOpen(g, marked, s, t);
    RegionOfMemberIncluded(g, marked, s, t);
    RegionOfMemberIncluded(g, marked, t, s);
  }
}

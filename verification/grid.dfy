/** The game board as the bot sees it: integer positions, the four cardinal
    directions and their unit displacements, and the read-only grid of
    occupancy markers with its bounds check and cell lookup. */
module GameGrid {

  /** An (x, y) coordinate; it may lie outside the grid. */
  datatype Pos = Pos(x: int, y: int)

  /** The four cardinal directions, declared in the order of their numeric
      values 0, 1, 2, 3. */
  datatype Direction = North | East | South | West

  /** The numeric value of a direction. */
  function DirectionValue(d: Direction): (v: nat)
    ensures v < 4
  {
    match d
    case North => 0
    case East => 1
    case South => 2
    case West => 3
  }

  /** The direction with numeric value `v`; the inverse of DirectionValue. */
  function DirectionFromValue(v: nat): (d: Direction)
    requires v < 4
    ensures DirectionValue(d) == v
  {
    if v == 0 then North else if v == 1 then East else if v == 2 then South else West
  }

  lemma DirectionValueRoundTrip(d: Direction)
    ensures DirectionFromValue(DirectionValue(d)) == d
  {
  }

  /** The unit displacement of a direction; y grows downwards. */
  function DirectionVector(d: Direction): (v: Pos)
    ensures (if v.x < 0 then -v.x else v.x) + (if v.y < 0 then -v.y else v.y) == 1
  {
    match d
    case North => Pos(0, -1)
    case East => Pos(1, 0)
    case South => Pos(0, 1)
    case West => Pos(-1, 0)
  }

  /** The direction whose displacement undoes that of `d`. */
  function Opposite(d: Direction): (o: Direction)
    ensures DirectionVector(o) == Pos(-DirectionVector(d).x, -DirectionVector(d).y)
  {
    match d
    case North => South
    case East => West
    case South => North
    case West => East
  }

  /** The cell one step from `p` in direction `d`: a position plus the
      direction's displacement. It is four-adjacent to `p`. */
  function Neighbor(p: Pos, d: Direction): (q: Pos)
    ensures (if q.x < p.x then p.x - q.x else q.x - p.x) + (if q.y < p.y then p.y - q.y else q.y - p.y) == 1
  {
    Pos(p.x + DirectionVector(d).x, p.y + DirectionVector(d).y)
  }

  /** The four cells one step from `p`, in the order of direction values. */
  function Neighbors(p: Pos): (ns: seq<Pos>)
    ensures |ns| == 4
    ensures forall v :: 0 <= v < 4 ==> ns[v] == Neighbor(p, DirectionFromValue(v))
  {
    [Neighbor(p, North), Neighbor(p, East), Neighbor(p, South), Neighbor(p, West)]
  }

  /** Four-connected adjacency is symmetric. */
  lemma NeighborsSymmetric(p: Pos, q: Pos)
    requires q in Neighbors(p)
    ensures p in Neighbors(q)
  {
    var v :| 0 <= v < 4 && Neighbors(p)[v] == q;
    var d := DirectionFromValue(v);
    assert Neighbor(q, Opposite(d)) == p;
  }

  /** The grid: `cells[x][y]` is the occupancy marker of column x, row y;
      0 means free, any other value is the player owning the cell. */
  datatype Grid = Grid(width: nat, height: nat, cells: seq<seq<int>>)

  /** The grid holds exactly width columns of height cells each. */
  predicate WellFormed(g: Grid)
  {
    |g.cells| == g.width && forall x :: 0 <= x < |g.cells| ==> |g.cells[x]| == g.height
  }

  /** The bounds check of the game state, assumed to accept exactly the
      columns 0 .. width - 1 and the rows 0 .. height - 1; only a non-empty
      grid has a cell inside it. */
  function IsInsideGrid(g: Grid, p: Pos): (inside: bool)
    ensures inside ==> g.width > 0 && g.height > 0
  {
    0 <= p.x < g.width && 0 <= p.y < g.height
  }

  /** The occupancy marker at an in-bounds position, assumed to be stored
      in column x at row y. */
  function GridCell(g: Grid, p: Pos): (marker: int)
    requires WellFormed(g) && IsInsideGrid(g, p)
    ensures marker in g.cells[p.x]
  {
    g.cells[p.x][p.y]
  }

  /** A cell inside the grid whose marker is 0. */
  predicate IsFree(g: Grid, p: Pos)
    requires WellFormed(g)
  {
    IsInsideGrid(g, p) && GridCell(g, p) == 0
  }

  /** The cells Pos(x, 0) .. Pos(x, h - 1) of column x. */
  function Column(x: int, h: nat): (c: set<Pos>)
    ensures forall p :: p in c <==> p.x == x && 0 <= p.y < h
    ensures |c| == h
  {
    if h == 0 then {} else Column(x, h - 1) + {Pos(x, h - 1)}
  }

  /** The cells of a w-by-h rectangle anchored at the origin. */
  function Rectangle(w: nat, h: nat): (r: set<Pos>)
    ensures forall p :: p in r <==> 0 <= p.x < w && 0 <= p.y < h
    ensures |r| == w * h
  {
    if w == 0 then {}
    else
      var left := Rectangle(w - 1, h);
      assert left * Column(w - 1, h) == {};
      ProductStep(w, h);
      left + Column(w - 1, h)
  }

  lemma ProductStep(w: nat, h: nat)
    requires w > 0
    ensures (w - 1) * h + h == w * h
  {
  }

  /** Every cell of the grid: one per entry of a width-by-height marker matrix. */
  function AllCells(g: Grid): (cells: set<Pos>)
    ensures forall p :: p in cells <==> IsInsideGrid(g, p)
    ensures |cells| == g.width * g.height
  {
    Rectangle(g.width, g.height)
  }
}

/**
 The grid side of the BFS demos: the obstacle map, the passability test, the
 neighbour lists built from a direction list, the adjacency dictionary that is
 built once over the free cells, and the conversion from a pixel position to
 the grid cell under it.
 */
module Grid {

  /** A grid position: column `x`, row `y`. */
  datatype Cell = Cell(x: int, y: int)

  /** The obstacle map. `cells[y][x]` is 0 for a free tile; any other value is a wall. */
  datatype Board = Board(columns: nat, rows: nat, cells: seq<seq<int>>) {
    /** `rows` lists of `columns` entries each, as the generator builds them. */
    predicate WellFormed() {
      |cells| == rows && forall y :: 0 <= y < |cells| ==> |cells[y]| == columns
    }
  }

  /** A direction `(dx, dy)`. */
  type Offset = (int, int)

  /** The fixed direction list: left, up, right, down. */
  const Ways: seq<Offset> := [(-1, 0), (0, -1), (1, 0), (0, 1)]

  /** The adjacency dictionary: each key maps to its list of passable neighbours. */
  type Graph = map<Cell, seq<Cell>>

  /** The off-grid placeholder `(-1, -1)` the step-by-step demos start from: no board makes it passable. */
  const Sentinel := Cell(-1, -1)

  /** The dictionary lookup with an empty default, `graph.get(c, [])`. */
  function Lookup(g: Graph, c: Cell): seq<Cell> {
    if c in g then g[c] else []
  }

  function Shift(x: int, y: int, w: Offset): Cell {
    Cell(x + w.0, y + w.1)
  }

  /** The free tiles as the nested enumeration over rows and columns meets them. */
  ghost function FreeCells(b: Board): set<Cell> {
    set y, x | 0 <= y < |b.cells| && 0 <= x < |b.cells[y]| && b.cells[y][x] == 0 :: Cell(x, y)
  }

  /**
   The passability test: in bounds on both axes and a 0 in the map. The bounds
   are tested first, so the map is only indexed inside it.
   */
  predicate Passable(b: Board, x: int, y: int)
    requires b.WellFormed()
    ensures Passable(b, x, y) <==> Cell(x, y) in FreeCells(b)
  {
    0 <= x < b.columns && 0 <= y < b.rows && b.cells[y][x] == 0
  }

  /** The placeholder lies off every board, so it is never a free cell nor a key of an adjacency dictionary. */
  lemma SentinelOffGrid(b: Board)
    requires b.WellFormed()
    ensures !Passable(b, Sentinel.x, Sentinel.y) && Sentinel !in FreeCells(b)
  {
  }

  /** One step along some offset of `ways` from `(x, y)`. */
  ghost predicate Reaches(ways: seq<Offset>, x: int, y: int, c: Cell) {
    exists k :: 0 <= k < |ways| && c == Shift(x, y, ways[k])
  }

  /**
   The neighbour list: the passable cells among `(x + dx, y + dy)` for the
   offsets of `ways`, kept in the order of `ways`.
   */
  function NextNodes(b: Board, ways: seq<Offset>, x: int, y: int): (r: seq<Cell>)
    requires b.WellFormed()
    ensures |r| <= |ways|
    decreases |ways|
  {
    if ways == [] then [] else Candidate(b, x, y, ways[0]) + NextNodes(b, ways[1..], x, y)
  }

  /** A cell is listed exactly when it is passable and one offset of `ways` away. */
  lemma {:induction false} NextNodesMembers(b: Board, ways: seq<Offset>, x: int, y: int)
    requires b.WellFormed()
    ensures forall c :: c in NextNodes(b, ways, x, y) <==> Passable(b, c.x, c.y) && Reaches(ways, x, y, c)
    decreases |ways|
  {
    if ways != [] {
      var c := Shift(x, y, ways[0]);
      NextNodesMembers(b, ways[1..], x, y);
      forall d | Reaches(ways[1..], x, y, d) ensures Reaches(ways, x, y, d) {
        var k :| 0 <= k < |ways[1..]| && d == Shift(x, y, ways[1..][k]);
        assert ways[k + 1] == ways[1..][k];
      }
      forall d | Reaches(ways, x, y, d) && d != c ensures Reaches(ways[1..], x, y, d) {
        var k :| 0 <= k < |ways| && d == Shift(x, y, ways[k]);
        assert k != 0;
        assert ways[1..][k - 1] == ways[k];
      }
    }
  }

  /** Listing the offsets of `w1 + w2` lists the neighbours along `w1` first, then those along `w2`. */
  lemma {:induction false} NextNodesAppend(b: Board, w1: seq<Offset>, w2: seq<Offset>, x: int, y: int)
    requires b.WellFormed()
    ensures NextNodes(b, w1 + w2, x, y) == NextNodes(b, w1, x, y) + NextNodes(b, w2, x, y)
    decreases |w1|
  {
    if w1 == [] {
      assert w1 + w2 == w2;
    } else {
      var w := w1 + w2;
      assert w[0] == w1[0] && w[1..] == w1[1..] + w2;
      NextNodesAppend(b, w1[1..], w2, x, y);
    }
  }

  /** The neighbour list for a single offset is that one cell, when it is passable. */
  function Candidate(b: Board, x: int, y: int, w: Offset): seq<Cell>
    requires b.WellFormed()
  {
    var c := Shift(x, y, w);
    if Passable(b, c.x, c.y) then [c] else []
  }

  /** A list of four offsets yields its four candidates in order. */
  lemma NextNodesOfFour(b: Board, w: seq<Offset>, x: int, y: int)
    requires b.WellFormed() && |w| == 4
    ensures NextNodes(b, w, x, y)
         == Candidate(b, x, y, w[0]) + Candidate(b, x, y, w[1])
          + Candidate(b, x, y, w[2]) + Candidate(b, x, y, w[3])
  {
    var w1, w2, w3 := w[1..], w[2..], w[3..];
    assert w1[0] == w[1] && w1[1..] == w2;
    assert w2[0] == w[2] && w2[1..] == w3;
    assert w3[0] == w[3] && w3[1..] == [];
    assert NextNodes(b, w3, x, y) == Candidate(b, x, y, w[3]);
    assert NextNodes(b, w2, x, y) == Candidate(b, x, y, w[2]) + NextNodes(b, w3, x, y);
    assert NextNodes(b, w1, x, y) == Candidate(b, x, y, w[1]) + NextNodes(b, w2, x, y);
  }

  /** With the fixed direction list, the neighbours come left, up, right, down. */
  lemma NextNodesOfWays(b: Board, x: int, y: int)
    requires b.WellFormed()
    ensures NextNodes(b, Ways, x, y)
         == Candidate(b, x, y, (-1, 0)) + Candidate(b, x, y, (0, -1))
          + Candidate(b, x, y, (1, 0)) + Candidate(b, x, y, (0, 1))
  {
    NextNodesOfFour(b, Ways, x, y);
  }

  /** Every offset is one step along one axis. */
  ghost predicate UnitWays(ways: seq<Offset>) {
    forall k :: 0 <= k < |ways| ==> Abs(ways[k].0) + Abs(ways[k].1) == 1
  }

  function Abs(n: int): nat {
    if n < 0 then -n else n
  }

  /** Along unit offsets, and so along `Ways`, every neighbour is at Manhattan distance 1. */
  lemma NeighboursAreAdjacent(b: Board, ways: seq<Offset>, x: int, y: int)
    requires b.WellFormed() && UnitWays(ways)
    ensures forall c :: c in NextNodes(b, ways, x, y) ==> Abs(c.x - x) + Abs(c.y - y) == 1
  {
    NextNodesMembers(b, ways, x, y);
    forall c | c in NextNodes(b, ways, x, y) ensures Abs(c.x - x) + Abs(c.y - y) == 1 {
      assert Reaches(ways, x, y, c);
      var k :| 0 <= k < |ways| && c == Shift(x, y, ways[k]);
    }
  }

  lemma WaysAreUnit()
    ensures UnitWays(Ways)
  {
  }

  ghost predicate Distinct<T>(s: seq<T>) {
    forall i, j :: 0 <= i < j < |s| ==> s[i] != s[j]
  }

  /** Distinct offsets give a neighbour list without repeats. */
  lemma {:induction false} NextNodesDistinct(b: Board, ways: seq<Offset>, x: int, y: int)
    requires b.WellFormed() && Distinct(ways)
    ensures Distinct(NextNodes(b, ways, x, y))
    decreases |ways|
  {
    if ways != [] {
      var c := Shift(x, y, ways[0]);
      var rest := NextNodes(b, ways[1..], x, y);
      NextNodesDistinct(b, ways[1..], x, y);
      NextNodesMembers(b, ways[1..], x, y);
    }
  }

  /** Every cell listed in the graph is itself a key of the graph. */
  ghost predicate Closed(g: Graph) {
    forall c, n :: c in g && n in g[c] ==> n in g
  }

  /** The adjacency dictionary: one entry per free cell, its neighbour list along `ways`. */
  ghost function Adjacency(b: Board, ways: seq<Offset>): Graph
    requires b.WellFormed()
  {
    map c | c in FreeCells(b) :: NextNodes(b, ways, c.x, c.y)
  }

  /** The keys are exactly the passable cells, and the dictionary names no wall or off-grid cell. */
  lemma AdjacencyShape(b: Board, ways: seq<Offset>)
    requires b.WellFormed()
    ensures forall c :: c in Adjacency(b, ways) <==> Passable(b, c.x, c.y)
    ensures Closed(Adjacency(b, ways))
  {
    forall c | c in Adjacency(b, ways) {
      NextNodesMembers(b, ways, c.x, c.y);
    }
  }

  /** `c` comes before column `x` of row `y` in the row-by-row enumeration. */
  predicate Earlier(c: Cell, y: int, x: int) {
    c.y < y || (c.y == y && c.x < x)
  }

  /** The part of the dictionary the nested loops have built before column `x` of row `y`. */
  ghost predicate BuiltBefore(b: Board, ways: seq<Offset>, graph: Graph, y: int, x: int)
    requires b.WellFormed()
  {
    && (forall c :: c in graph <==> Passable(b, c.x, c.y) && Earlier(c, y, x))
    && (forall c :: c in graph ==> graph[c] == NextNodes(b, ways, c.x, c.y))
  }

  lemma BuiltAll(b: Board, ways: seq<Offset>, graph: Graph)
    requires b.WellFormed() && BuiltBefore(b, ways, graph, b.rows, 0)
    ensures graph == Adjacency(b, ways)
  {
  }

  /** The adjacency build: every free cell, row by row, gets its neighbour list. */
  method BuildGraph(b: Board, ways: seq<Offset>) returns (graph: Graph)
    requires b.WellFormed()
    ensures graph == Adjacency(b, ways)
  {
    graph := map[];
    var y := 0;
    while y < |b.cells|
      invariant 0 <= y <= |b.cells|
      invariant BuiltBefore(b, ways, graph, y, 0)
    {
      var row := b.cells[y];
      var x := 0;
      while x < |row|
        invariant 0 <= x <= |row| == b.columns
        invariant BuiltBefore(b, ways, graph, y, x)
      {
        if row[x] == 0 {
          graph := graph[Cell(x, y) := NextNodes(b, ways, x, y)];
        }
        x := x + 1;
      }
      y := y + 1;
    }
    BuiltAll(b, ways, graph);
  }

  /**
   The adjacency build that appends the neighbour list to the entry already
   present, if any. Each cell is met once, so that entry is always missing and
   the result is the same dictionary.
   */
  method BuildGraphAccumulating(b: Board, ways: seq<Offset>) returns (graph: Graph)
    requires b.WellFormed()
    ensures graph == Adjacency(b, ways)
  {
    graph := map[];
    var y := 0;
    while y < |b.cells|
      invariant 0 <= y <= |b.cells|
      invariant BuiltBefore(b, ways, graph, y, 0)
    {
      var row := b.cells[y];
      var x := 0;
      while x < |row|
        invariant 0 <= x <= |row| == b.columns
        invariant BuiltBefore(b, ways, graph, y, x)
      {
        if row[x] == 0 {
          var sofar := Lookup(graph, Cell(x, y));
          assert sofar == [];
          graph := graph[Cell(x, y) := sofar + NextNodes(b, ways, x, y)];
        }
        x := x + 1;
      }
      y := y + 1;
    }
    BuiltAll(b, ways, graph);
  }

  /**
   The cell under pixel `(px, py)` for tiles of `tileSize` pixels: the floor of
   each coordinate divided by the tile size (Dafny's `/` is the floor when the
   divisor is positive).
   */
  function CellAt(tileSize: int, px: int, py: int): (c: Cell)
    requires tileSize > 0
    ensures c.x * tileSize <= px < (c.x + 1) * tileSize
    ensures c.y * tileSize <= py < (c.y + 1) * tileSize
  {
    Cell(px / tileSize, py / tileSize)
  }

  /** The tile holding a pixel is unique: `CellAt` is the only cell whose square contains it. */
  lemma CellAtUnique(tileSize: int, p: int, k: int)
    requires tileSize > 0 && k * tileSize <= p < (k + 1) * tileSize
    ensures k == p / tileSize
  {
    var q := p / tileSize;
    MulStrict(k, q + 1, tileSize);
    MulStrict(q, k + 1, tileSize);
  }

  lemma MulStrict(a: int, b: int, t: int)
    requires t > 0 && a * t < b * t
    ensures a < b
  {
    assert (b - a) * t == b * t - a * t;
  }

  lemma MulMonotone(a: int, b: int, t: int)
    requires a <= b && t > 0
    ensures a * t <= b * t
  {
    assert b * t - a * t == (b - a) * t;
  }

  /** A pixel inside the window of `columns * tileSize` by `rows * tileSize` pixels. */
  predicate InWindow(b: Board, tileSize: int, px: int, py: int) {
    0 <= px < b.columns * tileSize && 0 <= py < b.rows * tileSize
  }

  /** A pixel inside the window lies over a cell inside the grid. */
  lemma InWindowInBounds(b: Board, tileSize: int, px: int, py: int)
    requires tileSize > 0 && InWindow(b, tileSize, px, py)
    ensures var c := CellAt(tileSize, px, py); 0 <= c.x < b.columns && 0 <= c.y < b.rows
  {
    var c := CellAt(tileSize, px, py);
    if c.x >= b.columns {
      MulMonotone(b.columns, c.x, tileSize);
    }
    if c.y >= b.rows {
      MulMonotone(b.rows, c.y, tileSize);
    }
    if c.x < 0 {
      MulMonotone(c.x + 1, 0, tileSize);
    }
    if c.y < 0 {
      MulMonotone(c.y + 1, 0, tileSize);
    }
  }
}

/**
 The compact step-by-step demo on a 50 by 30 grid of 15-pixel tiles. It works
 like the visualisation demo, with three differences: the direction list is
 a field that `SetWays` can replace, a step indexes the adjacency dictionary
 without a default, and the drawn path follows the parents until the root's
 missing parent without checking that each cell is a key.
 */
module BfsApp {
  import opened Grid
  import opened Search
  import opened Layers

  class App {
    const board: Board
    const tileSize: nat
    const graph: Graph
    const delay: nat
    /** The direction list that `GetNextNodes` reads; the dictionary was built with the initial one. */
    var ways: seq<Offset>
    var start: Cell
    var curNode: Cell
    var queue: seq<Cell>
    var visited: map<Cell, Option<Cell>>
    var time: nat
    var started: bool
    var running: bool
    /** Every cell of `visited`, in the order it was discovered. */
    ghost var order: seq<Cell>

    ghost predicate Valid()
      reads this
    {
      && board.WellFormed() && board.columns == 50 && board.rows == 30
      && tileSize == 15 && delay == 1
      && Closed(graph) && (forall c :: c in graph <==> Passable(board, c.x, c.y))
      && Invariant(graph, start, Traversal(queue, visited), order)
      && curNode in visited
      && (started ==> start in graph)
      && (!started ==> start == Sentinel && curNode == Sentinel && Traversal(queue, visited) == Begin(Sentinel))
    }

    /**
     The fixed grid size and tile size, the four directions, the adjacency
     lists built by appending to an absent entry, and the placeholder search
     state, not started and not paused.
     */
    constructor(board: Board)
      requires board.WellFormed() && board.columns == 50 && board.rows == 30
      ensures Valid()
      ensures this.board == board && tileSize == 15 && ways == Ways
      ensures graph == Adjacency(board, Ways)
      ensures start == Sentinel && curNode == Sentinel && Traversal(queue, visited) == Begin(Sentinel)
      ensures time == 0 && delay == 1 && !started && running
    {
      this.board := board;
      tileSize := 15;
      var w := Ways;
      ways := w;
      var g := BuildGraphAccumulating(board, w);
      AdjacencyShape(board, w);
      var s := Sentinel;
      BeginTree(g, s);
      BeginSettled(g, s);
      BeginLayered(g, s);
      graph := g;
      start := s;
      queue := [s];
      visited := map[s := None];
      curNode := s;
      time := 0;
      delay := 1;
      started := false;
      running := true;
      order := [s];
    }

    /** Replaces the direction list; the adjacency dictionary and the search state stay as they are. */
    method SetWays(w: seq<Offset>)
      requires Valid()
      modifies this
      ensures Valid() && ways == w
      ensures start == old(start) && curNode == old(curNode) && queue == old(queue) && visited == old(visited)
      ensures time == old(time) && started == old(started) && running == old(running) && order == old(order)
    {
      ways := w;
    }

    /** The neighbour list along the current direction list: the passable cells one offset of `ways` away, in order. */
    function GetNextNodes(x: int, y: int): (r: seq<Cell>)
      reads this
      requires board.WellFormed()
      ensures |r| <= |ways|
      ensures forall c :: c in r <==> Passable(board, c.x, c.y) && Reaches(ways, x, y, c)
    {
      NextNodesMembers(board, ways, x, y);
      NextNodes(board, ways, x, y)
    }

    /**
     The search logic of one frame and the frame counter: on a search frame
     of a started, running search with a non-empty queue, pop the front into
     `curNode` and queue its unvisited neighbours; otherwise change nothing.
     The delay is one frame, so under `Valid` the frame test always passes
     and the gate reduces to `started && running && queue != []`. Each
     expansion adds one expanded cell, and at most `Budget` cells are ever
     expanded, so a running search empties its queue within `Budget` frames.
     */
    method Step()
      requires Valid()
      modifies this
      ensures Valid()
      ensures time == old(time) + 1 && ways == old(ways)
      ensures start == old(start) && started == old(started) && running == old(running)
      ensures old(time % delay == 0 && started && running && queue != []) ==>
        && curNode == old(queue[0]) && Traversal(queue, visited) == Expand(graph, old(Traversal(queue, visited)))
        && |order| - |queue| == old(|order| - |queue|) + 1
      ensures !old(time % delay == 0 && started && running && queue != []) ==>
        curNode == old(curNode) && queue == old(queue) && visited == old(visited) && order == old(order)
      ensures |order| - |queue| <= Budget(graph, start)
      ensures |order| - |queue| == Budget(graph, start) ==> queue == []
      ensures forall c :: c in visited ==> Reachable(graph, start, c)
      ensures started && queue == [] ==> forall c :: c in visited <==> Reachable(graph, start, c)
    {
      if time % delay == 0 && started && running && queue != [] {
        Advance();
      }
      time := time + 1;
      var g, s := graph, start;
      ghost var o := order;
      StateSound(g, s, Traversal(queue, visited), o);
      ExpandedWithinBudget(g, s, Traversal(queue, visited), o);
    }

    /**
     The search logic proper: pop the front of the queue into `curNode` and
     queue its unvisited neighbours, read from the dictionary without a
     default, which is safe because every visited cell is a free one.
     */
    method Advance()
      requires Valid() && started && queue != []
      modifies this
      ensures Valid()
      ensures time == old(time) && ways == old(ways) && start == old(start) && started && running == old(running)
      ensures curNode == old(queue[0]) && Passable(board, curNode.x, curNode.y)
      ensures Traversal(queue, visited) == Expand(graph, old(Traversal(queue, visited)))
      ensures order == Grow(graph, old(Traversal(queue, visited)), old(order))
      ensures |order| - |queue| == old(|order| - |queue|) + 1
    {
      var g, s := graph, start;
      ghost var t, o := Traversal(queue, visited), order;
      ExpandKeepsInvariant(g, s, t, o);
      var cur := queue[0];
      assert cur in g by {
        VisitedInGraph(g, s, t, o);
      }
      var q, v := EnqueueUnseen(queue[1..], visited, cur, g[cur]);
      assert Traversal(q, v) == Expand(g, t);
      curNode, queue, visited, order := cur, q, v, Grow(g, t, o);
    }

    /**
     The cells of the drawn path: from `curNode` along the parents until a
     cell has none. Every parent is a key of `visited`, so the walk never
     leaves the dictionary, and it ends at the start. Read from the start it
     is a walk to `curNode`, and no walk from the start to `curNode` is shorter.
     */
    method PathCells() returns (path: seq<Cell>)
      requires Valid()
      ensures path != [] && path[0] == curNode && path[|path| - 1] == start
      ensures Chain(visited, start, path) && Distinct(path)
      ensures IsWalk(graph, Reverse(path))
      ensures forall w :: IsWalk(graph, w) && w[0] == start && w[|w| - 1] == curNode ==> |path| <= |w|
      ensures !started ==> path == [Sentinel]
    {
      var g, s := graph, start;
      ghost var t, o := Traversal(queue, visited), order;
      TreeParents(g, s, t, o);
      path := TracePathUnguarded(visited, curNode, s, o);
      WalkChain(visited, curNode, s, o);
      assert IsWalk(g, Reverse(path)) && forall w :: IsWalk(g, w) && w[0] == s && w[|w| - 1] == curNode ==> |path| <= |w| by {
        LayeredShortest(g, s, t, o);
        ShortestPath(g, s, t, o, curNode);
      }
    }

    /**
     A mouse button pressed over pixel `(px, py)` of the window: before the
     search starts, button 1 over a free cell starts a fresh search there;
     once started, button 3 pauses or resumes it; any other press changes
     nothing. The map is indexed without a bounds check, so a start click
     must lie inside the window.
     */
    method Click(button: int, px: int, py: int)
      requires Valid()
      requires !started && button == 1 ==> InWindow(board, tileSize, px, py)
      modifies this
      ensures Valid()
      ensures time == old(time) && ways == old(ways)
      ensures var c := CellAt(tileSize, px, py);
        if !old(started) && button == 1 && Passable(board, c.x, c.y) then
          && start == c && curNode == c && Traversal(queue, visited) == Begin(c)
          && started && running == old(running)
        else if old(started) && button == 3 then
          && running == !old(running) && started
          && start == old(start) && curNode == old(curNode) && queue == old(queue) && visited == old(visited)
        else
          && running == old(running) && started == old(started)
          && start == old(start) && curNode == old(curNode) && queue == old(queue) && visited == old(visited)
    {
      if !started && button == 1 {
        var c := CellAt(tileSize, px, py);
        InWindowInBounds(board, tileSize, px, py);
        if board.cells[c.y][c.x] == 0 {
          start, curNode := c, c;
          queue := [c];
          visited := map[c := None];
          curNode := start;
          started := !started;
          order := [c];
          assert Traversal(queue, visited) == Begin(c);
          var g := graph;
          BeginTree(g, c);
          BeginSettled(g, c);
          BeginLayered(g, c);
        }
      } else if started && button == 3 {
        running := !running;
      }
    }
  }
}

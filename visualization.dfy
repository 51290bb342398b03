/**
 The step-by-step demo: a left click on a free cell starts a search there,
 then every frame whose counter is a multiple of `delay` pops one cell and
 queues its unvisited neighbours, while a right click pauses and resumes.
 The drawn path runs from the last popped cell back to the start. Before
 the first click the state holds the off-grid placeholder `Sentinel`.
 */
module Visualization {
  import opened Grid
  import opened Search
  import opened Layers

  class App {
    const board: Board
    const tileSize: nat
    const graph: Graph
    const delay: nat
    var start: Cell
    var curNode: Cell
    var queue: seq<Cell>
    var visited: map<Cell, Option<Cell>>
    var time: nat
    var started: bool
    var running: bool
    /** Every cell of `visited`, in the order it was discovered. */
    ghost var order: seq<Cell>

    ghost predicate Valid()
      reads this
    {
      && board.WellFormed() && tileSize > 0 && delay == 1
      && Closed(graph) && Sentinel !in graph
      && Invariant(graph, start, Traversal(queue, visited), order)
      && curNode in visited
      && (started ==> start in graph)
      && (!started ==> start == Sentinel && curNode == Sentinel && Traversal(queue, visited) == Begin(Sentinel))
    }

    /** The adjacency lists over the free cells and the placeholder search state, not started and not paused. */
    constructor(board: Board, tileSize: nat)
      requires board.WellFormed() && tileSize > 0
      ensures Valid()
      ensures this.board == board && this.tileSize == tileSize
      ensures graph == Adjacency(board, Ways)
      ensures start == Sentinel && curNode == Sentinel && Traversal(queue, visited) == Begin(Sentinel)
      ensures time == 0 && !started && running
    {
      this.board := board;
      this.tileSize := tileSize;
      var g := BuildGraph(board, Ways);
      AdjacencyShape(board, Ways);
      var s := Sentinel;
      BeginTree(g, s);
      BeginSettled(g, s);
      BeginLayered(g, s);
      graph := g;
      delay := 1;
      start := s;
      curNode := s;
      queue := [s];
      visited := map[s := None];
      time := 0;
      started := false;
      running := true;
      order := [s];
    }

    /**
     The search logic of one frame and the frame counter: on a search frame
     of a started, running search with a non-empty queue, pop the front into
     `curNode` and queue its unvisited neighbours; otherwise change nothing.
     The delay is one frame, so under `Valid` the frame test always passes
     and the gate reduces to `started && running && queue != []`. Each
     expansion adds one expanded cell, and at most `Budget` cells are ever
     expanded, so a running search empties its queue within `Budget` frames.
     */
    method Step()
      requires Valid()
      modifies this
      ensures Valid()
      ensures time == old(time) + 1
      ensures start == old(start) && started == old(started) && running == old(running)
      ensures old(time % delay == 0 && started && running && queue != []) ==>
        && curNode == old(queue[0]) && Traversal(queue, visited) == Expand(graph, old(Traversal(queue, visited)))
        && |order| - |queue| == old(|order| - |queue|) + 1
      ensures !old(time % delay == 0 && started && running && queue != []) ==>
        curNode == old(curNode) && queue == old(queue) && visited == old(visited) && order == old(order)
      ensures |order| - |queue| <= Budget(graph, start)
      ensures |order| - |queue| == Budget(graph, start) ==> queue == []
      ensures forall c :: c in visited ==> Reachable(graph, start, c)
      ensures started && queue == [] ==> forall c :: c in visited <==> Reachable(graph, start, c)
    {
      if time % delay == 0 && started && running && queue != [] {
        Advance();
      }
      time := time + 1;
      var g, s := graph, start;
      ghost var o := order;
      StateSound(g, s, Traversal(queue, visited), o);
      ExpandedWithinBudget(g, s, Traversal(queue, visited), o);
    }

    /** The search logic proper: pop the front of the queue into `curNode` and queue its unvisited neighbours. */
    method Advance()
      requires Valid() && started && queue != []
      modifies this
      ensures Valid()
      ensures time == old(time) && start == old(start) && started && running == old(running)
      ensures curNode == old(queue[0]) && Traversal(queue, visited) == Expand(graph, old(Traversal(queue, visited)))
      ensures order == Grow(graph, old(Traversal(queue, visited)), old(order))
      ensures |order| - |queue| == old(|order| - |queue|) + 1
    {
      var g, s := graph, start;
      ghost var t, o := Traversal(queue, visited), order;
      var cur := queue[0];
      var q, v := EnqueueUnseen(queue[1..], visited, cur, Lookup(g, cur));
      ghost var o' := Grow(g, t, o);
      assert Traversal(q, v) == Expand(g, t);
      ExpandKeepsInvariant(g, s, t, o);
      curNode, queue, visited, order := cur, q, v, o';
    }

    /**
     The cells of the drawn path: from `curNode` along the parents, as long
     as the cell is a key of `visited`. Read from the start it is a walk to
     `curNode`, and no walk from the start to `curNode` is shorter.
     */
    method PathCells() returns (path: seq<Cell>)
      requires Valid()
      ensures path != [] && path[0] == curNode && Chain(visited, start, path)
      ensures Distinct(path)
      ensures IsWalk(graph, Reverse(path))
      ensures forall w :: IsWalk(graph, w) && w[0] == start && w[|w| - 1] == curNode ==> |path| <= |w|
      ensures !started ==> path == [Sentinel]
    {
      var g, s := graph, start;
      ghost var t, o := Traversal(queue, visited), order;
      TreeParents(g, s, t, o);
      path := TracePath(visited, curNode, s, o);
      WalkChain(visited, curNode, s, o);
      LayeredShortest(g, s, t, o);
      ShortestPath(g, s, t, o, curNode);
    }

    /**
     A mouse button pressed over pixel `(px, py)`: before the search starts,
     button 1 over a free cell starts a fresh search there; once started,
     button 3 pauses or resumes it; any other press changes nothing.
     */
    method Click(button: int, px: int, py: int)
      requires Valid()
      modifies this
      ensures Valid()
      ensures time == old(time)
      ensures var c := CellAt(tileSize, px, py);
        if !old(started) && button == 1 && c in graph then
          && start == c && curNode == c && Traversal(queue, visited) == Begin(c)
          && started && running == old(running)
        else if old(started) && button == 3 then
          && running == !old(running) && started
          && start == old(start) && curNode == old(curNode) && queue == old(queue) && visited == old(visited)
        else
          && running == old(running) && started == old(started)
          && start == old(start) && curNode == old(curNode) && queue == old(queue) && visited == old(visited)
    {
      if !started && button == 1 {
        var c := CellAt(tileSize, px, py);
        if c in graph {
          start := c;
          curNode := c;
          queue := [c];
          visited := map[c := None];
          started := true;
          order := [c];
          assert Traversal(queue, visited) == Begin(c);
          BeginTree(graph, c);
          BeginSettled(graph, c);
          BeginLayered(graph, c);
        }
      } else if started && button == 3 {
        running := !running;
      }
    }
  }
}

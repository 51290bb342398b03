/**
 The run-to-completion demo: every frame it searches afresh from `start`
 until it pops `goal` or runs out of cells, then draws the parent chain from
 `goal`. A left click on a free cell moves the goal, a right click the start.
 */
module Pathfinding {
  import opened Grid
  import opened Search
  import opened Layers

  class App {
    const board: Board
    const tileSize: nat
    const graph: Graph
    var start: Cell
    var goal: Cell
    var queue: seq<Cell>
    var visited: map<Cell, Option<Cell>>
    /** The start of the search that produced `queue` and `visited`; a right click changes `start` but not this. */
    ghost var origin: Cell
    /** Every cell of `visited`, in the order it was discovered. */
    ghost var order: seq<Cell>

    ghost predicate Valid()
      reads this
    {
      && board.WellFormed() && tileSize > 0
      && Closed(graph)
      && Tree(graph, origin, Traversal(queue, visited), order)
      && Shortest(graph, origin, visited, order)
    }

    /** The adjacency lists over the free cells, start and goal at the top-left cell, and a fresh search state. */
    constructor(board: Board, tileSize: nat)
      requires board.WellFormed() && tileSize > 0
      ensures Valid()
      ensures this.board == board && this.tileSize == tileSize
      ensures graph == Adjacency(board, Ways)
      ensures start == Cell(0, 0) && goal == start
      ensures Traversal(queue, visited) == Begin(start)
    {
      this.board := board;
      this.tileSize := tileSize;
      var g := BuildGraph(board, Ways);
      graph := g;
      start := Cell(0, 0);
      goal := Cell(0, 0);
      queue := [Cell(0, 0)];
      visited := map[Cell(0, 0) := None];
      origin := Cell(0, 0);
      order := [Cell(0, 0)];
      new;
      AdjacencyShape(board, Ways);
      BeginTree(graph, start);
      BeginSettled(graph, start);
      BeginLayered(graph, start);
      LayeredShortest(graph, start, Begin(start), [start]);
    }

    /**
     The search of one frame: restart from `start`, pop cells until the goal
     is popped or the queue is empty, and queue every unvisited neighbour of
     each other popped cell, recording its parent.
     */
    method Bfs()
      requires Valid()
      modifies this
      ensures Valid() && origin == start
      ensures start == old(start) && goal == old(goal)
      ensures Traversal(queue, visited) == Solve(graph, start, goal)
      ensures forall c :: c in visited ==> Reachable(graph, start, c)
      ensures goal in visited <==> Reachable(graph, start, goal)
    {
      queue := [start];
      visited := map[start := None];
      origin := start;
      order := [start];
      assert Traversal(queue, visited) == Begin(start);
      BeginTree(graph, start);
      BeginSettled(graph, start);
      BeginLayered(graph, start);
      LayeredShortest(graph, start, Begin(start), [start]);
      ghost var fuel: nat := Budget(graph, start);
      while queue != []
        invariant origin == start
        invariant Tree(graph, start, Traversal(queue, visited), order)
        invariant start == old(start) && goal == old(goal)
        invariant Settled(graph, Traversal(queue, visited), order)
        invariant Layered(graph, start, Traversal(queue, visited), order)
        invariant Shortest(graph, start, visited, order)
        invariant fuel + (|order| - |queue|) == Budget(graph, start)
        invariant Run(graph, goal, Traversal(queue, visited), fuel) == Solve(graph, start, goal)
        invariant queue == [] ==> Traversal(queue, visited) == Solve(graph, start, goal)
        decreases fuel
      {
        ghost var t := Traversal(queue, visited);
        var cur := queue[0];
        queue := queue[1..];
        if cur == goal {
          SearchFound(graph, start, goal, t, order, fuel);
          break;
        }
        queue, visited := EnqueueUnseen(queue, visited, cur, Lookup(graph, cur));
        SearchStep(graph, start, goal, t, order, fuel);
        ExpandKeepsLayered(graph, start, t, order);
        order := Grow(graph, t, order);
        LayeredShortest(graph, start, Traversal(queue, visited), order);
        fuel := fuel - 1;
      }
      SolveOutcome(graph, start, goal);
    }

    /**
     The cells of the drawn path: from `goal` along the parents, as long as
     the cell is a key of `visited`. When the goal was reached, the path read
     from the start is a walk to the goal, and no walk between them is shorter.
     */
    method PathCells() returns (path: seq<Cell>)
      requires Valid()
      ensures goal !in visited ==> path == []
      ensures goal in visited ==> path != [] && path[0] == goal && Chain(visited, origin, path)
      ensures goal in visited ==> IsWalk(graph, Reverse(path))
      ensures goal in visited ==> forall w :: IsWalk(graph, w) && w[0] == origin && w[|w| - 1] == goal ==> |path| <= |w|
      ensures Distinct(path)
      ensures goal == origin ==> path == [goal]
    {
      TreeParents(graph, origin, Traversal(queue, visited), order);
      path := TracePath(visited, goal, origin, order);
      if goal in visited {
        WalkChain(visited, goal, origin, order);
        ShortestPath(graph, origin, Traversal(queue, visited), order, goal);
      }
      if goal == origin {
        WalkRoot(visited, origin, order);
      }
    }

    /**
     A mouse button pressed over pixel `(px, py)`: over a free cell, button 1
     moves the goal there and button 3 the start; a click outside the grid
     (the caught index error) or on a wall changes nothing.
     */
    method Click(button: int, px: nat, py: nat)
      requires Valid()
      modifies this
      ensures Valid()
      ensures queue == old(queue) && visited == old(visited) && origin == old(origin) && order == old(order)
      ensures var c := CellAt(tileSize, px, py);
        && (Passable(board, c.x, c.y) && button == 1 ==> goal == c && start == old(start))
        && (Passable(board, c.x, c.y) && button == 3 ==> start == c && goal == old(goal))
        && (!Passable(board, c.x, c.y) || (button != 1 && button != 3) ==> start == old(start) && goal == old(goal))
    {
      var c := CellAt(tileSize, px, py);
      if Passable(board, c.x, c.y) {
        if button == 1 {
          goal := c;
        } else if button == 3 {
          start := c;
        }
      }
    }
  }
}

/**
 The breadth-first search engine the three demos share: the FIFO queue, the
 `visited` dictionary from each discovered cell to its parent (`None` for the
 start), one expansion step, the run-to-completion search with its early exit
 at the goal, and the walk back along the parents.

 The invariant that makes the engine work is stated over a ghost sequence
 `order`: every discovered cell in the order it was discovered. The queue is
 the not yet expanded tail of `order`, and the parent of each cell comes
 earlier in `order` and lists the cell among its neighbours.
 */
module Search {
  import opened Grid

  datatype Option<T> = None | Some(value: T)

  /** The traversal state: the queue and the parent of every discovered cell. */
  datatype Traversal = Traversal(queue: seq<Cell>, visited: map<Cell, Option<Cell>>)

  /** The state a search starts from: `deque([start])` and `{start: None}`. */
  function Begin(start: Cell): Traversal {
    Traversal([start], map[start := None])
  }

  /**
   The loop over the neighbours of `cur`: each one, in order, that is not yet
   in `visited` is appended to the queue and recorded with parent `cur`.
   */
  function Discover(t: Traversal, cur: Cell, nbrs: seq<Cell>): Traversal
    decreases |nbrs|
  {
    if nbrs == [] then t
    else if nbrs[0] in t.visited then Discover(t, cur, nbrs[1..])
    else Discover(Traversal(t.queue + [nbrs[0]], t.visited[nbrs[0] := Some(cur)]), cur, nbrs[1..])
  }

  /** The cells of `added` are new: none was visited before, and none occurs twice. */
  ghost predicate Unseen(added: seq<Cell>, visited: map<Cell, Option<Cell>>) {
    Distinct(added) && forall k :: 0 <= k < |added| ==> added[k] !in visited
  }

  /** One pass over the neighbours only appends to the queue, at most one cell per neighbour. */
  lemma {:induction false} DiscoverQueue(t: Traversal, cur: Cell, nbrs: seq<Cell>)
    ensures var r := Discover(t, cur, nbrs);
      |t.queue| <= |r.queue| <= |t.queue| + |nbrs| && r.queue[..|t.queue|] == t.queue
    decreases |nbrs|
  {
    if nbrs != [] {
      var n := nbrs[0];
      if n in t.visited {
        DiscoverQueue(t, cur, nbrs[1..]);
      } else {
        var t' := Traversal(t.queue + [n], t.visited[n := Some(cur)]);
        DiscoverQueue(t', cur, nbrs[1..]);
        var r := Discover(t', cur, nbrs[1..]);
        assert r.queue[..|t.queue|] == r.queue[..|t'.queue|][..|t.queue|];
      }
    }
  }

  /** One pass over the neighbours adds exactly the neighbours not yet visited, each with parent `cur`, and keeps every old entry. */
  lemma {:induction false} DiscoverVisited(t: Traversal, cur: Cell, nbrs: seq<Cell>)
    ensures var r := Discover(t, cur, nbrs);
      && (forall c :: c in r.visited <==> c in t.visited || c in nbrs)
      && (forall c :: c in t.visited ==> r.visited[c] == t.visited[c])
      && (forall c :: c in r.visited && c !in t.visited ==> r.visited[c] == Some(cur))
    decreases |nbrs|
  {
    if nbrs != [] {
      var n := nbrs[0];
      if n in t.visited {
        DiscoverVisited(t, cur, nbrs[1..]);
      } else {
        DiscoverVisited(Traversal(t.queue + [n], t.visited[n := Some(cur)]), cur, nbrs[1..]);
      }
    }
  }

  /** The cells one pass appends to the queue are new, never repeated, and exactly the new keys of `visited`. */
  lemma {:induction false} DiscoverAdded(t: Traversal, cur: Cell, nbrs: seq<Cell>)
    ensures var r := Discover(t, cur, nbrs);
      |t.queue| <= |r.queue|
      && Unseen(r.queue[|t.queue|..], t.visited)
      && (forall c :: c in r.queue[|t.queue|..] <==> c in r.visited && c !in t.visited)
    decreases |nbrs|
  {
    DiscoverQueue(t, cur, nbrs);
    if nbrs != [] {
      var n := nbrs[0];
      if n in t.visited {
        DiscoverAdded(t, cur, nbrs[1..]);
      } else {
        var t' := Traversal(t.queue + [n], t.visited[n := Some(cur)]);
        DiscoverAdded(t', cur, nbrs[1..]);
        DiscoverQueue(t', cur, nbrs[1..]);
        DiscoverVisited(t', cur, nbrs[1..]);
        var r := Discover(t', cur, nbrs[1..]);
        var rest := r.queue[|t'.queue|..];
        assert r.queue[|t.queue|..] == [n] + rest;
        UnseenCons(n, rest, t.visited, Some(cur));
      }
    }
  }

  /** A cell not yet visited, put ahead of cells new even after it was added, gives new cells. */
  lemma UnseenCons(n: Cell, rest: seq<Cell>, visited: map<Cell, Option<Cell>>, p: Option<Cell>)
    requires n !in visited && Unseen(rest, visited[n := p])
    ensures Unseen([n] + rest, visited)
  {
    var s := [n] + rest;
    forall i, j | 0 <= i < j < |s| ensures s[i] != s[j] {
      assert s[j] == rest[j - 1];
      if i > 0 {
        assert s[i] == rest[i - 1];
      }
    }
    forall k | 0 <= k < |s| ensures s[k] !in visited {
      if k > 0 {
        assert s[k] == rest[k - 1];
      }
    }
  }

  /**
   What one pass over the neighbours does: the queue only grows at its end,
   by cells not visited before and never twice; `visited` gains exactly the
   neighbours it lacked, each with parent `cur`, and keeps every old entry.
   */
  lemma DiscoverFacts(t: Traversal, cur: Cell, nbrs: seq<Cell>)
    ensures var r := Discover(t, cur, nbrs);
      && |t.queue| <= |r.queue| <= |t.queue| + |nbrs|
      && r.queue[..|t.queue|] == t.queue
      && Unseen(r.queue[|t.queue|..], t.visited)
      && (forall c :: c in r.queue[|t.queue|..] <==> c in r.visited && c !in t.visited)
      && (forall c :: c in r.visited <==> c in t.visited || c in nbrs)
      && (forall c :: c in t.visited ==> r.visited[c] == t.visited[c])
      && (forall c :: c in r.visited && c !in t.visited ==> r.visited[c] == Some(cur))
  {
    DiscoverQueue(t, cur, nbrs);
    DiscoverVisited(t, cur, nbrs);
    DiscoverAdded(t, cur, nbrs);
  }

  /** The loop over the neighbours of `cur`, updating the queue and `visited` as it goes. */
  method EnqueueUnseen(queue: seq<Cell>, visited: map<Cell, Option<Cell>>, cur: Cell, nbrs: seq<Cell>)
    returns (queue': seq<Cell>, visited': map<Cell, Option<Cell>>)
    ensures Traversal(queue', visited') == Discover(Traversal(queue, visited), cur, nbrs)
  {
    queue', visited' := queue, visited;
    for i := 0 to |nbrs|
      invariant Discover(Traversal(queue', visited'), cur, nbrs[i..]) == Discover(Traversal(queue, visited), cur, nbrs)
    {
      assert nbrs[i..][0] == nbrs[i] && nbrs[i..][1..] == nbrs[i + 1..];
      var next := nbrs[i];
      if next !in visited' {
        queue' := queue' + [next];
        visited' := visited'[next := Some(cur)];
      }
    }
    assert nbrs[|nbrs|..] == [];
  }

  /**
   One expansion: pop the front of the queue and discover its neighbours,
   `graph.get(cur, [])`, so that a cell without an entry adds nothing.
   */
  function Expand(graph: Graph, t: Traversal): Traversal
    requires t.queue != []
  {
    Discover(Traversal(t.queue[1..], t.visited), t.queue[0], Lookup(graph, t.queue[0]))
  }

  /** A popped cell without an entry in the dictionary adds nothing: the expansion only pops it. */
  lemma ExpandOffGraph(graph: Graph, t: Traversal)
    requires t.queue != [] && t.queue[0] !in graph
    ensures Expand(graph, t) == Traversal(t.queue[1..], t.visited)
  {
  }

  /** The cells one expansion appends to the queue. */
  ghost function Added(graph: Graph, t: Traversal): seq<Cell>
    requires t.queue != []
  {
    DiscoverFacts(Traversal(t.queue[1..], t.visited), t.queue[0], Lookup(graph, t.queue[0]));
    Expand(graph, t).queue[|t.queue| - 1..]
  }

  /** `order` after an expansion: the newly queued cells join its end. */
  ghost function Grow(graph: Graph, t: Traversal, order: seq<Cell>): seq<Cell>
    requires t.queue != []
  {
    order + Added(graph, t)
  }

  /** The parent of `order[i]` is discovered before it and lists it as a neighbour. */
  ghost predicate Linked(graph: Graph, visited: map<Cell, Option<Cell>>, order: seq<Cell>, i: int)
    requires 0 <= i < |order|
  {
    && order[i] in visited
    && visited[order[i]].Some?
    && visited[order[i]].value in order[..i]
    && order[i] in Lookup(graph, visited[order[i]].value)
  }

  /**
   The bookkeeping invariant: `order` starts at `root`, repeats no cell and
   holds exactly the keys of `visited`; the queue is a tail of `order`; the
   root has no parent and every other cell is linked to an earlier one.
   */
  ghost predicate Tree(graph: Graph, root: Cell, t: Traversal, order: seq<Cell>) {
    && |order| >= 1 && order[0] == root
    && Distinct(order)
    && (forall c :: c in t.visited <==> c in order)
    && Suffix(t.queue, order)
    && root in t.visited && t.visited[root] == None
    && (forall i :: 1 <= i < |order| ==> Linked(graph, t.visited, order, i))
  }

  /**
   `q` is a tail of `o`. Stated by recursion rather than as a slice so that
   the solver unfolds it only as far as a proof asks; `SuffixDrop` gives the
   slice form.
   */
  ghost predicate Suffix(q: seq<Cell>, o: seq<Cell>)
    decreases |o|
  {
    && |q| <= |o|
    && (|q| == |o| ==> q == o)
    && (|q| < |o| ==> Suffix(q, o[1..]))
  }

  lemma {:induction false} SuffixDrop(q: seq<Cell>, o: seq<Cell>)
    ensures Suffix(q, o) <==> |q| <= |o| && q == o[|o| - |q|..]
    decreases |o|
  {
    if |q| < |o| {
      SuffixDrop(q, o[1..]);
      assert o[1..][|o| - 1 - |q|..] == o[|o| - |q|..];
    }
  }

  /** The queue holds only visited cells, each at most once. */
  lemma QueueVisited(graph: Graph, root: Cell, t: Traversal, order: seq<Cell>)
    requires Tree(graph, root, t, order)
    ensures forall i :: 0 <= i < |t.queue| ==> t.queue[i] in t.visited
    ensures Distinct(t.queue)
  {
    SuffixDrop(t.queue, order);
    var k := |order| - |t.queue|;
    forall i | 0 <= i < |t.queue| ensures t.queue[i] == order[k + i] && t.queue[i] in t.visited {
    }
  }

  /** Every expanded cell, the part of `order` before the queue, has all its neighbours visited. */
  ghost predicate Settled(graph: Graph, t: Traversal, order: seq<Cell>) {
    forall i, n {:trigger n in Lookup(graph, order[i])} :: 0 <= i < |order| - |t.queue| && n in Lookup(graph, order[i]) ==> n in t.visited
  }

  /** The start state satisfies the invariant, with `order == [start]`. */
  lemma BeginTree(graph: Graph, start: Cell)
    ensures Tree(graph, start, Begin(start), [start])
  {
  }

  /** In the start state nothing is expanded yet. */
  lemma BeginSettled(graph: Graph, start: Cell)
    ensures Settled(graph, Begin(start), [start])
  {
  }

  /** The shape of one expansion: the popped queue, then the newly discovered cells, which also extend `order`. */
  lemma ExpandShape(graph: Graph, t: Traversal)
    requires t.queue != []
    ensures var r := Expand(graph, t); var added := Added(graph, t);
      && r.queue == t.queue[1..] + added
      && Unseen(added, t.visited)
      && (forall c :: c in added <==> c in r.visited && c !in t.visited)
      && (forall c :: c in r.visited <==> c in t.visited || c in Lookup(graph, t.queue[0]))
      && (forall c :: c in t.visited ==> r.visited[c] == t.visited[c])
      && (forall c :: c in r.visited && c !in t.visited ==> r.visited[c] == Some(t.queue[0]))
  {
    var t0 := Traversal(t.queue[1..], t.visited);
    DiscoverFacts(t0, t.queue[0], Lookup(graph, t.queue[0]));
    var r := Expand(graph, t);
    assert r.queue == r.queue[..|t0.queue|] + r.queue[|t0.queue|..];
  }

  /** Appending cells not yet in a repetition-free sequence keeps it repetition-free. */
  lemma DistinctAppend(order: seq<Cell>, added: seq<Cell>, visited: map<Cell, Option<Cell>>)
    requires Distinct(order) && (forall c :: c in visited <==> c in order) && Unseen(added, visited)
    ensures Distinct(order + added)
  {
    var o := order + added;
    forall i, j | 0 <= i < j < |o| ensures o[i] != o[j] {
      if j >= |order| && i < |order| {
        assert o[j] == added[j - |order|];
        assert o[i] in visited;
      } else if i >= |order| {
        assert o[i] == added[i - |order|] && o[j] == added[j - |order|];
      }
    }
  }

  /** After an expansion the queue is still the tail of the grown `order`. */
  lemma ExpandQueueTail(graph: Graph, root: Cell, t: Traversal, order: seq<Cell>)
    requires Tree(graph, root, t, order) && t.queue != []
    ensures var r := Expand(graph, t); var order' := Grow(graph, t, order);
      Suffix(r.queue, order')
  {
    ExpandShape(graph, t);
    SuffixDrop(t.queue, order);
    var k := |order| - |t.queue|;
    var added := Added(graph, t);
    var r := Expand(graph, t);
    var order' := Grow(graph, t, order);
    assert t.queue[1..] == order[k + 1..];
    assert order'[k + 1..] == order[k + 1..] + added;
    SuffixDrop(r.queue, order');
  }

  /** After an expansion the keys of `visited` are still exactly the cells of `order`. */
  lemma ExpandKeys(graph: Graph, root: Cell, t: Traversal, order: seq<Cell>)
    requires Tree(graph, root, t, order) && t.queue != []
    ensures forall c :: c in Expand(graph, t).visited <==> c in Grow(graph, t, order)
  {
    ExpandShape(graph, t);
  }

  /** After an expansion every cell but the root is still linked to an earlier parent. */
  lemma ExpandLinked(graph: Graph, root: Cell, t: Traversal, order: seq<Cell>)
    requires Tree(graph, root, t, order) && t.queue != []
    ensures var r := Expand(graph, t); var order' := Grow(graph, t, order);
      forall i :: 1 <= i < |order'| ==> Linked(graph, r.visited, order', i)
  {
    var cur := t.queue[0];
    var r := Expand(graph, t);
    ExpandShape(graph, t);
    var order' := Grow(graph, t, order);
    SuffixDrop(t.queue, order);
    var k := |order| - |t.queue|;
    assert order[k] == cur;
    forall i | 1 <= i < |order'| ensures Linked(graph, r.visited, order', i) {
      if i < |order| {
        assert Linked(graph, t.visited, order, i);
        assert order'[..i] == order[..i];
      } else {
        var c := order'[i];
        assert c in Added(graph, t);
        assert order'[..i][k] == cur;
      }
    }
  }

  /**
   One expansion keeps the invariant: the popped cell becomes expanded, its
   new neighbours join `order` and the queue, each linked to the popped cell.
   */
  lemma ExpandKeepsTree(graph: Graph, root: Cell, t: Traversal, order: seq<Cell>)
    requires Tree(graph, root, t, order) && t.queue != []
    ensures Tree(graph, root, Expand(graph, t), Grow(graph, t, order))
  {
    ExpandShape(graph, t);
    DistinctAppend(order, Added(graph, t), t.visited);
    ExpandQueueTail(graph, root, t, order);
    ExpandKeys(graph, root, t, order);
    ExpandLinked(graph, root, t, order);
  }

  /** One expansion keeps every expanded cell's neighbours visited, and the popped cell is now expanded. */
  lemma ExpandKeepsSettled(graph: Graph, root: Cell, t: Traversal, order: seq<Cell>)
    requires Tree(graph, root, t, order) && Settled(graph, t, order) && t.queue != []
    ensures Settled(graph, Expand(graph, t), Grow(graph, t, order))
  {
    var r := Expand(graph, t);
    ExpandShape(graph, t);
    var order' := Grow(graph, t, order);
    SuffixDrop(t.queue, order);
    SuffixDrop(r.queue, order');
    var k := |order| - |t.queue|;
    assert order[k] == t.queue[0];
    forall i, n | 0 <= i < |order'| - |r.queue| && n in Lookup(graph, order'[i]) ensures n in r.visited {
      assert i <= k && order'[i] == order[i];
      if i < k {
        assert n in t.visited;
      }
    }
  }

  /** One expansion keeps both invariants. */
  lemma ExpandKeeps(graph: Graph, root: Cell, t: Traversal, order: seq<Cell>)
    requires Tree(graph, root, t, order) && Settled(graph, t, order) && t.queue != []
    ensures Tree(graph, root, Expand(graph, t), Grow(graph, t, order))
    ensures Settled(graph, Expand(graph, t), Grow(graph, t, order))
    ensures t.queue[0] in t.visited && t.queue[0] in Expand(graph, t).visited
  {
    ExpandKeepsTree(graph, root, t, order);
    ExpandKeepsSettled(graph, root, t, order);
    PopKeepsTree(graph, root, t, order);
    ExpandShape(graph, t);
  }

  /** A position of `c` in `s`; in a sequence without repeats, the only one. */
  ghost function IndexOf(s: seq<Cell>, c: Cell): (k: nat)
    requires c in s
    ensures k < |s| && s[k] == c
  {
    var k :| 0 <= k < |s| && s[k] == c; k
  }

  /** What `Tree` says about one key of `visited`: only the root lacks a parent, and a parent is an earlier key that lists the cell. */
  lemma ParentOf(graph: Graph, root: Cell, t: Traversal, order: seq<Cell>, c: Cell)
    requires Tree(graph, root, t, order) && c in t.visited
    ensures t.visited[c] == None <==> c == root
    ensures t.visited[c].Some? ==>
      var p := t.visited[c].value;
      p in t.visited && IndexOf(order, p) < IndexOf(order, c) && c in Lookup(graph, p)
  {
    var i := IndexOf(order, c);
    if i >= 1 {
      assert Linked(graph, t.visited, order, i);
      var p := t.visited[c].value;
      var j :| 0 <= j < i && order[j] == p;
      assert IndexOf(order, p) == j;
    }
  }

  /** A walk: consecutive cells are adjacent in `graph`. */
  ghost predicate IsWalk(graph: Graph, w: seq<Cell>) {
    |w| >= 1 && forall i :: 0 <= i < |w| - 1 ==> w[i + 1] in Lookup(graph, w[i])
  }

  /** `c` can be reached from `root` along the adjacency lists. */
  ghost predicate Reachable(graph: Graph, root: Cell, c: Cell) {
    exists w :: IsWalk(graph, w) && w[0] == root && w[|w| - 1] == c
  }

  lemma {:induction false} OrderReachable(graph: Graph, root: Cell, t: Traversal, order: seq<Cell>, i: nat)
    requires Tree(graph, root, t, order) && i < |order|
    ensures Reachable(graph, root, order[i])
    decreases i
  {
    if i == 0 {
      assert IsWalk(graph, [root]);
    } else {
      assert Linked(graph, t.visited, order, i);
      var p := t.visited[order[i]].value;
      var j :| 0 <= j < i && order[j] == p;
      OrderReachable(graph, root, t, order, j);
      var w :| IsWalk(graph, w) && w[0] == root && w[|w| - 1] == p;
      WalkSnoc(graph, w, order[i]);
    }
  }

  /** A walk extended by a neighbour of its last cell is a walk with the same first cell. */
  lemma WalkSnoc(graph: Graph, w: seq<Cell>, c: Cell)
    requires IsWalk(graph, w) && c in Lookup(graph, w[|w| - 1])
    ensures var w' := w + [c]; IsWalk(graph, w') && w'[0] == w[0] && w'[|w'| - 1] == c
  {
    var w' := w + [c];
    forall i | 0 <= i < |w'| - 1 ensures w'[i + 1] in Lookup(graph, w'[i]) {
      if i < |w| - 1 {
        assert w'[i] == w[i] && w'[i + 1] == w[i + 1];
      }
    }
  }

  /** Every key of `visited` is reachable from the root. */
  lemma TreeSound(graph: Graph, root: Cell, t: Traversal, order: seq<Cell>)
    requires Tree(graph, root, t, order)
    ensures forall c :: c in t.visited ==> Reachable(graph, root, c)
  {
    forall c | c in t.visited ensures Reachable(graph, root, c) {
      OrderReachable(graph, root, t, order, IndexOf(order, c));
    }
  }

  /** A set closed under the adjacency lists that holds the first cell of a walk holds its last. */
  lemma {:induction false} ClosedHoldsWalk(graph: Graph, visited: map<Cell, Option<Cell>>, w: seq<Cell>)
    requires forall c, n :: c in visited && n in Lookup(graph, c) ==> n in visited
    requires IsWalk(graph, w) && w[0] in visited
    ensures w[|w| - 1] in visited
    decreases |w|
  {
    if |w| > 1 {
      var v := w[..|w| - 1];
      assert IsWalk(graph, v) by {
        forall i | 0 <= i < |v| - 1 ensures v[i + 1] in Lookup(graph, v[i]) {
          assert v[i] == w[i] && v[i + 1] == w[i + 1];
        }
      }
      ClosedHoldsWalk(graph, visited, v);
      assert w[|w| - 1] in Lookup(graph, w[|w| - 2]);
    }
  }

  /** Once the queue is empty, `visited` holds exactly the cells reachable from the root. */
  lemma ExhaustedIsComplete(graph: Graph, root: Cell, t: Traversal, order: seq<Cell>)
    requires Tree(graph, root, t, order) && Settled(graph, t, order) && t.queue == []
    ensures forall c :: c in t.visited <==> Reachable(graph, root, c)
  {
    TreeSound(graph, root, t, order);
    forall c | Reachable(graph, root, c) ensures c in t.visited {
      var w :| IsWalk(graph, w) && w[0] == root && w[|w| - 1] == c;
      forall d, n | d in t.visited && n in Lookup(graph, d) ensures n in t.visited {
        assert order[IndexOf(order, d)] == d;
      }
      ClosedHoldsWalk(graph, t.visited, w);
    }
  }

  /** What any state with both invariants tells about reachability: visited cells are reachable, and all of them once the queue is empty. */
  lemma StateSound(graph: Graph, root: Cell, t: Traversal, order: seq<Cell>)
    requires Tree(graph, root, t, order) && Settled(graph, t, order)
    ensures forall c :: c in t.visited ==> Reachable(graph, root, c)
    ensures t.queue == [] ==> forall c :: c in t.visited <==> Reachable(graph, root, c)
  {
    TreeSound(graph, root, t, order);
    if t.queue == [] {
      ExhaustedIsComplete(graph, root, t, order);
    }
  }

  /** The most cells a search from `root` can discover: the keys of `graph` and the root. */
  ghost function Budget(graph: Graph, root: Cell): nat {
    |graph.Keys + {root}|
  }

  lemma {:induction false} DistinctWithin(s: seq<Cell>, bound: set<Cell>)
    requires Distinct(s) && forall i :: 0 <= i < |s| ==> s[i] in bound
    ensures |s| <= |bound|
    decreases |s|
  {
    if s != [] {
      DistinctWithin(s[1..], bound - {s[0]});
    }
  }

  /** In a closed graph, a search discovers at most `Budget` cells. */
  lemma TreeWithinBudget(graph: Graph, root: Cell, t: Traversal, order: seq<Cell>)
    requires Tree(graph, root, t, order) && Closed(graph)
    ensures |order| <= Budget(graph, root)
  {
    forall i | 0 <= i < |order| ensures order[i] in graph.Keys + {root} {
      if i > 0 {
        assert Linked(graph, t.visited, order, i);
      }
    }
    DistinctWithin(order, graph.Keys + {root});
  }

  /**
   In a closed graph at most `Budget` cells are ever expanded, and once that
   many are the queue is empty: a search that expands one cell per step has
   finished after `Budget` steps.
   */
  lemma ExpandedWithinBudget(graph: Graph, root: Cell, t: Traversal, order: seq<Cell>)
    requires Tree(graph, root, t, order) && Closed(graph)
    ensures |t.queue| <= |order| && |order| - |t.queue| <= Budget(graph, root)
    ensures |order| - |t.queue| == Budget(graph, root) ==> t.queue == []
  {
    TreeWithinBudget(graph, root, t, order);
  }

  /** In a closed graph, a search from a key of the graph only visits keys. */
  lemma VisitedInGraph(graph: Graph, root: Cell, t: Traversal, order: seq<Cell>)
    requires Tree(graph, root, t, order) && Closed(graph) && root in graph
    ensures forall c :: c in t.visited ==> c in graph
  {
    forall c | c in t.visited ensures c in graph {
      var i := IndexOf(order, c);
      if i > 0 {
        assert Linked(graph, t.visited, order, i);
      }
    }
  }

  /**
   The run-to-completion search: pop the front; stop at once when it is the
   goal; otherwise expand it; stop when the queue is empty. `fuel` bounds the
   number of pops: `Budget` pops always suffice (see `RunOutcome`).
   */
  function Run(graph: Graph, goal: Cell, t: Traversal, fuel: nat): Traversal
    decreases fuel
  {
    if fuel == 0 || t.queue == [] then t
    else if t.queue[0] == goal then Traversal(t.queue[1..], t.visited)
    else Run(graph, goal, Expand(graph, t), fuel - 1)
  }

  /** The search from `start` for `goal`, from a fresh state. */
  ghost function Solve(graph: Graph, start: Cell, goal: Cell): Traversal {
    Run(graph, goal, Begin(start), Budget(graph, start))
  }

  /** `order` at the end of `Run`: it grows by `Grow` at every expansion. */
  ghost function RunOrder(graph: Graph, goal: Cell, t: Traversal, order: seq<Cell>, fuel: nat): seq<Cell>
    decreases fuel
  {
    if fuel == 0 || t.queue == [] || t.queue[0] == goal then order
    else RunOrder(graph, goal, Expand(graph, t), Grow(graph, t, order), fuel - 1)
  }

  /** A step of `Run` that neither stops nor finds the goal expands the front of the queue. */
  lemma RunStep(graph: Graph, goal: Cell, t: Traversal, order: seq<Cell>, fuel: nat)
    requires fuel != 0 && t.queue != [] && t.queue[0] != goal
    ensures Run(graph, goal, t, fuel) == Run(graph, goal, Expand(graph, t), fuel - 1)
    ensures RunOrder(graph, goal, t, order, fuel) == RunOrder(graph, goal, Expand(graph, t), Grow(graph, t, order), fuel - 1)
  {
  }

  /**
   One pass of the search loop that expands instead of stopping keeps the
   invariant, spends one unit of fuel and leaves the outcome of `Run` as it was.
   */
  lemma SearchStep(graph: Graph, root: Cell, goal: Cell, t: Traversal, order: seq<Cell>, fuel: nat)
    requires Closed(graph) && Tree(graph, root, t, order) && Settled(graph, t, order)
    requires t.queue != [] && t.queue[0] != goal
    requires fuel + (|order| - |t.queue|) == Budget(graph, root)
    ensures fuel > 0
    ensures Tree(graph, root, Expand(graph, t), Grow(graph, t, order))
    ensures Settled(graph, Expand(graph, t), Grow(graph, t, order))
    ensures (fuel - 1) + (|Grow(graph, t, order)| - |Expand(graph, t).queue|) == Budget(graph, root)
    ensures Run(graph, goal, t, fuel) == Run(graph, goal, Expand(graph, t), fuel - 1)
  {
    TreeWithinBudget(graph, root, t, order);
    ExpandKeepsTree(graph, root, t, order);
    ExpandKeepsSettled(graph, root, t, order);
    ExpandCount(graph, t, order);
    RunStep(graph, goal, t, order, fuel);
  }

  /** A pass of the search loop that pops the goal ends the search with the goal popped and the invariant kept. */
  lemma SearchFound(graph: Graph, root: Cell, goal: Cell, t: Traversal, order: seq<Cell>, fuel: nat)
    requires Closed(graph) && Tree(graph, root, t, order)
    requires t.queue != [] && t.queue[0] == goal
    requires fuel + (|order| - |t.queue|) == Budget(graph, root)
    ensures Tree(graph, root, Traversal(t.queue[1..], t.visited), order)
    ensures Run(graph, goal, t, fuel) == Traversal(t.queue[1..], t.visited)
  {
    TreeWithinBudget(graph, root, t, order);
    PopKeepsTree(graph, root, t, order);
  }

  /** The cases where `Run` stops at once: out of fuel, which the budget rules out unless the queue is empty, an empty queue, or the goal at the front. */
  lemma RunStops(graph: Graph, root: Cell, goal: Cell, t: Traversal, order: seq<Cell>, fuel: nat)
    requires Closed(graph) && Tree(graph, root, t, order) && Settled(graph, t, order)
    requires fuel + (|order| - |t.queue|) >= Budget(graph, root)
    requires fuel == 0 || t.queue == [] || t.queue[0] == goal
    ensures var r := Run(graph, goal, t, fuel); var o := RunOrder(graph, goal, t, order, fuel);
      && Tree(graph, root, r, o)
      && (goal in r.visited || (r.queue == [] && Settled(graph, r, o)))
  {
    if fuel == 0 {
      TreeWithinBudget(graph, root, t, order);
    } else if t.queue != [] {
      PopKeepsTree(graph, root, t, order);
    }
  }

  /**
   With fuel enough for every cell still to be popped, the search keeps the
   invariant and ends either having popped the goal, or with an empty queue
   and every expanded cell's neighbours visited.
   */
  lemma {:induction false} RunKeeps(graph: Graph, root: Cell, goal: Cell, t: Traversal, order: seq<Cell>, fuel: nat)
    requires Closed(graph) && Tree(graph, root, t, order) && Settled(graph, t, order)
    requires fuel + (|order| - |t.queue|) >= Budget(graph, root)
    ensures var r := Run(graph, goal, t, fuel); var o := RunOrder(graph, goal, t, order, fuel);
      && Tree(graph, root, r, o)
      && (goal in r.visited || (r.queue == [] && Settled(graph, r, o)))
    decreases fuel
  {
    if fuel == 0 || t.queue == [] || t.queue[0] == goal {
      RunStops(graph, root, goal, t, order, fuel);
    } else {
      var r := Expand(graph, t);
      var order' := Grow(graph, t, order);
      ExpandKeepsTree(graph, root, t, order);
      ExpandKeepsSettled(graph, root, t, order);
      ExpandCount(graph, t, order);
      RunKeeps(graph, root, goal, r, order', fuel - 1);
      RunStep(graph, goal, t, order, fuel);
    }
  }

  /**
   With fuel enough for every cell still to be popped, the search finds the
   goal exactly when it is reachable, and discovers only reachable cells.
   */
  lemma RunOutcome(graph: Graph, root: Cell, goal: Cell, t: Traversal, order: seq<Cell>, fuel: nat)
    requires Closed(graph) && Tree(graph, root, t, order) && Settled(graph, t, order)
    requires fuel + (|order| - |t.queue|) >= Budget(graph, root)
    ensures var r := Run(graph, goal, t, fuel);
      && (forall c :: c in r.visited ==> Reachable(graph, root, c))
      && (goal in r.visited <==> Reachable(graph, root, goal))
  {
    var r := Run(graph, goal, t, fuel);
    var o := RunOrder(graph, goal, t, order, fuel);
    RunKeeps(graph, root, goal, t, order, fuel);
    TreeSound(graph, root, r, o);
    if goal !in r.visited {
      ExhaustedIsComplete(graph, root, r, o);
    }
  }

  /**
   Once the fuel covers `Budget` pops, a larger allowance changes nothing:
   the search has stopped, at the goal or on an empty queue, by then.
   */
  lemma {:induction false} RunSaturates(graph: Graph, root: Cell, goal: Cell, t: Traversal, order: seq<Cell>, fuel: nat)
    requires Closed(graph) && Tree(graph, root, t, order)
    requires fuel + (|order| - |t.queue|) >= Budget(graph, root)
    ensures Run(graph, goal, t, fuel + 1) == Run(graph, goal, t, fuel)
    decreases fuel
  {
    if fuel == 0 {
      TreeWithinBudget(graph, root, t, order);
    } else if t.queue != [] && t.queue[0] != goal {
      ExpandKeepsTree(graph, root, t, order);
      ExpandCount(graph, t, order);
      RunSaturates(graph, root, goal, Expand(graph, t), Grow(graph, t, order), fuel - 1);
      RunStep(graph, goal, t, order, fuel);
      RunStep(graph, goal, t, order, fuel + 1);
    }
  }

  /** The search from a fresh state needs no more than `Budget` pops: one pop more gives the same result. */
  lemma SolveWithinBudget(graph: Graph, start: Cell, goal: Cell)
    requires Closed(graph)
    ensures Run(graph, goal, Begin(start), Budget(graph, start) + 1) == Solve(graph, start, goal)
  {
    BeginTree(graph, start);
    RunSaturates(graph, start, goal, Begin(start), [start], Budget(graph, start));
  }

  /** On the adjacency dictionary of a board, `Budget` is at most the number of free cells plus one. */
  lemma BudgetOfBoard(b: Board, ways: seq<Offset>, root: Cell)
    requires b.WellFormed()
    ensures Budget(Adjacency(b, ways), root) <= |FreeCells(b)| + 1
  {
    var keys := Adjacency(b, ways).Keys;
    assert keys == FreeCells(b);
  }

  /** Popping the front of the queue without expanding it keeps the invariant; the popped cell stays visited. */
  lemma PopKeepsTree(graph: Graph, root: Cell, t: Traversal, order: seq<Cell>)
    requires Tree(graph, root, t, order) && t.queue != []
    ensures Tree(graph, root, Traversal(t.queue[1..], t.visited), order) && t.queue[0] in t.visited
  {
    SuffixDrop(t.queue, order);
    var k := |order| - |t.queue|;
    assert t.queue[0] == order[k];
    assert t.queue[1..] == order[k + 1..];
    SuffixDrop(t.queue[1..], order);
  }

  /** An expansion moves exactly one cell out of the queue: the number of expanded cells grows by one. */
  lemma ExpandCount(graph: Graph, t: Traversal, order: seq<Cell>)
    requires t.queue != [] && |t.queue| <= |order|
    ensures |Grow(graph, t, order)| - |Expand(graph, t).queue| == |order| - |t.queue| + 1
  {
    ExpandShape(graph, t);
  }

  /** From a fresh state: the goal is found exactly when it is reachable, and nothing unreachable is visited. */
  lemma SolveOutcome(graph: Graph, start: Cell, goal: Cell)
    requires Closed(graph)
    ensures forall c :: c in Solve(graph, start, goal).visited ==> Reachable(graph, start, c)
    ensures goal in Solve(graph, start, goal).visited <==> Reachable(graph, start, goal)
  {
    BeginTree(graph, start);
    BeginSettled(graph, start);
    RunOutcome(graph, start, goal, Begin(start), [start], Budget(graph, start));
  }

  /**
   A path from `path[0]` back to `root`: each cell is a key whose parent is
   the next cell and lists it as a neighbour, and the last cell is the root,
   which has no parent.
   */
  ghost predicate Chain(visited: map<Cell, Option<Cell>>, root: Cell, path: seq<Cell>) {
    && |path| >= 1 && path[|path| - 1] == root
    && (forall i :: 0 <= i < |path| ==> path[i] in visited)
    && (forall i :: 0 <= i < |path| - 1 ==> visited[path[i]] == Some(path[i + 1]))
    && root in visited && visited[root] == None
  }

  function Reverse(s: seq<Cell>): (r: seq<Cell>)
    ensures |r| == |s|
    ensures forall i :: 0 <= i < |s| ==> r[i] == s[|s| - 1 - i]
  {
    if s == [] then [] else Reverse(s[1..]) + [s[0]]
  }

  /** Read from the root, a chain is a walk from the root to its first cell. */
  lemma ChainIsWalk(graph: Graph, root: Cell, t: Traversal, order: seq<Cell>, path: seq<Cell>)
    requires Tree(graph, root, t, order) && Chain(t.visited, root, path)
    ensures var w := Reverse(path); IsWalk(graph, w) && w[0] == root && w[|w| - 1] == path[0]
  {
    var w := Reverse(path);
    forall i | 0 <= i < |w| - 1 ensures w[i + 1] in Lookup(graph, w[i]) {
      var j := |path| - 2 - i;
      assert w[i] == path[j + 1] && w[i + 1] == path[j];
      ParentOf(graph, root, t, order, path[j]);
    }
  }

  /**
   What the path walk relies on: the root is a key without a parent, every
   key is in `order`, and every other key has a parent that is a key placed
   earlier in `order`.
   */
  ghost predicate ParentsEarlier(visited: map<Cell, Option<Cell>>, root: Cell, order: seq<Cell>) {
    && root in visited && visited[root] == None
    && (forall c :: c in visited ==> c in order)
    && (forall c :: c in visited && c != root ==>
          && visited[c].Some? && visited[c].value in visited && visited[c].value in order
          && IndexOf(order, visited[c].value) < IndexOf(order, c))
  }

  /** The invariant gives the path walk what it relies on. */
  lemma TreeParents(graph: Graph, root: Cell, t: Traversal, order: seq<Cell>)
    requires Tree(graph, root, t, order)
    ensures ParentsEarlier(t.visited, root, order)
  {
    forall c | c in t.visited && c != root
      ensures t.visited[c].Some? && t.visited[c].value in t.visited && t.visited[c].value in order
      ensures IndexOf(order, t.visited[c].value) < IndexOf(order, c)
    {
      ParentOf(graph, root, t, order, c);
    }
  }

  /**
   The cells the path walk meets from `seg`: the cell, then the walk from
   its parent, for as long as the current cell is a key of `visited`.
   */
  ghost function Walk(visited: map<Cell, Option<Cell>>, seg: Option<Cell>, root: Cell, order: seq<Cell>): seq<Cell>
    requires ParentsEarlier(visited, root, order)
    decreases if seg.Some? && seg.value in visited then IndexOf(order, seg.value) + 1 else 0
  {
    if seg.Some? && seg.value in visited then [seg.value] + Walk(visited, visited[seg.value], root, order) else []
  }

  /** One step of the walk from a key: the key, then the walk from its parent, which is an earlier key when present. */
  lemma WalkStep(visited: map<Cell, Option<Cell>>, c: Cell, root: Cell, order: seq<Cell>)
    requires ParentsEarlier(visited, root, order) && c in visited
    ensures Walk(visited, Some(c), root, order) == [c] + Walk(visited, visited[c], root, order)
    ensures visited[c].Some? ==> visited[c].value in visited && IndexOf(order, visited[c].value) < IndexOf(order, c)
  {
  }

  /** The walk from the root is the root alone. */
  lemma WalkRoot(visited: map<Cell, Option<Cell>>, root: Cell, order: seq<Cell>)
    requires ParentsEarlier(visited, root, order)
    ensures Walk(visited, Some(root), root, order) == [root]
  {
    WalkStep(visited, root, root, order);
  }

  /**
   The walk from a key of `visited` is a chain back to the root that
   repeats no cell, and every cell on it sits no later in `order`.
   */
  lemma {:induction false} WalkChain(visited: map<Cell, Option<Cell>>, c: Cell, root: Cell, order: seq<Cell>)
    requires ParentsEarlier(visited, root, order) && c in visited
    ensures var p := Walk(visited, Some(c), root, order);
      && p != [] && p[0] == c && Chain(visited, root, p) && Distinct(p)
      && (forall i :: 0 <= i < |p| ==> IndexOf(order, p[i]) <= IndexOf(order, c))
    decreases IndexOf(order, c)
  {
    WalkStep(visited, c, root, order);
    if c != root {
      var d := visited[c].value;
      WalkChain(visited, d, root, order);
      var q := Walk(visited, Some(d), root, order);
      assert c !in q by {
        forall k | 0 <= k < |q| ensures q[k] != c {
          assert IndexOf(order, q[k]) < IndexOf(order, c);
        }
      }
      ChainCons(visited, root, c, q);
      DistinctCons(c, q);
    } else {
      WalkRoot(visited, root, order);
    }
  }

  /** A key whose parent is the first cell of a chain extends the chain. */
  lemma ChainCons(visited: map<Cell, Option<Cell>>, root: Cell, c: Cell, q: seq<Cell>)
    requires Chain(visited, root, q) && c in visited && visited[c] == Some(q[0])
    ensures Chain(visited, root, [c] + q)
  {
    var p := [c] + q;
    forall i | 0 <= i < |p| - 1 ensures visited[p[i]] == Some(p[i + 1]) {
      if i > 0 {
        assert p[i] == q[i - 1] && p[i + 1] == q[i];
      }
    }
  }

  /** A cell that is not in a repetition-free sequence may be placed ahead of it. */
  lemma DistinctCons(c: Cell, q: seq<Cell>)
    requires Distinct(q) && c !in q
    ensures Distinct([c] + q)
  {
    var p := [c] + q;
    forall i, j | 0 <= i < j < |p| ensures p[i] != p[j] {
      if i > 0 {
        assert p[i] == q[i - 1] && p[j] == q[j - 1];
      }
    }
  }

  /**
   The path walk: from `target`, draw the cell and move to its parent, while
   the current cell is not `None` and is a key of `visited`.
   */
  method TracePath(visited: map<Cell, Option<Cell>>, target: Cell, ghost root: Cell, ghost order: seq<Cell>)
    returns (path: seq<Cell>)
    requires ParentsEarlier(visited, root, order)
    ensures path == Walk(visited, Some(target), root, order)
  {
    path := [];
    var seg: Option<Cell> := Some(target);
    while seg.Some? && seg.value in visited
      invariant path + Walk(visited, seg, root, order) == Walk(visited, Some(target), root, order)
      decreases if seg.Some? && seg.value in visited then IndexOf(order, seg.value) + 1 else 0
    {
      var c := seg.value;
      WalkStep(visited, c, root, order);
      ghost var rest := Walk(visited, visited[c], root, order);
      assert path + ([c] + rest) == (path + [c]) + rest;
      path := path + [c];
      seg := visited[c];
    }
    assert path + Walk(visited, seg, root, order) == path + [];
  }

  /**
   The path walk without the membership test: from `target`, draw the cell
   and move to its parent until the parent is `None`. Indexing `visited`
   directly needs `target` to be a key; every parent met on the way is one.
   */
  method TracePathUnguarded(visited: map<Cell, Option<Cell>>, target: Cell, ghost root: Cell, ghost order: seq<Cell>)
    returns (path: seq<Cell>)
    requires ParentsEarlier(visited, root, order) && target in visited
    ensures path == Walk(visited, Some(target), root, order)
  {
    path := [];
    var seg: Option<Cell> := Some(target);
    while seg.Some?
      invariant seg.Some? ==> seg.value in visited
      invariant path + Walk(visited, seg, root, order) == Walk(visited, Some(target), root, order)
      decreases if seg.Some? then IndexOf(order, seg.value) + 1 else 0
    {
      var c := seg.value;
      WalkStep(visited, c, root, order);
      ghost var rest := Walk(visited, visited[c], root, order);
      assert path + ([c] + rest) == (path + [c]) + rest;
      path := path + [c];
      seg := visited[c];
    }
    assert path + Walk(visited, seg, root, order) == path + [];
  }
}

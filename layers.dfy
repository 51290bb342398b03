/**
 The breadth-first order of the search. The depth of a visited cell is the
 number of parent steps from it back to the root. Along the discovery order
 depths never decrease, the queue spans at most two consecutive depths, and
 a neighbour of an expanded cell is at most one deeper than that cell.
 From these facts the depth of every visited cell is the length of a
 shortest walk to it, so the drawn parent chains are shortest paths.
 */
module Layers {
  import opened Grid
  import opened Search

  /** The number of parent steps from `c` until a cell without a parent, counting at most `fuel` of them. */
  ghost function Hops(visited: map<Cell, Option<Cell>>, c: Cell, fuel: nat): nat
    decreases fuel
  {
    if fuel == 0 || c !in visited || visited[c].None? then 0 else 1 + Hops(visited, visited[c].value, fuel - 1)
  }

  /** The depth of `c`: its parent steps back to the root, of which there are fewer than the discovered cells. */
  ghost function Depth(visited: map<Cell, Option<Cell>>, order: seq<Cell>, c: Cell): nat {
    Hops(visited, c, |order|)
  }

  /** With enough fuel, the count of parent steps is the length of the walk from `c`, less one. */
  lemma {:induction false} HopsWalk(visited: map<Cell, Option<Cell>>, root: Cell, order: seq<Cell>, c: Cell, fuel: nat)
    requires ParentsEarlier(visited, root, order) && c in visited && fuel > IndexOf(order, c)
    ensures Hops(visited, c, fuel) == |Walk(visited, Some(c), root, order)| - 1
    decreases fuel
  {
    WalkStep(visited, c, root, order);
    if visited[c].Some? {
      HopsWalk(visited, root, order, visited[c].value, fuel - 1);
    }
  }

  /** The depth of a key is the length of the path walk from it, less one. */
  lemma DepthIsWalk(visited: map<Cell, Option<Cell>>, root: Cell, order: seq<Cell>, c: Cell)
    requires ParentsEarlier(visited, root, order) && c in visited
    ensures Depth(visited, order, c) == |Walk(visited, Some(c), root, order)| - 1
  {
    HopsWalk(visited, root, order, c, |order|);
  }

  /** The root has depth zero, and every other key is one deeper than its parent. */
  lemma DepthStep(visited: map<Cell, Option<Cell>>, root: Cell, order: seq<Cell>, c: Cell)
    requires ParentsEarlier(visited, root, order) && c in visited
    ensures visited[c] == None ==> Depth(visited, order, c) == 0
    ensures visited[c].Some? ==>
      visited[c].value in visited && Depth(visited, order, c) == Depth(visited, order, visited[c].value) + 1
  {
    WalkStep(visited, c, root, order);
    DepthIsWalk(visited, root, order, c);
    if visited[c].Some? {
      DepthIsWalk(visited, root, order, visited[c].value);
    }
  }

  /** Adding keys to a parent dictionary leaves the walk, and so the depth, of every old key as it was. */
  lemma {:induction false} WalkExtend(v: map<Cell, Option<Cell>>, v': map<Cell, Option<Cell>>, root: Cell,
                                      o: seq<Cell>, o': seq<Cell>, c: Cell)
    requires ParentsEarlier(v, root, o) && ParentsEarlier(v', root, o')
    requires forall d :: d in v ==> d in v' && v'[d] == v[d]
    requires c in v
    ensures Walk(v', Some(c), root, o') == Walk(v, Some(c), root, o)
    ensures Depth(v', o', c) == Depth(v, o, c)
    decreases IndexOf(o, c)
  {
    WalkStep(v, c, root, o);
    WalkStep(v', c, root, o');
    if v[c].Some? {
      WalkExtend(v, v', root, o, o', v[c].value);
    }
    DepthIsWalk(v, root, o, c);
    DepthIsWalk(v', root, o', c);
  }

  /**
   The breadth-first invariant: depths never decrease along `order`; the
   last discovered cell is at most one deeper than the front of the queue;
   and every visited neighbour of an expanded cell is at most one deeper.
   */
  ghost predicate Layered(graph: Graph, root: Cell, t: Traversal, order: seq<Cell>) {
    && (forall i, j {:trigger Depth(t.visited, order, order[i]), Depth(t.visited, order, order[j])} :: 0 <= i <= j < |order| ==>
          Depth(t.visited, order, order[i]) <= Depth(t.visited, order, order[j]))
    && (0 < |t.queue| <= |order| ==>
          Depth(t.visited, order, order[|order| - 1]) <= Depth(t.visited, order, order[|order| - |t.queue|]) + 1)
    && (forall i, n {:trigger Depth(t.visited, order, n), n in Lookup(graph, order[i])} :: 0 <= i < |order| - |t.queue| && n in Lookup(graph, order[i]) && n in t.visited ==>
          Depth(t.visited, order, n) <= Depth(t.visited, order, order[i]) + 1)
  }

  /** The fresh state is layered: only the root, at depth zero, is discovered. */
  lemma BeginLayered(graph: Graph, start: Cell)
    ensures Layered(graph, start, Begin(start), [start])
  {
  }

  /**
   `r` and `o` are the state and the discovery order after expanding the
   front of `t`, and `added` holds the cells the expansion queued: the shape
   that `ExpandShape` proves of `Expand` and `Grow`.
   */
  ghost predicate Expansion(graph: Graph, t: Traversal, order: seq<Cell>, r: Traversal, o: seq<Cell>, added: seq<Cell>) {
    && t.queue != []
    && r.queue == t.queue[1..] + added && o == order + added
    && Unseen(added, t.visited)
    && (forall c :: c in added <==> c in r.visited && c !in t.visited)
    && (forall c :: c in r.visited <==> c in t.visited || c in Lookup(graph, t.queue[0]))
    && (forall c :: c in t.visited ==> r.visited[c] == t.visited[c])
    && (forall c :: c in r.visited && c !in t.visited ==> r.visited[c] == Some(t.queue[0]))
  }

  /** `Expand` and `Grow` have the shape of an expansion. */
  lemma ExpandIsExpansion(graph: Graph, t: Traversal, order: seq<Cell>)
    requires t.queue != []
    ensures Expansion(graph, t, order, Expand(graph, t), Grow(graph, t, order), Added(graph, t))
  {
    ExpandShape(graph, t);
  }

  /** After an expansion an old key keeps its depth. */
  lemma StepOldDepth(graph: Graph, root: Cell, t: Traversal, order: seq<Cell>, r: Traversal, o: seq<Cell>, added: seq<Cell>, c: Cell)
    requires Tree(graph, root, t, order) && Tree(graph, root, r, o) && Expansion(graph, t, order, r, o, added)
    requires c in t.visited
    ensures Depth(r.visited, o, c) == Depth(t.visited, order, c)
  {
    TreeParents(graph, root, t, order);
    TreeParents(graph, root, r, o);
    WalkExtend(t.visited, r.visited, root, order, o, c);
  }

  /** After an expansion a newly discovered cell is one deeper than the popped cell. */
  lemma StepNewDepth(graph: Graph, root: Cell, t: Traversal, order: seq<Cell>, r: Traversal, o: seq<Cell>, added: seq<Cell>, c: Cell)
    requires Tree(graph, root, t, order) && Tree(graph, root, r, o) && Expansion(graph, t, order, r, o, added)
    requires c in added
    ensures Depth(r.visited, o, c) == Depth(t.visited, order, t.queue[0]) + 1
  {
    PopKeepsTree(graph, root, t, order);
    TreeParents(graph, root, r, o);
    DepthStep(r.visited, root, o, c);
    StepOldDepth(graph, root, t, order, r, o, added, t.queue[0]);
  }

  /** After an expansion every old key keeps its depth, and every newly discovered cell is one deeper than the popped cell. */
  lemma StepDepths(graph: Graph, root: Cell, t: Traversal, order: seq<Cell>, r: Traversal, o: seq<Cell>, added: seq<Cell>)
    requires Tree(graph, root, t, order) && Tree(graph, root, r, o) && Expansion(graph, t, order, r, o, added)
    ensures forall c :: c in t.visited ==> Depth(r.visited, o, c) == Depth(t.visited, order, c)
    ensures forall c :: c in added ==> Depth(r.visited, o, c) == Depth(t.visited, order, t.queue[0]) + 1
  {
    forall c | c in t.visited ensures Depth(r.visited, o, c) == Depth(t.visited, order, c) {
      StepOldDepth(graph, root, t, order, r, o, added, c);
    }
    forall c | c in added ensures Depth(r.visited, o, c) == Depth(t.visited, order, t.queue[0]) + 1 {
      StepNewDepth(graph, root, t, order, r, o, added, c);
    }
  }

  /** Under the invariant, every discovered cell is at most one deeper than the front of the queue, and no cell of the queue is shallower than it. */
  lemma QueueDepths(graph: Graph, root: Cell, t: Traversal, order: seq<Cell>)
    requires Tree(graph, root, t, order) && Layered(graph, root, t, order) && t.queue != []
    ensures var k := |order| - |t.queue|; var d := Depth(t.visited, order, t.queue[0]);
      && 0 <= k < |order| && order[k] == t.queue[0]
      && (forall i :: 0 <= i < |order| ==> Depth(t.visited, order, order[i]) <= d + 1)
      && (forall i :: k <= i < |order| ==> d <= Depth(t.visited, order, order[i]))
  {
    SuffixDrop(t.queue, order);
    var k := |order| - |t.queue|;
    assert order[k] == t.queue[0];
  }

  /** An expansion keeps the depths along the grown discovery order non-decreasing. */
  lemma StepMonotone(graph: Graph, root: Cell, t: Traversal, order: seq<Cell>, r: Traversal, o: seq<Cell>, added: seq<Cell>)
    requires Tree(graph, root, t, order) && Tree(graph, root, r, o) && Expansion(graph, t, order, r, o, added)
    requires Layered(graph, root, t, order)
    ensures forall i, j :: 0 <= i <= j < |o| ==> Depth(r.visited, o, o[i]) <= Depth(r.visited, o, o[j])
  {
    QueueDepths(graph, root, t, order);
    forall i, j | 0 <= i <= j < |o| ensures Depth(r.visited, o, o[i]) <= Depth(r.visited, o, o[j]) {
      if i < |order| {
        assert o[i] == order[i] && o[i] in t.visited;
        StepOldDepth(graph, root, t, order, r, o, added, o[i]);
      } else {
        assert o[i] == added[i - |order|];
        StepNewDepth(graph, root, t, order, r, o, added, o[i]);
      }
      if j < |order| {
        assert o[j] == order[j] && o[j] in t.visited;
        StepOldDepth(graph, root, t, order, r, o, added, o[j]);
      } else {
        assert o[j] == added[j - |order|];
        StepNewDepth(graph, root, t, order, r, o, added, o[j]);
      }
    }
  }

  /** After an expansion the last discovered cell is at most one deeper than the popped cell, given that this held before. */
  lemma StepLast(graph: Graph, root: Cell, t: Traversal, order: seq<Cell>, r: Traversal, o: seq<Cell>, added: seq<Cell>)
    requires Tree(graph, root, t, order) && Tree(graph, root, r, o) && Expansion(graph, t, order, r, o, added)
    requires Depth(t.visited, order, order[|order| - 1]) <= Depth(t.visited, order, t.queue[0]) + 1
    ensures Depth(r.visited, o, o[|o| - 1]) <= Depth(t.visited, order, t.queue[0]) + 1
  {
    var last := o[|o| - 1];
    if added == [] {
      assert last == order[|order| - 1];
      StepOldDepth(graph, root, t, order, r, o, added, last);
    } else {
      assert last == added[|added| - 1];
      StepNewDepth(graph, root, t, order, r, o, added, last);
    }
  }

  /** After an expansion that leaves the queue non-empty, its new front is no shallower than the popped cell, given that the old second cell was not. */
  lemma StepFront(graph: Graph, root: Cell, t: Traversal, order: seq<Cell>, r: Traversal, o: seq<Cell>, added: seq<Cell>)
    requires Tree(graph, root, t, order) && Tree(graph, root, r, o) && Expansion(graph, t, order, r, o, added)
    requires |t.queue| > 1 ==>
      Depth(t.visited, order, t.queue[0]) <= Depth(t.visited, order, t.queue[1])
    ensures 0 < |r.queue| ==>
      && |r.queue| <= |o|
      && Depth(t.visited, order, t.queue[0]) <= Depth(r.visited, o, o[|o| - |r.queue|])
  {
    SuffixDrop(r.queue, o);
    if 0 < |r.queue| {
      var front := o[|o| - |r.queue|];
      assert front == r.queue[0];
      if |t.queue| > 1 {
        assert front == t.queue[1];
        QueueVisited(graph, root, t, order);
        StepOldDepth(graph, root, t, order, r, o, added, front);
      } else {
        assert front == added[0];
        StepNewDepth(graph, root, t, order, r, o, added, front);
      }
    }
  }

  /** After an expansion the last discovered cell is still at most one deeper than the new front of the queue. */
  lemma StepSpan(graph: Graph, root: Cell, t: Traversal, order: seq<Cell>, r: Traversal, o: seq<Cell>, added: seq<Cell>)
    requires Tree(graph, root, t, order) && Tree(graph, root, r, o) && Expansion(graph, t, order, r, o, added)
    requires Layered(graph, root, t, order)
    ensures 0 < |r.queue| <= |o| ==>
      Depth(r.visited, o, o[|o| - 1]) <= Depth(r.visited, o, o[|o| - |r.queue|]) + 1
  {
    QueueDepths(graph, root, t, order);
    var k := |order| - |t.queue|;
    if |t.queue| > 1 {
      SuffixDrop(t.queue, order);
      assert t.queue[1] == order[k + 1];
    }
    StepLast(graph, root, t, order, r, o, added);
    StepFront(graph, root, t, order, r, o, added);
  }

  /** After an expansion every visited neighbour of an expanded cell, the popped one included, is at most one deeper than it. */
  lemma StepNear(graph: Graph, root: Cell, t: Traversal, order: seq<Cell>, r: Traversal, o: seq<Cell>, added: seq<Cell>)
    requires Tree(graph, root, t, order) && Tree(graph, root, r, o) && Expansion(graph, t, order, r, o, added)
    requires Settled(graph, t, order) && Layered(graph, root, t, order)
    ensures forall i, n :: 0 <= i < |o| - |r.queue| && n in Lookup(graph, o[i]) && n in r.visited ==>
      Depth(r.visited, o, n) <= Depth(r.visited, o, o[i]) + 1
  {
    var k := |order| - |t.queue|;
    StepDepths(graph, root, t, order, r, o, added);
    QueueDepths(graph, root, t, order);
    forall i, n | 0 <= i < |o| - |r.queue| && n in Lookup(graph, o[i]) && n in r.visited
      ensures Depth(r.visited, o, n) <= Depth(r.visited, o, o[i]) + 1
    {
      assert i <= k && o[i] == order[i];
      if i < k {
        assert n in t.visited;
      } else if n in t.visited {
        assert order[IndexOf(order, n)] == n;
      }
    }
  }

  /** An expansion keeps the breadth-first invariant. */
  lemma StepLayered(graph: Graph, root: Cell, t: Traversal, order: seq<Cell>, r: Traversal, o: seq<Cell>, added: seq<Cell>)
    requires Tree(graph, root, t, order) && Tree(graph, root, r, o) && Expansion(graph, t, order, r, o, added)
    requires Settled(graph, t, order) && Layered(graph, root, t, order)
    ensures Layered(graph, root, r, o)
  {
    StepMonotone(graph, root, t, order, r, o, added);
    StepSpan(graph, root, t, order, r, o, added);
    StepNear(graph, root, t, order, r, o, added);
  }

  /** One expansion keeps the breadth-first invariant. */
  lemma ExpandKeepsLayered(graph: Graph, root: Cell, t: Traversal, order: seq<Cell>)
    requires Tree(graph, root, t, order) && Settled(graph, t, order) && Layered(graph, root, t, order)
    requires t.queue != []
    ensures Layered(graph, root, Expand(graph, t), Grow(graph, t, order))
  {
    ExpandKeepsTree(graph, root, t, order);
    ExpandIsExpansion(graph, t, order);
    StepLayered(graph, root, t, order, Expand(graph, t), Grow(graph, t, order), Added(graph, t));
  }

  /** `c` is discovered and its position in `order` is before the queue, so it has been expanded. */
  ghost predicate Expanded(t: Traversal, order: seq<Cell>, c: Cell) {
    c in order && IndexOf(order, c) < |order| - |t.queue|
  }

  /**
   Along a walk from the root whose first `m` cells are all expanded, the
   cell at position `m` is visited and no deeper than `m`.
   */
  lemma {:induction false} WalkDepths(graph: Graph, root: Cell, t: Traversal, order: seq<Cell>, w: seq<Cell>, m: nat)
    requires Tree(graph, root, t, order) && Settled(graph, t, order) && Layered(graph, root, t, order)
    requires IsWalk(graph, w) && w[0] == root && m < |w|
    requires forall i :: 0 <= i < m ==> Expanded(t, order, w[i])
    ensures w[m] in t.visited && Depth(t.visited, order, w[m]) <= m
    decreases m
  {
    TreeParents(graph, root, t, order);
    if m == 0 {
      DepthStep(t.visited, root, order, root);
    } else {
      WalkDepths(graph, root, t, order, w, m - 1);
      assert Expanded(t, order, w[m - 1]);
      var j := IndexOf(order, w[m - 1]);
      assert w[m] in Lookup(graph, order[j]);
    }
  }

  /** The search along a walk for its first unexpanded cell: from position `m` on, the end of the walk is no deeper than the walk is long. */
  lemma {:induction false} WalkBound(graph: Graph, root: Cell, t: Traversal, order: seq<Cell>, w: seq<Cell>, m: nat)
    requires Tree(graph, root, t, order) && Settled(graph, t, order) && Layered(graph, root, t, order)
    requires IsWalk(graph, w) && w[0] == root && m < |w| && w[|w| - 1] in t.visited
    requires forall i :: 0 <= i < m ==> Expanded(t, order, w[i])
    ensures Depth(t.visited, order, w[|w| - 1]) <= |w| - 1
    decreases |w| - m
  {
    WalkDepths(graph, root, t, order, w, m);
    if m < |w| - 1 {
      if Expanded(t, order, w[m]) {
        WalkBound(graph, root, t, order, w, m + 1);
      } else {
        var j := IndexOf(order, w[m]);
        var c := w[|w| - 1];
        assert t.queue != [] by {
          SuffixDrop(t.queue, order);
        }
        QueueDepths(graph, root, t, order);
        assert order[IndexOf(order, c)] == c;
        assert order[j] == w[m];
      }
    }
  }

  /** Every walk from the root to a visited cell is at least as long as that cell's depth. */
  ghost predicate Shortest(graph: Graph, root: Cell, visited: map<Cell, Option<Cell>>, order: seq<Cell>) {
    forall w :: IsWalk(graph, w) && w[0] == root && w[|w| - 1] in visited ==>
      Depth(visited, order, w[|w| - 1]) <= |w| - 1
  }

  /** Under the three invariants, depths are shortest: no walk from the root reaches a visited cell in fewer steps. */
  lemma LayeredShortest(graph: Graph, root: Cell, t: Traversal, order: seq<Cell>)
    requires Tree(graph, root, t, order) && Settled(graph, t, order) && Layered(graph, root, t, order)
    ensures Shortest(graph, root, t.visited, order)
  {
    forall w | IsWalk(graph, w) && w[0] == root && w[|w| - 1] in t.visited
      ensures Depth(t.visited, order, w[|w| - 1]) <= |w| - 1
    {
      WalkBound(graph, root, t, order, w, 0);
    }
  }

  /**
   With shortest depths, the parent chain from a visited cell, read from the
   root, is a walk to the cell, and no walk from the root to it is shorter.
   */
  lemma ShortestPath(graph: Graph, root: Cell, t: Traversal, order: seq<Cell>, c: Cell)
    requires Tree(graph, root, t, order) && Shortest(graph, root, t.visited, order) && c in t.visited
    ensures ParentsEarlier(t.visited, root, order)
    ensures var p := Walk(t.visited, Some(c), root, order); var w := Reverse(p);
      && IsWalk(graph, w) && w[0] == root && w[|w| - 1] == c
      && (forall v :: IsWalk(graph, v) && v[0] == root && v[|v| - 1] == c ==> |p| <= |v|)
  {
    TreeParents(graph, root, t, order);
    WalkChain(t.visited, c, root, order);
    var p := Walk(t.visited, Some(c), root, order);
    ChainIsWalk(graph, root, t, order, p);
    DepthIsWalk(t.visited, root, order, c);
  }

  /** Every invariant a breadth-first search state keeps. */
  ghost predicate Invariant(graph: Graph, root: Cell, t: Traversal, order: seq<Cell>) {
    Tree(graph, root, t, order) && Settled(graph, t, order) && Layered(graph, root, t, order)
  }

  /**
   One expansion keeps the whole invariant, the popped cell was and stays visited,
   and the number of expanded cells grows by one.
   */
  lemma ExpandKeepsInvariant(graph: Graph, root: Cell, t: Traversal, order: seq<Cell>)
    requires Invariant(graph, root, t, order) && t.queue != []
    ensures Invariant(graph, root, Expand(graph, t), Grow(graph, t, order))
    ensures t.queue[0] in t.visited && t.queue[0] in Expand(graph, t).visited
    ensures |Grow(graph, t, order)| - |Expand(graph, t).queue| == |order| - |t.queue| + 1
  {
    ExpandKeeps(graph, root, t, order);
    ExpandKeepsLayered(graph, root, t, order);
    ExpandCount(graph, t, order);
  }
}

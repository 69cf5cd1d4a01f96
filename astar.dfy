/** The bookkeeping of A* search as values: the queue, the parent links and
    the two distances of every queued cell, and what examining one child of
    an expanded cell does to them. */
module AStarSearch {
  import opened Cells
  import opened GridGraph
  import opened SearchTree

  /** The A* scratch: the queued cells (`fringe.queue`), each cell's parent,
      its distance from the source along its parent walk, and its
      heuristic distance to the destination. */
  datatype Frontier = Frontier(fringe: seq<Pos>, parent: map<Pos, Pos>,
                               fromSource: map<Pos, int>, toDest: map<Pos, real>)

  /** Every queued cell that is not expanded has both distances. */
  ghost predicate Scored(st: Frontier, visited: seq<Pos>)
  {
    forall p :: p in st.fringe && p !in visited ==> p in st.fromSource && p in st.toDest
  }

  /** Queue c with node as its parent, one step further from the source
      than node and with heuristic distance h(c). */
  function Queue(st: Frontier, node: Pos, c: Pos, h: Pos -> real): Frontier
    requires node in st.fromSource
  {
    Frontier(st.fringe + [c], st.parent[c := node], st.fromSource[c := st.fromSource[node] + 1], st.toDest[c := h(c)])
  }

  /** Give the queued cell c the parent node and node's distance plus one. */
  function Reparent(st: Frontier, node: Pos, c: Pos): Frontier
    requires node in st.fromSource
  {
    Frontier(st.fringe, st.parent[c := node], st.fromSource[c := st.fromSource[node] + 1], st.toDest)
  }

  /** The relaxation test `child.get_heuristic() >= node.distance_from_source
      + child.distance_from_dest`. */
  predicate Improves(st: Frontier, node: Pos, c: Pos)
    requires node in st.fromSource && c in st.fromSource && c in st.toDest
  {
    GetHeuristic(AStarString, Scores(st.fromSource[c] as real, st.toDest[c], 0.0)) >= st.fromSource[node] as real + st.toDest[c]
  }

  /** Examine one child of the expanded cell node. An absent or expanded
      child is skipped. A child not yet queued is queued. A queued child is
      re-parented to node when the relaxation test passes. */
  function Relax(st: Frontier, visited: seq<Pos>, node: Pos, child: Option<Pos>, h: Pos -> real): (r: Frontier)
    requires Scored(st, visited) && node in st.fromSource
    ensures Scored(r, visited) && st.parent.Keys <= r.parent.Keys
  {
    if child.None? || child.value in visited then st
    else if child.value !in st.fringe then Queue(st, node, child.value, h)
    else if Improves(st, node, child.value) then Reparent(st, node, child.value)
    else st
  }

  /** Examine the children in order. */
  function RelaxAll(st: Frontier, visited: seq<Pos>, node: Pos, children: seq<Option<Pos>>, h: Pos -> real): (r: Frontier)
    requires Scored(st, visited) && node in st.fromSource && node in visited
    ensures Scored(r, visited) && node in r.fromSource && r.fromSource[node] == st.fromSource[node]
    ensures st.parent.Keys <= r.parent.Keys
  {
    if children == [] then st
    else
      var a := RelaxAll(st, visited, node, children[..|children| - 1], h);
      Relax(a, visited, node, children[|children| - 1], h)
  }

  /** The A* invariant: a search tree whose cells are queued at most once,
      whose recorded distances from the source are the lengths of the parent
      walks, whose recorded cells are expanded or queued, and where a cell's
      distance has the parity of its position (every step of a walk on the
      grid changes row plus column by one). */
  ghost predicate Consistent(graph: GraphValue, visited: seq<Pos>, st: Frontier)
  {
    && Tree(graph, visited, st.fringe, st.parent)
    && NoDup(st.fringe)
    && Scored(st, visited)
    && Distances(st.fromSource, st.parent, visited[0])
    && (forall p :: p in st.fromSource ==> p in visited || p in st.fringe)
    && ParityHolds(st.fromSource, visited[0])
  }

  /** Every recorded distance has the parity of its cell. */
  ghost predicate ParityHolds(dist: map<Pos, int>, root: Pos)
  {
    forall p :: p in dist ==> Parity(dist[p], p, root)
  }

  /** The recorded distances did not grow from st to r. */
  ghost predicate NoLonger(st: Frontier, r: Frontier)
  {
    forall p :: p in st.fromSource ==> p in r.fromSource && r.fromSource[p] <= st.fromSource[p]
  }

  /** The queue receives exactly the children that are neither expanded
      nor queued, each once and in order: the same cells breadth-first
      search would queue. */
  lemma {:induction false} RelaxAllQueuesNewKids(st: Frontier, visited: seq<Pos>, node: Pos, children: seq<Option<Pos>>, h: Pos -> real)
    requires Scored(st, visited) && node in st.fromSource && node in visited
    ensures RelaxAll(st, visited, node, children, h).fringe == st.fringe + NewKids(st.fringe, Unvisited(children, visited))
    decreases |children|
  {
    if children != [] {
      var init, last := children[..|children| - 1], children[|children| - 1];
      RelaxAllQueuesNewKids(st, visited, node, init, h);
      if last.Some? && last.value !in visited {
        var u := Unvisited(init, visited);
        assert (u + [last.value])[..|u|] == u;
      }
    }
  }

  /** Giving c the parent node and node's distance plus one keeps the
      distances consistent, provided no cell has c as its parent. */
  lemma AdoptKeepsDistances(dist: map<Pos, int>, parent: map<Pos, Pos>, root: Pos, node: Pos, c: Pos)
    requires Distances(dist, parent, root) && node in dist && c != root && c != node
    requires forall p :: p in parent ==> parent[p] != c
    ensures Distances(dist[c := dist[node] + 1], parent[c := node], root)
  {
    var dist', parent' := dist[c := dist[node] + 1], parent[c := node];
    forall p | p in parent'
      ensures p in dist' && parent'[p] in dist' && dist'[p] == dist'[parent'[p]] + 1
    {
      if p != c {
        assert parent'[p] == parent[p] && parent[p] != c;
      }
    }
  }

  /** Recording the distance one step beyond node for an adjacent cell c
      keeps every recorded distance of the right parity. */
  lemma StepKeepsParity(dist: map<Pos, int>, root: Pos, node: Pos, c: Pos)
    requires ParityHolds(dist, root) && node in dist && Adjacent(node, c)
    ensures ParityHolds(dist[c := dist[node] + 1], root)
  {
    ParityStep(dist[node], node, c, root);
  }

  lemma QueueParity(st: Frontier, root: Pos, node: Pos, c: Pos, h: Pos -> real)
    requires ParityHolds(st.fromSource, root) && node in st.fromSource && Adjacent(node, c)
    ensures ParityHolds(Queue(st, node, c, h).fromSource, root)
  {
    StepKeepsParity(st.fromSource, root, node, c);
  }

  /** When the recorded distance of the adjacent cell c is at least node's,
      re-parenting c keeps the parities and does not lengthen its
      distance. */
  lemma ReparentParity(st: Frontier, root: Pos, node: Pos, c: Pos)
    requires ParityHolds(st.fromSource, root) && node in st.fromSource && c in st.fromSource
    requires Adjacent(node, c) && st.fromSource[c] >= st.fromSource[node]
    ensures ParityHolds(Reparent(st, node, c).fromSource, root)
    ensures NoLonger(st, Reparent(st, node, c))
  {
    StepKeepsParity(st.fromSource, root, node, c);
    ParityForbidsTies(st.fromSource[c], c, st.fromSource[node], node, root);
  }

  /** Queueing an unexpanded, unqueued neighbour of node keeps the
      invariant. */
  lemma QueueKeepsConsistent(graph: GraphValue, visited: seq<Pos>, st: Frontier, node: Pos, c: Pos, h: Pos -> real)
    requires WellLinked(graph) && Consistent(graph, visited, st) && node in visited && node in st.fromSource
    requires c in Links(graph, node) && c !in visited && c !in st.fringe
    ensures Consistent(graph, visited, Queue(st, node, c, h)) && NoLonger(st, Queue(st, node, c, h))
  {
    var r := Queue(st, node, c, h);
    AdoptKeepsTree(graph, visited, st.fringe, st.parent, node, c);
    AppendKeepsNoDup(st.fringe, c);
    QueueKeepsBookkeeping(st, visited, node, c, h);
    assert forall p :: p in st.parent ==> st.parent[p] != c;
    AdoptKeepsDistances(st.fromSource, st.parent, visited[0], node, c);
    QueueParity(st, visited[0], node, c, h);
  }

  /** Queueing an unexpanded, unqueued cell gives it both distances, keeps
      the recorded cells expanded or queued, and records it for the first
      time. */
  lemma QueueKeepsBookkeeping(st: Frontier, visited: seq<Pos>, node: Pos, c: Pos, h: Pos -> real)
    requires Scored(st, visited) && node in st.fromSource && c !in visited && c !in st.fringe
    requires forall p :: p in st.fromSource ==> p in visited || p in st.fringe
    ensures Scored(Queue(st, node, c, h), visited)
    ensures forall p :: p in Queue(st, node, c, h).fromSource ==> p in visited || p in Queue(st, node, c, h).fringe
    ensures NoLonger(st, Queue(st, node, c, h))
  {
    assert c !in st.fromSource;
  }

  /** Re-parenting a queued, unexpanded neighbour of node whose recorded
      distance is at least node's keeps the invariant, and by parity the
      new distance is no longer than the old one. */
  lemma ReparentKeepsConsistent(graph: GraphValue, visited: seq<Pos>, st: Frontier, node: Pos, c: Pos)
    requires WellLinked(graph) && Consistent(graph, visited, st) && node in visited && node in st.fromSource
    requires c in Links(graph, node) && c !in visited && c in st.fringe
    requires st.fromSource[c] >= st.fromSource[node]
    ensures Consistent(graph, visited, Reparent(st, node, c)) && NoLonger(st, Reparent(st, node, c))
  {
    var r := Reparent(st, node, c);
    AdoptKeepsTree(graph, visited, st.fringe, st.parent, node, c);
    assert forall p :: p in st.parent ==> st.parent[p] != c;
    AdoptKeepsDistances(st.fromSource, st.parent, visited[0], node, c);
    ReparentParity(st, visited[0], node, c);
  }

  /** Examining one neighbour of node keeps the invariant and never
      lengthens a recorded distance. */
  lemma RelaxKeepsConsistent(graph: GraphValue, visited: seq<Pos>, st: Frontier, node: Pos, child: Option<Pos>, h: Pos -> real)
    requires WellLinked(graph) && Consistent(graph, visited, st) && node in visited && node in st.fromSource
    requires child.Some? ==> child.value in Links(graph, node)
    ensures Consistent(graph, visited, Relax(st, visited, node, child, h))
    ensures NoLonger(st, Relax(st, visited, node, child, h))
  {
    var r := Relax(st, visited, node, child, h);
    if child.Some? && child.value !in visited {
      var c := child.value;
      if c !in st.fringe {
        assert r == Queue(st, node, c, h);
        QueueKeepsConsistent(graph, visited, st, node, c, h);
      } else if Improves(st, node, c) {
        assert r == Reparent(st, node, c);
        AStarKeyCancelsDestination(st.fromSource[c] as real, st.toDest[c], st.fromSource[node] as real);
        ReparentKeepsConsistent(graph, visited, st, node, c);
      } else {
        assert r == st;
      }
    } else {
      assert r == st;
    }
  }

  /** Examining all the children keeps the invariant and never lengthens
      a recorded distance. */
  lemma {:induction false} RelaxAllKeepsConsistent(graph: GraphValue, visited: seq<Pos>, st: Frontier, node: Pos,
                                                   children: seq<Option<Pos>>, h: Pos -> real)
    requires WellLinked(graph) && Consistent(graph, visited, st) && node in visited && node in st.fromSource
    requires forall q :: Some(q) in children ==> q in Links(graph, node)
    ensures Consistent(graph, visited, RelaxAll(st, visited, node, children, h))
    ensures NoLonger(st, RelaxAll(st, visited, node, children, h))
    decreases |children|
  {
    if children != [] {
      var init, last := children[..|children| - 1], children[|children| - 1];
      assert children == init + [last];
      assert forall q :: Some(q) in init ==> Some(q) in children;
      RelaxAllKeepsConsistent(graph, visited, st, node, init, h);
      var a := RelaxAll(st, visited, node, init, h);
      RelaxKeepsConsistent(graph, visited, a, node, last, h);
    }
  }

  /** The queue with entry i taken off. */
  function Popped(st: Frontier, i: nat): (r: Frontier)
    requires i < |st.fringe|
    ensures r.parent == st.parent && r.fromSource == st.fromSource && r.toDest == st.toDest
    ensures forall x :: x in r.fringe ==> x in st.fringe
    ensures |r.fringe| == |st.fringe| - 1
  {
    Frontier(Remove(st.fringe, i), st.parent, st.fromSource, st.toDest)
  }

  /** Taking entry i off the queue and expanding it keeps the invariant. */
  lemma PopKeepsConsistent(graph: GraphValue, visited: seq<Pos>, st: Frontier, i: nat)
    requires Consistent(graph, visited, st) && i < |st.fringe|
    ensures Consistent(graph, Visit(visited, st.fringe[i]), Popped(st, i))
  {
    var u := st.fringe[i];
    PopKeepsSearch(graph, visited, st.fringe, st.parent, i);
    RemoveKeepsNoDup(st.fringe, i);
    RemoveMembers(st.fringe, i);
  }

  /** One pass of the A* loop: take entry i off a consistent, closed queue,
      expand it and relax all its children. The result is again consistent
      and closed, the expanded cell is the root or has a parent, and either
      fewer cells are left unexpanded or fewer unexpanded cells are queued. */
  lemma PassKeepsConsistent(graph: GraphValue, visited: seq<Pos>, st: Frontier, i: nat,
                            children: seq<Option<Pos>>, h: Pos -> real)
    requires WellLinked(graph) && Consistent(graph, visited, st) && Closed(graph, visited, st.fringe)
    requires i < |st.fringe|
    requires forall q :: Some(q) in children <==> q in Links(graph, st.fringe[i])
    ensures IsCell(graph, st.fringe[i]) && st.fringe[i] in st.fromSource
    ensures Scored(Popped(st, i), Visit(visited, st.fringe[i]))
    ensures Consistent(graph, Visit(visited, st.fringe[i]),
                       RelaxAll(Popped(st, i), Visit(visited, st.fringe[i]), st.fringe[i], children, h))
    ensures Closed(graph, Visit(visited, st.fringe[i]),
                   RelaxAll(Popped(st, i), Visit(visited, st.fringe[i]), st.fringe[i], children, h).fringe)
    ensures Progress(graph, visited, st.fringe, Visit(visited, st.fringe[i]),
                     RelaxAll(Popped(st, i), Visit(visited, st.fringe[i]), st.fringe[i], children, h).fringe)
    ensures Visit(visited, st.fringe[i])[0] == visited[0]
    ensures st.fringe[i] == visited[0] ||
            st.fringe[i] in RelaxAll(Popped(st, i), Visit(visited, st.fringe[i]), st.fringe[i], children, h).parent
  {
    var node := st.fringe[i];
    var v := Visit(visited, node);
    var p := Popped(st, i);
    PopKeepsSearch(graph, visited, st.fringe, st.parent, i);
    PopKeepsConsistent(graph, visited, st, i);
    assert node in p.fromSource;
    var r := RelaxAll(p, v, node, children, h);
    RelaxAllKeepsConsistent(graph, v, p, node, children, h);
    RelaxAllQueuesNewKids(p, v, node, children, h);
    var added := NewKids(p.fringe, Unvisited(children, v));
    PushKeepsCount(p.fringe, added, v);
    PushKeepsClosure(graph, v, p.fringe, added);
    assert Expanded(graph, v, r.fringe, node);
    ExpandedCloses(graph, v, r.fringe, node);
  }
}

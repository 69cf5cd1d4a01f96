/** The path finder: one object per run over one environment. Its fields are
    the lists and scores the four engines update in place (the expanded
    list, the fringe, the final path, the largest fringe seen, and per cell
    the parent link and the distances), and its methods are the engines,
    the fire spread, path reconstruction and the metrics. */
module PathFinding {
  import opened Cells
  import opened GridGraph
  import opened SearchTree
  import opened Environment
  import opened AStarSearch

  /** The exceptions a run can end in. */
  datatype Error = IndexError | AttributeError | ValueError | TypeError

  /** What `PathFinderAlgorithm(...)` gives: a path finder, or the exception
      building its title raises. */
  datatype Creation = Created(finder: PathFinder) | Failed(error: Error)

  /** What `run_path_finder_algorithm` does: return a code or raise. */
  datatype Outcome = Returned(code: int) | Raised(error: Error)

  /** `performance_dict`. */
  datatype Metrics = Metrics(pathLength: int, maximumFringeSize: int, numberOfNodesExpanded: int)

  /** The window title `__init__` builds: the tag alone for "dfs", "bfs"
      and "firealgo", otherwise the tag followed by the heuristic. Adding a
      missing heuristic (None) to a string raises TypeError (None here). */
  function Title(algorithm: string, heuristic: Option<string>): (t: Option<string>)
    ensures t.Some? <==> algorithm == DfsString || algorithm == BfsString || algorithm == FireString || heuristic.Some?
    ensures t.Some? ==> "Algorithm: " + algorithm <= t.value
    ensures t.Some? && (algorithm == DfsString || algorithm == BfsString || algorithm == FireString) ==>
      t.value == "Algorithm: " + algorithm
    ensures t.Some? && heuristic.Some? && algorithm != DfsString && algorithm != BfsString && algorithm != FireString ==>
      t.value == "Algorithm: " + algorithm + "    Heuristic: " + heuristic.value
  {
    if algorithm == DfsString || algorithm == BfsString || algorithm == FireString then
      Some("Algorithm: " + algorithm)
    else if heuristic.Some? then
      Some("Algorithm: " + algorithm + "    Heuristic: " + heuristic.value)
    else
      None
  }

  /** The start cell of every search. */
  const Root: Pos := Pos(0, 0)

  /** The destination of every search on an n×n grid. */
  function Dest(n: int): Pos
  {
    Pos(n - 1, n - 1)
  }

  /** The positions the display grid marks as burning
      (`np.argwhere(maze_copy == 3)`). */
  function BurningCells(a: array2<int>): (b: set<Pos>)
    reads a
    ensures forall p :: p in b <==>
      0 <= p.row < a.Length0 && 0 <= p.column < a.Length1 && a[p.row, p.column] == Burning
  {
    var b := set r, c | 0 <= r < a.Length0 && 0 <= c < a.Length1 && a[r, c] == Burning :: Pos(r, c);
    assert forall p: Pos :: 0 <= p.row < a.Length0 && 0 <= p.column < a.Length1 && a[p.row, p.column] == Burning ==> p in b by {
      forall p: Pos | 0 <= p.row < a.Length0 && 0 <= p.column < a.Length1 && a[p.row, p.column] == Burning
        ensures p in b
      {
        assert p == Pos(p.row, p.column);
      }
    }
    b
  }

  /** a comes before b in row-major order. */
  predicate RowMajorBefore(a: Pos, b: Pos)
  {
    a.row < b.row || (a.row == b.row && a.column < b.column)
  }

  /** The map after the row-major scan has passed (r, c): each cell
      before that position holds its score h, other entries are those of
      base. */
  ghost function Scan(graph: GraphValue, h: Pos -> real, base: map<Pos, real>, r: nat, c: nat): map<Pos, real>
    requires c <= |graph|
    decreases r, c
  {
    if c > 0 then
      var m := Scan(graph, h, base, r, c - 1);
      if IsCell(graph, Pos(r, c - 1)) then m[Pos(r, c - 1) := h(Pos(r, c - 1))] else m
    else if r > 0 then
      Scan(graph, h, base, r - 1, |graph|)
    else
      base
  }

  lemma {:induction false} ScanCovers(graph: GraphValue, h: Pos -> real, base: map<Pos, real>, r: nat, c: nat)
    requires c <= |graph| && forall i :: 0 <= i < |graph| ==> |graph[i]| == |graph|
    ensures forall p :: p in Scan(graph, h, base, r, c) <==> p in base || (IsCell(graph, p) && RowMajorBefore(p, Pos(r, c)))
    ensures forall p :: p in Scan(graph, h, base, r, c) ==>
      Scan(graph, h, base, r, c)[p] == if IsCell(graph, p) && RowMajorBefore(p, Pos(r, c)) then h(p) else base[p]
    decreases r, c
  {
    if c > 0 {
      ScanCovers(graph, h, base, r, c - 1);
    } else if r > 0 {
      ScanCovers(graph, h, base, r - 1, |graph|);
    }
  }

  /** p is a neighbour of one of the burning positions. */
  ghost predicate SpreadsFrom(graph: GraphValue, burning: set<Pos>, p: Pos)
  {
    exists q :: q in burning && p in Links(graph, q)
  }

  /** The path a run reports with its code: 0 with the destination alone
      on the path, when it is the start or cannot be reached from it; 1
      with a walk through adjacent linked cells, without repetition, from
      the start to the destination. */
  ghost predicate PathReport(graph: GraphValue, path: seq<Pos>, code: int, root: Pos, dest: Pos)
  {
    && (code == 0 || code == 1)
    && (code == 0 ==> path == [dest] && (root == dest || !Reachable(graph, root, dest)))
    && (code == 1 ==>
         && root != dest && Reachable(graph, root, dest)
         && |path| > 1 && path[0] == root && path[|path| - 1] == dest
         && Walk(graph, path) && NoDup(path)
         && (forall i :: 0 <= i < |path| - 1 ==> Adjacent(path[i], path[i + 1])))
  }

  /** What the path finder reports for a parent walk from dest to root:
      code 0 for the walk of dest alone, and code 1 for the walk reversed
      otherwise. */
  ghost predicate Reportable(graph: GraphValue, chain: seq<Pos>, root: Pos, dest: Pos)
  {
    if |chain| == 1 then PathReport(graph, chain, 0, root, dest) else PathReport(graph, Reverse(chain), 1, root, dest)
  }

  /** A finished search reports its parent walk from dest: code 0 when the
      walk is dest alone, and code 1 with the walk reversed otherwise. */
  lemma FinishedReports(graph: GraphValue, visited: seq<Pos>, fringe: seq<Pos>, parent: map<Pos, Pos>, dest: Pos)
    requires Tree(graph, visited, fringe, parent) && WellLinked(graph)
    requires dest == visited[0] || dest in parent || (fringe == [] && Closed(graph, visited, fringe))
    ensures Reportable(graph, Chain(parent, visited, dest), visited[0], dest)
  {
    FinishedSearchFindsPath(graph, visited, fringe, parent, dest);
  }

  class PathFinder {
    const env: Maze
    /** The tag the engines dispatch on. The cells compare and score
        themselves by the tag the environment's graph was built with
        (`env.algorithm`), which need not be the same. */
    const algorithm: string
    const title: string
    /** The environment's graph, as it stands when the path finder is made. */
    const graph: GraphValue
    /** The distance of a cell to the destination (a Euclidean distance). */
    const destDistance: Pos -> real
    /** The fire score of a cell given the burning positions (a negative
        multiple of the distance to the nearest one). */
    const fireDistance: (set<Pos>, Pos) -> real

    var visited: seq<Pos>
    var path: seq<Pos>
    var maxFringeLength: int
    var fringe: seq<Pos>
    var parent: map<Pos, Pos>
    var distanceFromSource: map<Pos, int>
    var distanceFromDest: map<Pos, real>
    var distanceFromFire: map<Pos, real>
    var performance: Option<Metrics>
    /** The fringe size at the head of every loop pass so far. */
    ghost var fringeSizes: seq<int>

    /** The environment's grids have the graph's size and the graph's links
        join adjacent cells. */
    ghost predicate Valid()
      reads env
    {
      && env.Shaped()
      && |graph| == env.n && (forall r :: 0 <= r < |graph| ==> |graph[r]| == env.n)
      && WellLinked(graph)
    }

    /** The environment is consistent and the graph is its graph. */
    ghost predicate Mirrors()
      reads env, env.graph, env.maze, env.graph.graphMaze
    {
      && Valid() && env.Valid()
      && (forall r, c :: 0 <= r < env.n && 0 <= c < env.n ==> graph[r][c] == env.graph.graphMaze[r, c])
    }

    /** Nothing has run yet. */
    ghost predicate Initial()
      reads this
    {
      && visited == [] && path == [] && maxFringeLength == 0 && fringe == []
      && parent == map[] && distanceFromSource == map[] && distanceFromDest == map[]
      && distanceFromFire == map[] && performance == None && fringeSizes == []
    }

    /** The largest fringe size is one of the recorded sizes and no smaller
        than any of them. */
    ghost predicate LargestFringe()
      reads this`fringeSizes, this`maxFringeLength
    {
      && (forall k :: 0 <= k < |fringeSizes| ==> fringeSizes[k] <= maxFringeLength)
      && (fringeSizes != [] ==> maxFringeLength in fringeSizes)
      && (fringeSizes == [] ==> maxFringeLength == 0)
    }

    /** The state a finished search leaves: a search tree rooted at root,
        in which the destination was reached or nothing is left to
        explore. */
    ghost predicate Finished(root: Pos, dest: Pos)
      reads this`visited, this`fringe, this`parent, this`maxFringeLength, this`fringeSizes
    {
      && Tree(graph, visited, fringe, parent) && visited[0] == root
      && maxFringeLength >= 1 && LargestFringe()
      && (dest == root || dest in parent || (fringe == [] && Closed(graph, visited, fringe)))
    }

    /** The A* scratch as one value. */
    ghost function Front(): Frontier
      reads this
    {
      Frontier(fringe, parent, distanceFromSource, distanceFromDest)
    }

    /** `PathFinderAlgorithm(maze, algorithm, heuristic)`: TypeError when
        the title cannot be built, otherwise a path finder over the
        environment's current graph with nothing run yet. */
    static method Create(env: Maze, algorithm: string, heuristic: Option<string>,
                         destDistance: Pos -> real, fireDistance: (set<Pos>, Pos) -> real)
      returns (r: Creation)
      requires env.Valid()
      ensures r.Failed? <==> Title(algorithm, heuristic).None?
      ensures r.Failed? ==> r.error == TypeError
      ensures r.Created? ==>
        && fresh(r.finder) && r.finder.Valid() && r.finder.Mirrors() && r.finder.Initial()
        && r.finder.env == env && r.finder.algorithm == algorithm && Title(algorithm, heuristic) == Some(r.finder.title)
        && r.finder.destDistance == destDistance && r.finder.fireDistance == fireDistance
    {
      var title := Title(algorithm, heuristic);
      if title.None? {
        return Failed(TypeError);
      }
      var finder := new PathFinder(env, algorithm, title.value, destDistance, fireDistance);
      r := Created(finder);
    }

    constructor(env: Maze, algorithm: string, title: string, destDistance: Pos -> real, fireDistance: (set<Pos>, Pos) -> real)
      requires env.Valid()
      ensures Valid() && Mirrors() && Initial()
      ensures this.env == env && this.algorithm == algorithm && this.title == title
      ensures this.destDistance == destDistance && this.fireDistance == fireDistance
    {
      var grid := Values(env.maze);
      BuiltGraphIsWellLinked(grid);
      this.env := env;
      this.algorithm := algorithm;
      this.title := title;
      this.graph := BuildGraph(grid);
      this.destDistance := destDistance;
      this.fireDistance := fireDistance;
      visited := [];
      path := [];
      maxFringeLength := 0;
      fringe := [];
      parent := map[];
      distanceFromSource := map[];
      distanceFromDest := map[];
      distanceFromFire := map[];
      performance := None;
      fringeSizes := [];
    }

    /** A position of the grid holds a cell exactly when the occupancy grid
        does not block it. */
    lemma CellIsPassable(r: int, c: int)
      requires Valid() && Mirrors() && 0 <= r < env.n && 0 <= c < env.n
      ensures IsCell(graph, Pos(r, c)) <==> env.maze[r, c] != Blocked
    {
      NodeAtHoldsPassableCells(Values(env.maze), r, c);
    }

    /** No cell is expanded twice and only cells are expanded, so the count
        never exceeds the number of passable cells. */
    method GetNumberOfNodesExpanded() returns (r: int)
      requires NoDup(visited) && forall i :: 0 <= i < |visited| ==> IsCell(graph, visited[i])
      ensures r == |visited| && r <= |PassableCells(graph)|
    {
      CountBound(graph, visited);
      r := |visited|;
    }

    /** The largest fringe size recorded at the head of a loop pass. */
    method GetMaximumFringeLength() returns (r: int)
      requires LargestFringe()
      ensures forall k :: 0 <= k < |fringeSizes| ==> fringeSizes[k] <= r
      ensures fringeSizes != [] ==> r in fringeSizes
      ensures fringeSizes == [] ==> r == 0
    {
      r := maxFringeLength;
    }

    /** The head of every engine loop: record the fringe size, and raise
        the largest size seen to it when it is at least as large. */
    method TrackFringe()
      requires LargestFringe()
      modifies this`maxFringeLength, this`fringeSizes
      ensures fringeSizes == old(fringeSizes) + [|fringe|]
      ensures maxFringeLength == if |fringe| >= old(maxFringeLength) then |fringe| else old(maxFringeLength)
      ensures LargestFringe()
    {
      fringeSizes := fringeSizes + [|fringe|];
      var fringeLength := |fringe|;
      if fringeLength >= maxFringeLength {
        maxFringeLength := fringeLength;
      }
    }

    /** The metrics: the path length (`get_final_path_length`), the largest
        fringe size recorded and the number of cells expanded. */
    method CreatePerformanceMetrics()
      requires LargestFringe()
      modifies this`performance
      ensures performance == Some(Metrics(|path|, maxFringeLength, |visited|))
    {
      var pathLength := |path|;
      var maximumFringeSize := GetMaximumFringeLength();
      var expanded := |visited|;
      performance := Some(Metrics(pathLength, maximumFringeSize, expanded));
    }

    /** The parent walk from start, start first. */
    method ParentChain(start: Pos) returns (chain: seq<Pos>)
      requires Ranked(parent, visited)
      ensures chain == Chain(parent, visited, start)
    {
      ghost var whole := Chain(parent, visited, start);
      chain := [];
      var node := start;
      var flag := true;
      while flag
        invariant |chain| < |whole| + (if flag then 0 else 1)
        invariant chain == whole[..|chain|]
        invariant flag ==> node == whole[|chain|]
        invariant !flag ==> |chain| == |whole|
        decreases |whole| - |chain|
      {
        assert whole[..|chain| + 1] == whole[..|chain|] + [node];
        chain := chain + [node];
        if node in parent {
          node := parent[node];
        } else {
          flag := false;
        }
      }
      assert whole[..|whole|] == whole;
    }

    /** `_get_final_path`: the parent walk from the destination, appended
        to the path; nothing when the destination holds no cell. */
    method GetFinalPath()
      requires |graph| == env.n >= 1 && |graph[env.n - 1]| == env.n && Ranked(parent, visited)
      modifies this`path
      ensures IsCell(graph, Dest(env.n)) ==> path == old(path) + Chain(parent, visited, Dest(env.n))
      ensures !IsCell(graph, Dest(env.n)) ==> path == old(path)
    {
      if graph[env.n - 1][env.n - 1].Some? {
        var chain := ParentChain(Dest(env.n));
        path := path + chain;
      }
    }

    /** Colour a path as visited, from its last cell to its first. */
    method PaintPath(chain: seq<Pos>)
      requires Valid() && forall i :: 0 <= i < |chain| ==> IsCell(graph, chain[i])
      modifies env.mazeCopy
      ensures Valid()
      ensures forall r, c :: 0 <= r < env.n && 0 <= c < env.n ==>
        env.mazeCopy[r, c] == if Pos(r, c) in chain && env.maze[r, c] != Endpoint then Visited else old(env.mazeCopy[r, c])
    {
      var k := |chain|;
      while k > 0
        invariant 0 <= k <= |chain| && Valid()
        invariant forall r, c :: 0 <= r < env.n && 0 <= c < env.n ==>
          env.mazeCopy[r, c] == if Pos(r, c) in chain[k..] && env.maze[r, c] != Endpoint then Visited else old(env.mazeCopy[r, c])
      {
        k := k - 1;
        var node := chain[k];
        assert chain[k..] == [node] + chain[k + 1..];
        env.UpdateColorOfCell(node.row, node.column);
      }
    }

    /** Colour a path as released, from its first cell to its last. */
    method ReleasePath(chain: seq<Pos>)
      requires Valid() && forall i :: 0 <= i < |chain| ==> IsCell(graph, chain[i])
      modifies env.mazeCopy
      ensures Valid()
      ensures forall r, c :: 0 <= r < env.n && 0 <= c < env.n ==>
        env.mazeCopy[r, c] == if Pos(r, c) in chain && env.maze[r, c] != Endpoint then Released else old(env.mazeCopy[r, c])
    {
      var k := 0;
      while k < |chain|
        invariant 0 <= k <= |chain| && Valid()
        invariant forall r, c :: 0 <= r < env.n && 0 <= c < env.n ==>
          env.mazeCopy[r, c] == if Pos(r, c) in chain[..k] && env.maze[r, c] != Endpoint then Released else old(env.mazeCopy[r, c])
      {
        var node := chain[k];
        assert chain[..k + 1] == chain[..k] + [node];
        env.ResetColorOfCell(node.row, node.column);
        k := k + 1;
      }
    }

    /** Fire score plus distance to the destination. */
    function FireKey(burning: set<Pos>, toDest: map<Pos, real>): Pos -> real
    {
      (c: Pos) => fireDistance(burning, c) + (if c in toDest then toDest[c] else 0.0)
    }

    /** The key the fire-aware queue orders by. The queue compares cells
        with their `__lt__`, which reads the tag of the environment's graph:
        under "firealgo" the key is the fire score plus the distance to the
        destination. Under any other tag it is the distance from the source
        plus the distance to the destination, and the distance from the
        source of every cell this search queues is still the initial
        infinity, so all keys are equal (a constant here). */
    function QueueKey(burning: set<Pos>, toDest: map<Pos, real>): Pos -> real
    {
      if env.algorithm == FireString then FireKey(burning, toDest) else (c: Pos) => 0.0
    }

    /** `_get_unvisited_children`: the present children not yet expanded.
        Under "firealgo" each gets its fire score and they come back in
        descending key order, the lowest key last; the fire score needs a
        burning position, so with none the `min` of an empty list raises
        (None here) before any score is written. */
    method GetUnvisitedChildren(children: seq<Option<Pos>>) returns (result: Option<seq<Pos>>)
      modifies this`distanceFromFire
      ensures result.Some? ==> forall x :: x in result.value <==> Some(x) in children && x !in visited
      ensures algorithm != FireString ==>
        result == Some(Unvisited(children, visited)) && distanceFromFire == old(distanceFromFire)
      ensures algorithm == FireString && Unvisited(children, visited) != [] && BurningCells(env.mazeCopy) == {} ==>
        result.None? && distanceFromFire == old(distanceFromFire)
      ensures algorithm == FireString && (Unvisited(children, visited) == [] || BurningCells(env.mazeCopy) != {}) ==>
        && result == Some(Reverse(SortByKey(Unvisited(children, visited), QueueKey(BurningCells(env.mazeCopy), distanceFromDest))))
        && distanceFromFire == old(distanceFromFire) + FireScores(BurningCells(env.mazeCopy), Unvisited(children, visited))
    {
      if algorithm != FireString {
        var unvisitedChildren := CollectUnvisited(children);
        return Some(unvisitedChildren);
      }
      var burning := BurningCells(env.mazeCopy);
      var key := QueueKey(burning, distanceFromDest);
      var queue := FireQueue(children, burning, key);
      if queue.None? {
        return None;
      }
      SortByKeyAscends(Unvisited(children, visited), key);
      var drained := Drain(queue.value, key);
      FireOrderPopsLowestKeyNext(Unvisited(children, visited), key);
      result := Some(Reverse(drained));
    }

    /** The child loop of `_get_unvisited_children` for a tag other than
        "firealgo": keep the present children not yet expanded, in order. */
    method CollectUnvisited(children: seq<Option<Pos>>) returns (unvisitedChildren: seq<Pos>)
      ensures unvisitedChildren == Unvisited(children, visited)
    {
      unvisitedChildren := [];
      for j := 0 to |children|
        invariant unvisitedChildren == Unvisited(children[..j], visited)
      {
        UnvisitedGrows(children, j, visited);
        var child := children[j];
        if child.Some? && child.value !in visited {
          unvisitedChildren := unvisitedChildren + [child.value];
        }
      }
      assert children[..|children|] == children;
    }

    /** The child loop of `_get_unvisited_children` under "firealgo": score
        each present child not yet expanded by its distance to the fire and
        put it into a queue kept in key order; scoring the first such child
        with nothing burning fails (None). */
    method FireQueue(children: seq<Option<Pos>>, burning: set<Pos>, key: Pos -> real) returns (queue: Option<seq<Pos>>)
      modifies this`distanceFromFire
      ensures Unvisited(children, visited) != [] && burning == {} ==>
        queue.None? && distanceFromFire == old(distanceFromFire)
      ensures Unvisited(children, visited) == [] || burning != {} ==>
        && queue == Some(SortByKey(Unvisited(children, visited), key))
        && distanceFromFire == old(distanceFromFire) + FireScores(burning, Unvisited(children, visited))
    {
      var q: seq<Pos> := [];
      for j := 0 to |children|
        invariant q == SortByKey(Unvisited(children[..j], visited), key)
        invariant distanceFromFire == old(distanceFromFire) + FireScores(burning, Unvisited(children[..j], visited))
        invariant Unvisited(children[..j], visited) != [] ==> burning != {}
      {
        UnvisitedGrows(children, j, visited);
        var child := children[j];
        if child.Some? && child.value !in visited {
          assert Unvisited(children[..j + 1], visited) == Unvisited(children[..j], visited) + [child.value];
          if burning == {} {
            assert children[..j + 1] + children[j + 1..] == children;
            UnvisitedPrefix(children[..j + 1], children[j + 1..], visited);
            return None;
          }
          ScoreChild(child.value, burning, Unvisited(children[..j], visited), old(distanceFromFire));
          SortByKeySnoc(Unvisited(children[..j], visited), child.value, key);
          q := Insert(q, child.value, key);
        } else {
          assert Unvisited(children[..j + 1], visited) == Unvisited(children[..j], visited);
        }
      }
      assert children[..|children|] == children;
      queue := Some(q);
    }

    /** `child.distance_from_fire = self._get_fire_distance(child)`: the
        scores recorded so far gain the score of c. */
    method ScoreChild(c: Pos, burning: set<Pos>, ghost cells: seq<Pos>, ghost base: map<Pos, real>)
      requires distanceFromFire == base + FireScores(burning, cells)
      modifies this`distanceFromFire
      ensures distanceFromFire == base + FireScores(burning, cells + [c])
    {
      FireScoresGrow(burning, cells, c);
      distanceFromFire := distanceFromFire[c := fireDistance(burning, c)];
    }

    /** Take every element out of a queue kept in key order, front first:
        every `get` hands out an element whose key is the lowest of those
        still queued. */
    static method Drain(queue: seq<Pos>, ghost key: Pos -> real) returns (drained: seq<Pos>)
      requires Ascending(queue, key)
      ensures drained == queue
      ensures forall i, j :: 0 <= i <= j < |queue| ==> key(drained[i]) <= key(queue[j])
    {
      drained := [];
      var rest := queue;
      while rest != []
        invariant drained + rest == queue
      {
        drained := drained + [rest[0]];
        rest := rest[1..];
      }
    }

    /** The fire score of each cell of cells. */
    function FireScores(burning: set<Pos>, cells: seq<Pos>): (m: map<Pos, real>)
      ensures forall p :: p in m <==> p in cells
      ensures forall p :: p in m ==> m[p] == fireDistance(burning, p)
    {
      map p | p in cells :: fireDistance(burning, p)
    }

    lemma FireScoresGrow(burning: set<Pos>, cells: seq<Pos>, x: Pos)
      ensures forall d: map<Pos, real> :: (d + FireScores(burning, cells))[x := fireDistance(burning, x)] == d + FireScores(burning, cells + [x])
    {
      forall d: map<Pos, real>
        ensures (d + FireScores(burning, cells))[x := fireDistance(burning, x)] == d + FireScores(burning, cells + [x])
      {
        var a, b := (d + FireScores(burning, cells))[x := fireDistance(burning, x)], d + FireScores(burning, cells + [x]);
        assert forall p :: p in cells + [x] <==> p in cells || p == x;
        assert a.Keys == b.Keys;
      }
    }

    /** Append the children to the fringe, each with node as its parent. */
    method PushChildren(node: Pos, kids: seq<Pos>)
      modifies this`parent, this`fringe
      ensures fringe == old(fringe) + kids && parent == Adopt(old(parent), kids, node)
    {
      for j := 0 to |kids|
        invariant fringe == old(fringe) + kids[..j] && parent == Adopt(old(parent), kids[..j], node)
      {
        var child := kids[j];
        assert kids[..j + 1] == kids[..j] + [child];
        AdoptLast(old(parent), kids[..j], child, node);
        parent := parent[child := node];
        fringe := fringe + [child];
      }
      assert kids[..|kids|] == kids;
    }

    /** The children the engines enumerate at a cell, in `get_children`
        order for the path finder's tag. */
    function ChildrenAt(u: Pos): seq<Option<Pos>>
      requires IsCell(graph, u)
    {
      GetChildren(NodeOf(graph, u), algorithm)
    }

    /** u has no present child outside the expanded cells v. */
    ghost predicate Exhausted(u: Pos, v: seq<Pos>)
    {
      IsCell(graph, u) && Unvisited(ChildrenAt(u), v) == []
    }

    /** kids is what `_get_unvisited_children` hands back at u, given the
        expanded cells v and the distances to the destination toDest: the
        present children outside v, in `get_children` order, or under
        "firealgo" in descending queue key for the burning positions
        burning. */
    ghost predicate Candidates(u: Pos, kids: seq<Pos>, v: seq<Pos>, toDest: map<Pos, real>, burning: set<Pos>)
      requires IsCell(graph, u)
    {
      if algorithm == FireString then
        kids == Reverse(SortByKey(Unvisited(ChildrenAt(u), v), QueueKey(burning, toDest)))
      else
        kids == Unvisited(ChildrenAt(u), v)
    }

    /** `_get_unvisited_children` on the children of a cell: its
        candidates, or None when scoring one finds nothing burning. */
    method CandidatesAt(node: Pos) returns (result: Option<seq<Pos>>)
      requires IsCell(graph, node)
      modifies this`distanceFromFire
      ensures result.None? ==> algorithm == FireString
      ensures result.Some? ==> Candidates(node, result.value, old(visited), old(distanceFromDest), BurningCells(env.mazeCopy)) && (result.value == [] <==> Exhausted(node, old(visited)))
      ensures result.Some? ==> forall q :: q in result.value <==> q in Links(graph, node) && q !in visited
      ensures algorithm != FireString ==> distanceFromFire == old(distanceFromFire)
    {
      var children := ChildrenAt(node);
      ghost var burning := BurningCells(env.mazeCopy);
      result := GetUnvisitedChildren(children);
      if result.Some? && algorithm == FireString {
        assert result.value == Reverse(SortByKey(Unvisited(children, visited), QueueKey(burning, distanceFromDest)));
      }
    }

    /** What the backtracking loop from start did, given the fringe f0 and
        the parents p0 it began with and the fringe f1 and the parents p1 it
        left (the expanded cells v and the distances toDest do not change,
        and burning is the set of burning positions on the display when the
        candidates were scored). Either no cell of the parent walk from start has a candidate, and
        nothing was queued; or the walk reached a cell whose earlier cells
        have none, and that cell's candidates, none of them expanded, were
        appended to f0 with it as their parent. */
    ghost predicate Backtracked(start: Pos, v: seq<Pos>, toDest: map<Pos, real>, burning: set<Pos>,
                                f0: seq<Pos>, p0: map<Pos, Pos>, f1: seq<Pos>, p1: map<Pos, Pos>)
    {
      && Ranked(p0, v)
      && f0 <= f1
      && var w := Chain(p0, v, start);
      if f1 == f0 then
        p1 == p0 && forall i :: 0 <= i < |w| ==> Exhausted(w[i], v)
      else
        exists j :: QueuedAt(start, v, toDest, burning, f0, p0, f1, p1, j)
    }

    /** The backtracking loop stopped at the j-th cell of the parent walk
        from start: the cells before it have no candidate, and its
        candidates, none of them expanded, were appended to f0 with it as
        their parent. */
    ghost predicate QueuedAt(start: Pos, v: seq<Pos>, toDest: map<Pos, real>, burning: set<Pos>,
                             f0: seq<Pos>, p0: map<Pos, Pos>, f1: seq<Pos>, p1: map<Pos, Pos>, j: int)
      requires Ranked(p0, v)
    {
      var w := Chain(p0, v, start);
      && 0 <= j < |w| && |f0| <= |f1|
      && (forall i :: 0 <= i < j ==> Exhausted(w[i], v))
      && IsCell(graph, w[j]) && Candidates(w[j], f1[|f0|..], v, toDest, burning)
      && p1 == Adopt(p0, f1[|f0|..], w[j])
      && forall q :: q in f1[|f0|..] ==> q !in v
    }

    /** Backtracking gives no expanded cell a new parent. */
    lemma BacktrackedKeepsParents(start: Pos, v: seq<Pos>, toDest: map<Pos, real>, burning: set<Pos>,
                                  f0: seq<Pos>, p0: map<Pos, Pos>, f1: seq<Pos>, p1: map<Pos, Pos>)
      requires Backtracked(start, v, toDest, burning, f0, p0, f1, p1)
      ensures forall p :: p in p0 && p in v ==> p in p1 && p1[p] == p0[p]
    {
    }

    /** The backtracking loop on its way up the parent walk from start:
        while it goes on (flag), node is the j-th cell of the walk, nothing
        has been queued and the cells before node have no candidate; once it
        stops, Backtracked holds. */
    ghost predicate Backtracking(start: Pos, v: seq<Pos>, toDest: map<Pos, real>, burning: set<Pos>, f0: seq<Pos>, p0: map<Pos, Pos>,
                                 j: nat, node: Pos, flag: bool, f1: seq<Pos>, p1: map<Pos, Pos>)
    {
      && Ranked(p0, v)
      && var w := Chain(p0, v, start);
      && (flag ==> j < |w| && node == w[j] && f1 == f0 && p1 == p0 && forall i :: 0 <= i < j ==> Exhausted(w[i], v))
      && (!flag ==> Backtracked(start, v, toDest, burning, f0, p0, f1, p1))
    }

    /** One pass of the backtracking loop keeps Backtracking: a cell with
        candidates ends the walk with them queued; a cell without moves the
        walk on to its parent, or ends it at the root with nothing queued.
        The pass starts at node with fringe f and parents p, scores the
        candidates with the burning positions burning, and leaves the
        fringe f1, the parents p1, the cell node1, the flag flag1 and the
        burning positions burning1 (the same unless the colour of node was
        released). */
    lemma BacktrackAdvance(start: Pos, v: seq<Pos>, toDest: map<Pos, real>, burning: set<Pos>, burning1: set<Pos>, f0: seq<Pos>, p0: map<Pos, Pos>,
                           j: nat, node: Pos, f: seq<Pos>, p: map<Pos, Pos>, kids: seq<Pos>,
                           j1: nat, node1: Pos, flag1: bool, f1: seq<Pos>, p1: map<Pos, Pos>)
      requires Backtracking(start, v, toDest, burning, f0, p0, j, node, true, f, p)
      requires IsCell(graph, node) && Candidates(node, kids, v, toDest, burning) && (kids == [] <==> Exhausted(node, v))
      requires forall q :: q in kids ==> q !in v
      requires f1 == f + kids && p1 == Adopt(p, kids, node)
      requires flag1 == (kids == [] && node in p) && node1 == (if node in p then p[node] else node)
      requires j1 == if flag1 then j + 1 else j
      requires kids != [] ==> burning1 == burning
      ensures Backtracking(start, v, toDest, burning1, f0, p0, j1, node1, flag1, f1, p1)
    {
      var w := Chain(p0, v, start);
      if kids != [] {
        BacktrackQueues(start, v, toDest, burning, f0, p0, j, node, kids);
      } else {
        AdoptNothing(p0, node);
        if node in p0 {
          assert j < |w| - 1;
        } else {
          BacktrackReachesRoot(start, v, toDest, burning1, f0, p0, j, node);
        }
      }
    }

    /** The walk stops at the j-th cell of the parent walk when it has
        candidates: they are queued with it as their parent. */
    lemma BacktrackQueues(start: Pos, v: seq<Pos>, toDest: map<Pos, real>, burning: set<Pos>, f0: seq<Pos>, p0: map<Pos, Pos>,
                          j: nat, node: Pos, kids: seq<Pos>)
      requires Ranked(p0, v)
      requires j < |Chain(p0, v, start)| && node == Chain(p0, v, start)[j]
      requires forall i :: 0 <= i < j ==> Exhausted(Chain(p0, v, start)[i], v)
      requires IsCell(graph, node) && Candidates(node, kids, v, toDest, burning) && kids != []
      requires forall q :: q in kids ==> q !in v
      ensures Backtracked(start, v, toDest, burning, f0, p0, f0 + kids, Adopt(p0, kids, node))
    {
      var f1 := f0 + kids;
      assert f1[|f0|..] == kids;
      assert f0 <= f1 && f1 != f0 by {
        assert |f1| > |f0|;
      }
      assert QueuedAt(start, v, toDest, burning, f0, p0, f1, Adopt(p0, kids, node), j);
    }

    /** The walk stops after the root of the parent walk when no cell on it
        has candidates: nothing is queued. */
    lemma BacktrackReachesRoot(start: Pos, v: seq<Pos>, toDest: map<Pos, real>, burning: set<Pos>, f0: seq<Pos>, p0: map<Pos, Pos>,
                               j: nat, node: Pos)
      requires Ranked(p0, v)
      requires j < |Chain(p0, v, start)| && node == Chain(p0, v, start)[j]
      requires forall i :: 0 <= i < j ==> Exhausted(Chain(p0, v, start)[i], v)
      requires Exhausted(node, v) && node !in p0
      ensures Backtracked(start, v, toDest, burning, f0, p0, f0, p0)
    {
      assert j == |Chain(p0, v, start)| - 1;
    }

    /** The second half of a backtracking pass: queue the candidates kids
        of node with node as their parent, or, when there are none, release
        the colour of node. Either way every neighbour of node is then
        expanded or queued. */
    method Settle(node: Pos, kids: seq<Pos>)
      requires Valid() && Tree(graph, visited, fringe, parent) && node in visited && IsCell(graph, node)
      requires forall q :: q in kids <==> q in Links(graph, node) && q !in visited
      modifies this`parent, this`fringe, env.mazeCopy
      ensures Valid()
      ensures Settled(graph, visited, old(fringe), old(parent), fringe, parent, node, kids)
      ensures kids != [] ==> BurningCells(env.mazeCopy) == old(BurningCells(env.mazeCopy))
      ensures forall r, c :: 0 <= r < env.n && 0 <= c < env.n ==>
        env.mazeCopy[r, c] ==
          if kids == [] && Pos(r, c) == node && env.maze[r, c] != Endpoint then Released
          else old(env.mazeCopy[r, c])
    {
      PushSettles(graph, visited, fringe, parent, node, kids);
      if |kids| == 0 {
        env.ResetColorOfCell(node.row, node.column);
      } else {
        PushChildren(node, kids);
      }
    }

    /** The rest of a backtracking pass once the candidates kids of node
        are scored (with the burning positions b): Settle them, then move
        to the parent of node. The walk goes on (flag) only when node had
        no candidates and has a parent. */
    method SettleAndMove(start: Pos, node: Pos, kids: seq<Pos>, ghost expanded: bool, ghost j: nat,
                         ghost v: seq<Pos>, ghost d: map<Pos, real>, ghost b: set<Pos>,
                         ghost f0: seq<Pos>, ghost p0: map<Pos, Pos>)
        returns (next: Pos, flag: bool, ghost j1: nat)
      requires Valid() && Tree(graph, visited, fringe, parent) && node in visited && IsCell(graph, node)
      requires !expanded ==> node == start && ClosedBut(graph, visited, fringe, start)
      requires expanded ==> Closed(graph, visited, fringe)
      requires visited == v && distanceFromDest == d && b == BurningCells(env.mazeCopy)
      requires Backtracking(start, v, d, b, f0, p0, j, node, true, fringe, parent)
      requires Candidates(node, kids, v, d, b) && (kids == [] <==> Exhausted(node, v))
      requires forall q :: q in kids <==> q in Links(graph, node) && q !in visited
      modifies this`parent, this`fringe, env.mazeCopy
      ensures Valid() && Tree(graph, visited, fringe, parent)
      ensures CountIn(fringe, visited) == old(CountIn(fringe, visited))
      ensures next in visited && Closed(graph, visited, fringe)
      ensures Backtracking(start, v, d, BurningCells(env.mazeCopy), f0, p0, j1, next, flag, fringe, parent)
      ensures flag ==> Rank(visited, next) < Rank(visited, node)
      ensures forall r, c :: 0 <= r < env.n && 0 <= c < env.n ==>
        env.mazeCopy[r, c] ==
          if kids == [] && Pos(r, c) == node && env.maze[r, c] != Endpoint then Released
          else old(env.mazeCopy[r, c])
    {
      ghost var f, p := fringe, parent;
      Settle(node, kids);
      ghost var b1 := BurningCells(env.mazeCopy);
      if !expanded {
        ExpandedCloses(graph, visited, fringe, start);
      }
      flag := true;
      if kids != [] {
        flag := false;
      }
      next := node;
      if node in parent {
        next := parent[node];
      } else {
        flag := false;
      }
      j1 := if flag then j + 1 else j;
      BacktrackAdvance(start, v, d, b, b1, f0, p0, j, node, f, p, kids, j1, next, flag, fringe, parent);
    }

    /** The state of the backtracking loop from start at node: a search
        tree in which node is expanded; every neighbour of an expanded cell
        is expanded or queued, start's too once it has been passed
        (expanded); the expanded cells v and the distances d are those the
        loop began with; and the walk is Backtracking over the burning
        positions of the display. */
    ghost predicate Walking(start: Pos, node: Pos, expanded: bool, flag: bool, j: nat,
                            v: seq<Pos>, d: map<Pos, real>, f0: seq<Pos>, p0: map<Pos, Pos>)
      reads this`visited, this`fringe, this`parent, this`distanceFromDest, env, env.mazeCopy
    {
      && Tree(graph, visited, fringe, parent) && node in visited
      && (!expanded ==> node == start && ClosedBut(graph, visited, fringe, start))
      && (expanded ==> Closed(graph, visited, fringe))
      && visited == v && distanceFromDest == d
      && Backtracking(start, v, d, BurningCells(env.mazeCopy), f0, p0, j, node, flag, fringe, parent)
    }

    /** One pass of the backtracking loop, from node: its candidates
        (ValueError when scoring them finds nothing burning), then
        SettleAndMove. */
    method BacktrackPass(start: Pos, node: Pos, ghost expanded: bool, ghost j: nat,
                         ghost v: seq<Pos>, ghost d: map<Pos, real>, ghost f0: seq<Pos>, ghost p0: map<Pos, Pos>)
        returns (raised: Option<Error>, next: Pos, flag: bool, ghost j1: nat)
      requires Valid() && Walking(start, node, expanded, true, j, v, d, f0, p0)
      modifies this`parent, this`fringe, this`distanceFromFire, env.mazeCopy
      ensures Valid() && Tree(graph, visited, fringe, parent)
      ensures CountIn(fringe, visited) == old(CountIn(fringe, visited))
      ensures raised.Some? ==> raised == Some(ValueError) && algorithm == FireString && parent == old(parent)
      ensures raised.None? ==> Walking(start, next, true, flag, j1, v, d, f0, p0)
      ensures raised.None? && flag ==> Rank(visited, next) < Rank(visited, node)
      ensures forall r, c :: 0 <= r < env.n && 0 <= c < env.n ==>
        env.mazeCopy[r, c] ==
          if raised.None? && Pos(r, c) == node && Exhausted(node, v) && env.maze[r, c] != Endpoint then Released
          else old(env.mazeCopy[r, c])
    {
      var unvisitedChildren := CandidatesAt(node);
      if unvisitedChildren.None? {
        return Some(ValueError), node, false, j;
      }
      raised := None;
      next, flag, j1 := SettleAndMove(start, node, unvisitedChildren.value, expanded, j, v, d, BurningCells(env.mazeCopy), f0, p0);
    }

    /** The backtracking loop of depth-first search and of the fire-aware
        search. Starting at the cell just expanded: if it has candidates,
        queue them all with it as parent and stop; otherwise release its
        colour and try its parent, up the parent walk until some cell has
        candidates or the root has been tried. Expanded cells keep their
        parents. */
    method Backtrack(start: Pos) returns (raised: Option<Error>)
      requires Valid() && Tree(graph, visited, fringe, parent) && start in visited
      requires ClosedBut(graph, visited, fringe, start)
      modifies this`parent, this`fringe, this`distanceFromFire, env.mazeCopy
      ensures Valid() && Tree(graph, visited, fringe, parent)
      ensures raised.None? ==> Closed(graph, visited, fringe)
      ensures raised.None? ==> Backtracked(start, visited, distanceFromDest, BurningCells(env.mazeCopy), old(fringe), old(parent), fringe, parent)
      ensures raised.Some? ==> raised == Some(ValueError) && algorithm == FireString
      ensures CountIn(fringe, visited) == old(CountIn(fringe, visited))
      ensures forall p :: p in old(parent) && p in visited ==> p in parent && parent[p] == old(parent)[p]
    {
      var node := start;
      var flag := true;
      ghost var expanded := false;
      ghost var v, d, f0, p0 := visited, distanceFromDest, fringe, parent;
      ghost var j := 0;
      while flag
        invariant Valid() && Walking(start, node, expanded, flag, j, v, d, f0, p0)
        invariant CountIn(fringe, visited) == old(CountIn(fringe, visited))
        invariant !flag ==> expanded
        invariant flag ==> parent == p0
        decreases if flag then Rank(visited, node) + 1 else 0
      {
        raised, node, flag, j := BacktrackPass(start, node, expanded, j, v, d, f0, p0);
        if raised.Some? {
          return;
        }
        expanded := true;
      }
      BacktrackedKeepsParents(start, v, d, BurningCells(env.mazeCopy), f0, p0, fringe, parent);
      raised := None;
    }

    /** One pass of the depth-first loop: pop the most recently queued
        cell and colour it; unless it is the destination, expand it and
        backtrack from it. */
    method DfsStep(dest: Pos) returns (found: bool)
      requires Valid() && algorithm != FireString && fringe != []
      requires Tree(graph, visited, fringe, parent) && Closed(graph, visited, fringe)
      modifies this`visited, this`fringe, this`parent, this`distanceFromFire, env.mazeCopy
      ensures Valid() && Tree(graph, visited, fringe, parent) && visited[0] == old(visited[0])
      ensures found <==> old(fringe[|fringe| - 1]) == dest
      ensures found ==> visited == old(visited) && fringe == old(fringe[..|fringe| - 1]) && parent == old(parent)
      ensures found ==> dest == visited[0] || dest in parent
      ensures !found ==> visited == Visit(old(visited), old(fringe[|fringe| - 1]))
      ensures !found ==> Backtracked(old(fringe[|fringe| - 1]), visited, distanceFromDest, BurningCells(env.mazeCopy), old(fringe[..|fringe| - 1]), old(parent), fringe, parent)
      ensures !found ==> Closed(graph, visited, fringe) && Progress(graph, old(visited), old(fringe), visited, fringe)
    {
      var i := |fringe| - 1;
      var node := fringe[i];
      PopKeepsSearch(graph, visited, fringe, parent, i);
      assert Remove(fringe, i) == fringe[..i];
      fringe := Remove(fringe, i);
      env.UpdateColorOfCell(node.row, node.column);
      if node == dest {
        return true;
      }
      visited := Visit(visited, node);
      var raised := Backtrack(node);
      found := false;
    }

    /** `_run_dfs`: pop the most recently queued cell; stop when it is the
        destination; otherwise expand it and backtrack. */
    method RunDfs(root: Pos, dest: Pos)
      requires Valid() && Initial() && algorithm == DfsString && IsCell(graph, root)
      modifies this`visited, this`fringe, this`parent, this`distanceFromFire, this`maxFringeLength,
               this`fringeSizes, env.mazeCopy
      ensures Valid() && Finished(root, dest)
    {
      fringe := [root];
      visited := visited + [root];
      StartIsTree(graph, root);
      var found := false;
      while !found && fringe != []
        invariant Valid() && Tree(graph, visited, fringe, parent) && visited[0] == root && LargestFringe()
        invariant found ==> maxFringeLength >= 1 && (dest == root || dest in parent)
        invariant !found ==> Closed(graph, visited, fringe) && (maxFringeLength >= 1 || fringe != [])
        decreases !found, Unexpanded(graph, visited), CountIn(fringe, visited)
      {
        TrackFringe();
        found := DfsStep(dest);
      }
    }

    /** Queue each cell of kids not already queued (each once), with node
        as its parent. */
    method ExpandBfs(node: Pos, kids: seq<Pos>)
      modifies this`parent, this`fringe
      ensures fringe == old(fringe) + NewKids(old(fringe), kids)
      ensures parent == Adopt(old(parent), NewKids(old(fringe), kids), node)
    {
      for j := 0 to |kids|
        invariant fringe == old(fringe) + NewKids(old(fringe), kids[..j])
        invariant parent == Adopt(old(parent), NewKids(old(fringe), kids[..j]), node)
      {
        var child := kids[j];
        assert kids[..j + 1][..j] == kids[..j];
        if child !in fringe {
          AdoptLast(old(parent), NewKids(old(fringe), kids[..j]), child, node);
          parent := parent[child := node];
          fringe := fringe + [child];
        }
      }
      assert kids[..|kids|] == kids;
    }

    /** Take the oldest queued cell off the fringe and expand it. */
    method BfsPull() returns (node: Pos)
      requires fringe != [] && Tree(graph, visited, fringe, parent) && Closed(graph, visited, fringe) && NoDup(fringe)
      modifies this`visited, this`fringe
      ensures node == old(fringe[0]) && fringe == old(fringe[1..]) && visited == Visit(old(visited), node)
      ensures Tree(graph, visited, fringe, parent) && visited[0] == old(visited[0]) && NoDup(fringe)
      ensures node == visited[0] || node in parent
      ensures ClosedBut(graph, visited, fringe, node)
      ensures Progress(graph, old(visited), old(fringe), visited, fringe)
    {
      node := fringe[0];
      PopKeepsSearch(graph, visited, fringe, parent, 0);
      RemoveKeepsNoDup(fringe, 0);
      assert Remove(fringe, 0) == fringe[1..];
      fringe := Remove(fringe, 0);
      visited := Visit(visited, node);
    }

    /** Queue the unexpanded neighbours of node that are not queued yet,
        in the order the graph lists them, with node as their parent;
        every neighbour of node is then expanded or queued. */
    method BfsExpand(node: Pos)
      requires Valid() && algorithm == BfsString && node in visited && NoDup(fringe)
      requires Tree(graph, visited, fringe, parent) && ClosedBut(graph, visited, fringe, node)
      modifies this`fringe, this`parent, this`distanceFromFire
      ensures IsCell(graph, node)
      ensures fringe == old(fringe) + NewKids(old(fringe), Unvisited(ChildrenAt(node), visited))
      ensures parent == Adopt(old(parent), NewKids(old(fringe), Unvisited(ChildrenAt(node), visited)), node)
      ensures distanceFromFire == old(distanceFromFire)
      ensures Tree(graph, visited, fringe, parent) && Closed(graph, visited, fringe) && NoDup(fringe)
      ensures CountIn(fringe, visited) == old(CountIn(fringe, visited))
    {
      var children := ChildrenAt(node);
      var unvisitedChildren := GetUnvisitedChildren(children);
      var kids := unvisitedChildren.value;
      ghost var added := NewKids(fringe, kids);
      PushKeepsTree(graph, visited, fringe, parent, node, added);
      PushKeepsCount(fringe, added, visited);
      PushKeepsClosure(graph, visited, fringe, added);
      NewKidsKeepNoDup(fringe, kids);
      ExpandBfs(node, kids);
      assert Expanded(graph, visited, fringe, node);
      ExpandedCloses(graph, visited, fringe, node);
    }

    /** Colour the parent walk to node, root first; unless node is the
        destination, release it again, node first. Either way only the
        cells of that walk change colour, endpoints excepted: they end
        visited when node is the destination and released otherwise. */
    method ShowPath(node: Pos, dest: Pos) returns (found: bool)
      requires Valid() && Tree(graph, visited, fringe, parent) && (node == visited[0] || node in parent)
      modifies env.mazeCopy
      ensures Valid()
      ensures found <==> node == dest
      ensures forall r, c :: 0 <= r < env.n && 0 <= c < env.n ==>
        env.mazeCopy[r, c] ==
          if Pos(r, c) in Chain(parent, visited, node) && env.maze[r, c] != Endpoint then (if found then Visited else Released)
          else old(env.mazeCopy[r, c])
    {
      var tempPath := ParentChain(node);
      ChainWalksFromRoot(graph, visited, fringe, parent, node);
      PaintPath(tempPath);
      if node == dest {
        return true;
      }
      ReleasePath(tempPath);
      found := false;
    }

    /** One pass of the breadth-first loop: pull the oldest queued cell,
        queue its new neighbours, show the parent walk to it. */
    method BfsStep(dest: Pos) returns (found: bool)
      requires Valid() && algorithm == BfsString && fringe != []
      requires Tree(graph, visited, fringe, parent) && Closed(graph, visited, fringe) && NoDup(fringe)
      modifies this`visited, this`fringe, this`parent, this`distanceFromFire, env.mazeCopy
      ensures Valid() && Tree(graph, visited, fringe, parent) && visited[0] == old(visited[0])
      ensures Closed(graph, visited, fringe) && NoDup(fringe)
      ensures found <==> old(fringe[0]) == dest
      ensures visited == Visit(old(visited), old(fringe[0])) && IsCell(graph, old(fringe[0]))
      ensures fringe == old(fringe[1..]) + NewKids(old(fringe[1..]), Unvisited(ChildrenAt(old(fringe[0])), visited))
      ensures parent == Adopt(old(parent), NewKids(old(fringe[1..]), Unvisited(ChildrenAt(old(fringe[0])), visited)), old(fringe[0]))
      ensures found ==> dest == visited[0] || dest in parent
      ensures !found ==> Progress(graph, old(visited), old(fringe), visited, fringe)
      ensures forall r, c :: 0 <= r < env.n && 0 <= c < env.n ==>
        env.mazeCopy[r, c] ==
          if Pos(r, c) in Chain(parent, visited, old(fringe[0])) && env.maze[r, c] != Endpoint then (if found then Visited else Released)
          else old(env.mazeCopy[r, c])
    {
      var node := BfsPull();
      BfsExpand(node);
      found := ShowPath(node, dest);
    }

    /** `_run_bfs`: expand cells in the order they were queued; stop once
        the destination has been expanded. No cell is queued twice at
        once, so the fringe never holds more entries than there are
        passable cells. */
    method RunBfs(root: Pos, dest: Pos)
      requires Valid() && Initial() && algorithm == BfsString && IsCell(graph, root)
      modifies this`visited, this`fringe, this`parent, this`distanceFromFire, this`maxFringeLength,
               this`fringeSizes, env.mazeCopy
      ensures Valid() && Finished(root, dest)
      ensures NoDup(fringe) && maxFringeLength <= |PassableCells(graph)|
    {
      fringe := [root];
      visited := visited + [root];
      StartIsTree(graph, root);
      var found := false;
      while !found && fringe != []
        invariant Valid() && Tree(graph, visited, fringe, parent) && visited[0] == root && LargestFringe()
        invariant NoDup(fringe) && maxFringeLength <= |PassableCells(graph)|
        invariant found ==> maxFringeLength >= 1 && (dest == root || dest in parent)
        invariant !found ==> Closed(graph, visited, fringe) && (maxFringeLength >= 1 || fringe != [])
        decreases !found, Unexpanded(graph, visited), CountIn(fringe, visited)
      {
        found := BfsRound(dest);
      }
    }

    /** The body of the `_run_bfs` loop: record the fringe length, then
        run BfsStep. The loop needs only the search invariants from it. */
    method BfsRound(dest: Pos) returns (found: bool)
      requires Valid() && algorithm == BfsString && fringe != [] && LargestFringe()
      requires Tree(graph, visited, fringe, parent) && Closed(graph, visited, fringe) && NoDup(fringe)
      requires maxFringeLength <= |PassableCells(graph)|
      modifies this`visited, this`fringe, this`parent, this`distanceFromFire, this`maxFringeLength,
               this`fringeSizes, env.mazeCopy
      ensures Valid() && Tree(graph, visited, fringe, parent) && visited[0] == old(visited[0])
      ensures Closed(graph, visited, fringe) && NoDup(fringe)
      ensures fringeSizes == old(fringeSizes) + [old(|fringe|)] && LargestFringe()
      ensures 1 <= maxFringeLength <= |PassableCells(graph)|
      ensures found <==> old(fringe[0]) == dest
      ensures found ==> dest == visited[0] || dest in parent
      ensures !found ==> Progress(graph, old(visited), old(fringe), visited, fringe)
    {
      CountBound(graph, fringe);
      TrackFringe();
      ghost var mx, sizes := maxFringeLength, fringeSizes;
      assert 1 <= mx <= |PassableCells(graph)|;
      found := BfsStep(dest);
      assert maxFringeLength == mx && fringeSizes == sizes;
    }

    /** The body of the child loop of `_run_astar`: a neighbour that is
        neither missing nor expanded is queued with its distances when it
        is not yet queued, and re-parented through node when it is queued
        and the relaxation test holds. Under the "firealgo" tag of the
        environment's cells both the queue's comparison and the relaxation
        test add a fire distance A* never sets, and raise TypeError: the
        put raises once some other cell is queued (after the parent and the
        distances are written and the cell is appended to the queue, when
        the queue compares it with the cells already there), the test raises
        whenever it runs. */
    method RelaxChild(node: Pos, child: Option<Pos>) returns (raised: bool)
      requires algorithm == AStarString && node in visited && node in distanceFromSource
      requires Scored(Front(), visited)
      modifies this`fringe, this`parent, this`distanceFromSource, this`distanceFromDest
      ensures raised <==> env.algorithm == FireString && child.Some? && child.value !in visited && old(fringe) != []
      ensures !raised ==> Front() == Relax(old(Front()), visited, node, child, destDistance)
      ensures raised && child.value !in old(fringe) ==>
        Front() == Queue(old(Front()), node, child.value, destDistance)
      ensures raised && child.value in old(fringe) ==> Front() == old(Front())
    {
      if child.None? || child.value in visited {
        return false;
      }
      var c := child.value;
      if c !in fringe {
        parent := parent[c := node];
        distanceFromDest := distanceFromDest[c := destDistance(c)];
        distanceFromSource := distanceFromSource[c := distanceFromSource[node] + 1];
        var queued := fringe != [];
        fringe := fringe + [c];
        if env.algorithm == FireString && queued {
          return true;
        }
      } else if env.algorithm == FireString {
        return true;
      } else if GetHeuristic(env.algorithm, Scores(distanceFromSource[c] as real, distanceFromDest[c], 0.0))
                >= distanceFromSource[node] as real + distanceFromDest[c] {
        parent := parent[c := node];
        distanceFromSource := distanceFromSource[c := distanceFromSource[node] + 1];
      }
      raised := false;
    }

    /** The child loop of `_run_astar` at node: relax its four neighbours
        in order. Under the "firealgo" tag of the environment's cells it
        raises TypeError exactly when node has two unexpanded neighbours,
        or one while some other cell is queued. */
    method ExpandAStar(node: Pos) returns (raised: bool)
      requires algorithm == AStarString && IsCell(graph, node) && node in visited && node in distanceFromSource
      requires Scored(Front(), visited)
      modifies this`fringe, this`parent, this`distanceFromSource, this`distanceFromDest
      ensures raised <==> (env.algorithm == FireString &&
                           |Unvisited(ChildrenAt(node), visited)| >= if old(fringe) == [] then 2 else 1)
      ensures !raised ==> Front() == RelaxAll(old(Front()), visited, node, ChildrenAt(node), destDistance)
    {
      var children := ChildrenAt(node);
      for j := 0 to |children|
        invariant Front() == RelaxAll(old(Front()), visited, node, children[..j], destDistance)
        invariant env.algorithm == FireString ==>
          fringe == old(fringe) + Unvisited(children[..j], visited)
          && |Unvisited(children[..j], visited)| <= if old(fringe) == [] then 1 else 0
      {
        assert children[..j + 1][..j] == children[..j];
        UnvisitedGrows(children, j, visited);
        raised := RelaxChild(node, children[j]);
        if raised {
          UnvisitedTakeLength(children, j + 1, visited);
          return;
        }
      }
      assert children[..|children|] == children;
      raised := false;
    }

    /** One pass of the A* loop: `self.fringe.get()` hands out some queued
        cell, the i-th (which one the heap returns is left open); it is
        expanded and its children are relaxed; unless that raised, the
        parent walk to it is shown, and the pass finds the destination
        when the cell is the destination. */
    method AStarStep(dest: Pos) returns (found: bool, raised: bool, ghost i: nat, ghost walk: seq<Pos>)
      requires Valid() && algorithm == AStarString && fringe != []
      requires Consistent(graph, visited, Front()) && Closed(graph, visited, fringe)
      modifies this`visited, this`fringe, this`parent, this`distanceFromSource, this`distanceFromDest, env.mazeCopy
      ensures Valid() && i < |old(fringe)| && IsCell(graph, old(fringe)[i])
      ensures visited == Visit(old(visited), old(fringe)[i])
      ensures raised <==> (env.algorithm == FireString &&
                           |Unvisited(ChildrenAt(old(fringe)[i]), visited)| >= if Remove(old(fringe), i) == [] then 2 else 1)
      ensures !raised ==> Front() == RelaxAll(Popped(old(Front()), i), visited, old(fringe)[i], ChildrenAt(old(fringe)[i]), destDistance)
      ensures found <==> !raised && old(fringe)[i] == dest
      ensures !raised ==> Consistent(graph, visited, Front()) && visited[0] == old(visited[0]) && Closed(graph, visited, fringe)
      ensures found ==> dest == visited[0] || dest in parent
      ensures !raised && !found ==> Progress(graph, old(visited), old(fringe), visited, fringe)
      ensures !raised ==> walk == Chain(parent, visited, old(fringe)[i])
      ensures raised ==> walk == []
      ensures forall r, c :: 0 <= r < env.n && 0 <= c < env.n ==>
        env.mazeCopy[r, c] ==
          if Pos(r, c) in walk && env.maze[r, c] != Endpoint then (if found then Visited else Released)
          else old(env.mazeCopy[r, c])
    {
      var k :| 0 <= k < |fringe|;
      i := k;
      var node := fringe[k];
      ghost var children := ChildrenAt(node);
      ghost var st := Front();
      PassKeepsConsistent(graph, visited, st, i, children, destDistance);
      fringe := Remove(fringe, k);
      visited := Visit(visited, node);
      assert Front() == Popped(st, i);
      raised := ExpandAStar(node);
      if raised {
        return false, true, i, [];
      }
      ghost var r := RelaxAll(Popped(st, i), visited, node, children, destDistance);
      assert Front() == r;
      assert Tree(graph, visited, r.fringe, r.parent);
      walk := Chain(parent, visited, node);
      found := ShowPath(node, dest);
    }

    /** The body of the `_run_astar` loop: record the fringe length, then
        run AStarStep. The loop needs only the search invariants from it. */
    method AStarRound(dest: Pos) returns (found: bool, raised: bool)
      requires Valid() && algorithm == AStarString && fringe != [] && LargestFringe()
      requires Consistent(graph, visited, Front()) && Closed(graph, visited, fringe)
      requires maxFringeLength <= |PassableCells(graph)|
      modifies this`visited, this`fringe, this`parent, this`distanceFromSource, this`distanceFromDest,
               this`maxFringeLength, this`fringeSizes, env.mazeCopy
      ensures Valid() && fringeSizes == old(fringeSizes) + [old(|fringe|)] && LargestFringe()
      ensures 1 <= maxFringeLength <= |PassableCells(graph)|
      ensures raised ==> env.algorithm == FireString
      ensures !raised ==> Consistent(graph, visited, Front()) && visited[0] == old(visited[0]) && Closed(graph, visited, fringe)
      ensures found ==> !raised && (dest == visited[0] || dest in parent)
      ensures !raised && !found ==> Progress(graph, old(visited), old(fringe), visited, fringe)
    {
      assert Tree(graph, visited, fringe, parent) && NoDup(fringe);
      CountBound(graph, fringe);
      TrackFringe();
      ghost var i, walk;
      found, raised, i, walk := AStarStep(dest);
    }

    /** The loop of `_run_astar`: pass after pass until the queue is empty,
        the destination has been expanded, or a pass raised TypeError. */
    method AStarLoop(root: Pos, dest: Pos) returns (raised: bool)
      requires Valid() && algorithm == AStarString && LargestFringe()
      requires Consistent(graph, visited, Front()) && visited[0] == root && Closed(graph, visited, fringe)
      requires maxFringeLength >= 1 || fringe != []
      requires maxFringeLength <= |PassableCells(graph)|
      modifies this`visited, this`fringe, this`parent, this`distanceFromSource, this`distanceFromDest,
               this`maxFringeLength, this`fringeSizes, env.mazeCopy
      ensures Valid() && LargestFringe() && 1 <= maxFringeLength <= |PassableCells(graph)|
      ensures raised ==> env.algorithm == FireString
      ensures !raised ==> Consistent(graph, visited, Front()) && visited[0] == root && Closed(graph, visited, fringe)
      ensures !raised ==> dest == root || dest in parent || fringe == []
    {
      var found := false;
      raised := false;
      while fringe != [] && !found && !raised
        invariant Valid() && LargestFringe() && maxFringeLength <= |PassableCells(graph)|
        invariant maxFringeLength >= 1 || fringe != []
        invariant raised ==> env.algorithm == FireString && maxFringeLength >= 1
        invariant !raised ==> Consistent(graph, visited, Front()) && visited[0] == root && Closed(graph, visited, fringe)
        invariant found ==> !raised && maxFringeLength >= 1 && (dest == root || dest in parent)
        decreases !found && !raised, Unexpanded(graph, visited), CountIn(fringe, visited)
      {
        found, raised := AStarRound(dest);
      }
    }

    /** `_run_astar`: the root is at distance zero; expand queued cells,
        queueing new neighbours with their distances and re-parenting
        queued ones; stop once the destination has been expanded. The
        recorded distance of every cell with a parent is one more than its
        parent's. TypeError only under the "firealgo" tag of the
        environment's cells. */
    method RunAStar(root: Pos, dest: Pos) returns (raised: bool)
      requires Valid() && Initial() && algorithm == AStarString && IsCell(graph, root)
      modifies this`visited, this`fringe, this`parent, this`distanceFromSource, this`distanceFromDest,
               this`maxFringeLength, this`fringeSizes, env.mazeCopy
      ensures Valid() && LargestFringe() && maxFringeLength <= |PassableCells(graph)|
      ensures raised ==> env.algorithm == FireString
      ensures !raised ==> Finished(root, dest) && NoDup(fringe)
      ensures !raised ==> Distances(distanceFromSource, parent, root)
      ensures !raised && dest in parent ==> dest in distanceFromSource && |Chain(parent, visited, dest)| == distanceFromSource[dest] + 1
    {
      distanceFromSource := distanceFromSource[root := 0];
      fringe := [root];
      visited := visited + [root];
      StartIsTree(graph, root);
      RootParity(root);
      raised := AStarLoop(root, dest);
      if !raised && dest in parent {
        ChainMeasuresDistance(distanceFromSource, parent, visited, dest);
      }
    }

    /** A cell the fire spread may ignite: a neighbour of a burning
        position, other than the two corners. */
    ghost predicate CanIgnite(burning: set<Pos>, p: Pos)
    {
      p != Root && p != Dest(env.n) && SpreadsFrom(graph, burning, p)
    }

    /** The burning positions of the display grid, in row-major order
        (`np.argwhere(self.maze.maze_copy == 3)`). */
    method BurningSnapshot() returns (fire: seq<Pos>)
      requires Valid()
      ensures forall p :: p in fire <==> p in BurningCells(env.mazeCopy)
      ensures forall i, j :: 0 <= i < j < |fire| ==> RowMajorBefore(fire[i], fire[j])
    {
      fire := [];
      for r := 0 to env.n
        invariant forall p :: p in fire <==> p in BurningCells(env.mazeCopy) && p.row < r
        invariant forall i, j :: 0 <= i < j < |fire| ==> RowMajorBefore(fire[i], fire[j])
      {
        for c := 0 to env.n
          invariant forall p :: p in fire <==> p in BurningCells(env.mazeCopy) && (p.row < r || (p.row == r && p.column < c))
          invariant forall i, j :: 0 <= i < j < |fire| ==> RowMajorBefore(fire[i], fire[j])
        {
          if env.mazeCopy[r, c] == Burning {
            fire := fire + [Pos(r, c)];
          }
        }
      }
    }

    /** The spread from one burning cell p: each present neighbour of p may
        catch fire (an independent coin flip each). */
    method SpreadFrom(p: Pos, ghost burning: set<Pos>)
      requires Valid() && IsCell(graph, p) && p in burning
      modifies env.mazeCopy
      ensures Valid()
      ensures forall r, c :: 0 <= r < env.n && 0 <= c < env.n ==>
        env.mazeCopy[r, c] == old(env.mazeCopy[r, c]) || (env.mazeCopy[r, c] == Burning && CanIgnite(burning, Pos(r, c)))
    {
      var fireKids := GetChildren(NodeOf(graph, p), algorithm);
      for j := 0 to |fireKids|
        invariant Valid()
        invariant forall r, c :: 0 <= r < env.n && 0 <= c < env.n ==>
          env.mazeCopy[r, c] == old(env.mazeCopy[r, c]) || (env.mazeCopy[r, c] == Burning && CanIgnite(burning, Pos(r, c)))
      {
        if fireKids[j].Some? {
          var beta := fireKids[j].value;
          assert beta in Links(graph, p);
          assert IsCell(graph, beta) && |graph[beta.row]| == env.n;
          var ignite: bool :| true;
          if ignite {
            env.WildFire(beta.row, beta.column);
          }
        }
      }
    }

    /** `_charizard`: every cell burning when it starts may set its present
        neighbours on fire; the corners never burn and no cell stops
        burning. A burning position that holds no cell raises
        (false here), possibly after earlier positions have spread. */
    method Charizard() returns (ok: bool)
      requires Valid()
      modifies env.mazeCopy
      ensures Valid()
      ensures ok <==> forall p :: p in old(BurningCells(env.mazeCopy)) ==> IsCell(graph, p)
      ensures forall r, c :: 0 <= r < env.n && 0 <= c < env.n ==>
        env.mazeCopy[r, c] == old(env.mazeCopy[r, c])
        || (env.mazeCopy[r, c] == Burning && CanIgnite(old(BurningCells(env.mazeCopy)), Pos(r, c)))
    {
      var fire := BurningSnapshot();
      ghost var burning := BurningCells(env.mazeCopy);
      for k := 0 to |fire|
        invariant Valid()
        invariant forall j :: 0 <= j < k ==> IsCell(graph, fire[j])
        invariant forall r, c :: 0 <= r < env.n && 0 <= c < env.n ==>
          env.mazeCopy[r, c] == old(env.mazeCopy[r, c]) || (env.mazeCopy[r, c] == Burning && CanIgnite(burning, Pos(r, c)))
      {
        var p := fire[k];
        assert p in burning;
        if graph[p.row][p.column].None? {
          return false;
        }
        SpreadFrom(p, burning);
      }
      ok := true;
    }

    /** The occupancy grid blocks exactly the positions without a cell. */
    ghost predicate BlocksNonCells()
      reads env, env.maze
    {
      && env.maze.Length0 == env.n && env.maze.Length1 == env.n
      && forall r, c :: 0 <= r < env.n && 0 <= c < env.n ==> (IsCell(graph, Pos(r, c)) <==> env.maze[r, c] != Blocked)
    }

    lemma MirrorsBlocksNonCells()
      requires Valid() && Mirrors()
      ensures BlocksNonCells()
    {
      forall r, c | 0 <= r < env.n && 0 <= c < env.n
        ensures IsCell(graph, Pos(r, c)) <==> env.maze[r, c] != Blocked
      {
        CellIsPassable(r, c);
      }
    }

    /** The first loop of `_run_from_fire`: every passable cell gets its
        distance to the destination; other entries are kept. */
    method AssignDestDistances()
      requires BlocksNonCells() && |graph| == env.n && forall i :: 0 <= i < |graph| ==> |graph[i]| == |graph|
      modifies this`distanceFromDest
      ensures forall p :: p in distanceFromDest <==> p in old(distanceFromDest) || IsCell(graph, p)
      ensures forall p :: p in distanceFromDest ==>
        distanceFromDest[p] == if IsCell(graph, p) then destDistance(p) else old(distanceFromDest)[p]
    {
      for r := 0 to env.n
        invariant distanceFromDest == Scan(graph, destDistance, old(distanceFromDest), r, 0)
      {
        for c := 0 to env.n
          invariant distanceFromDest == Scan(graph, destDistance, old(distanceFromDest), r, c)
        {
          if env.maze[r, c] == Blocked {
            continue;
          }
          distanceFromDest := distanceFromDest[Pos(r, c) := destDistance(Pos(r, c))];
        }
      }
      ScanCovers(graph, destDistance, old(distanceFromDest), env.n, 0);
    }

    /** Colour the popped cell as visited, then let the fire spread. */
    method ColourAndSpread(node: Pos) returns (ok: bool)
      requires Valid() && IsCell(graph, node)
      modifies env.mazeCopy
      ensures Valid()
    {
      env.UpdateColorOfCell(node.row, node.column);
      ok := Charizard();
    }

    /** One pass of the fire-aware loop: pop the most recently queued cell,
        colour it and let the fire spread; unless it is the destination,
        expand it and backtrack from it. */
    method FireStep(dest: Pos) returns (found: bool, raised: Option<Error>)
      requires Valid() && fringe != []
      requires Tree(graph, visited, fringe, parent) && Closed(graph, visited, fringe)
      modifies this`visited, this`fringe, this`parent, this`distanceFromFire, env.mazeCopy
      ensures Valid() && Tree(graph, visited, fringe, parent) && visited[0] == old(visited[0])
      ensures found <==> raised != Some(AttributeError) && old(fringe[|fringe| - 1]) == dest
      ensures found || raised == Some(AttributeError) ==>
        visited == old(visited) && fringe == old(fringe[..|fringe| - 1]) && parent == old(parent)
      ensures found ==> raised.None? && (dest == visited[0] || dest in parent)
      ensures raised.Some? ==> raised == Some(AttributeError) || (raised == Some(ValueError) && algorithm == FireString)
      ensures !found && raised != Some(AttributeError) ==> visited == Visit(old(visited), old(fringe[|fringe| - 1]))
      ensures !found && raised.None? ==>
        Backtracked(old(fringe[|fringe| - 1]), visited, distanceFromDest, BurningCells(env.mazeCopy), old(fringe[..|fringe| - 1]), old(parent), fringe, parent)
      ensures !found && raised.None? ==> Closed(graph, visited, fringe) && Progress(graph, old(visited), old(fringe), visited, fringe)
    {
      var i := |fringe| - 1;
      var node := fringe[i];
      PopKeepsSearch(graph, visited, fringe, parent, i);
      assert Remove(fringe, i) == fringe[..i];
      fringe := Remove(fringe, i);
      var ok := ColourAndSpread(node);
      if !ok {
        return false, Some(AttributeError);
      }
      if node == dest {
        return true, None;
      }
      visited := Visit(visited, node);
      raised := Backtrack(node);
      found := false;
    }

    /** The body of the `_run_from_fire` loop: record the fringe length,
        then run FireStep. The loop needs only the search invariants from
        it. */
    method FireRound(dest: Pos) returns (found: bool, raised: Option<Error>)
      requires Valid() && fringe != [] && LargestFringe()
      requires Tree(graph, visited, fringe, parent) && Closed(graph, visited, fringe)
      modifies this`visited, this`fringe, this`parent, this`distanceFromFire, this`maxFringeLength,
               this`fringeSizes, env.mazeCopy
      ensures Valid() && Tree(graph, visited, fringe, parent) && visited[0] == old(visited[0])
      ensures fringeSizes == old(fringeSizes) + [old(|fringe|)] && LargestFringe() && maxFringeLength >= 1
      ensures found ==> raised.None? && (dest == visited[0] || dest in parent)
      ensures raised.Some? ==> raised == Some(AttributeError) || (raised == Some(ValueError) && algorithm == FireString)
      ensures !found && raised.None? ==> Closed(graph, visited, fringe) && Progress(graph, old(visited), old(fringe), visited, fringe)
    {
      TrackFringe();
      found, raised := FireStep(dest);
    }

    /** The main loop of `_run_from_fire`. */
    method FireLoop(root: Pos, dest: Pos) returns (raised: Option<Error>)
      requires Valid() && Tree(graph, visited, fringe, parent) && visited[0] == root && LargestFringe()
      requires Closed(graph, visited, fringe) && (maxFringeLength >= 1 || fringe != [])
      modifies this`visited, this`fringe, this`parent, this`distanceFromFire, this`maxFringeLength,
               this`fringeSizes, env.mazeCopy
      ensures Valid() && Tree(graph, visited, fringe, parent) && visited[0] == root && LargestFringe()
      ensures raised.None? ==> Finished(root, dest)
      ensures raised.Some? ==> raised == Some(AttributeError) || (raised == Some(ValueError) && algorithm == FireString)
    {
      raised := None;
      var found := false;
      while fringe != [] && !found
        invariant Valid() && Tree(graph, visited, fringe, parent) && visited[0] == root && LargestFringe()
        invariant raised.None? && (!found ==> Closed(graph, visited, fringe))
        invariant maxFringeLength >= 1 || fringe != []
        invariant found ==> maxFringeLength >= 1 && (dest == root || dest in parent)
        decreases !found, Unexpanded(graph, visited), CountIn(fringe, visited)
      {
        found, raised := FireRound(dest);
        if raised.Some? {
          return;
        }
      }
    }

    /** `_run_from_fire`: record every cell's distance to the destination,
        then search depth-first from (0, 0), the fire spreading after each
        pop and the unexpanded neighbours of a cell queued so that the one
        with the lowest key is popped next; stop at (n-1, n-1). Scoring a
        neighbour with nothing burning raises ValueError, a burning mark
        without a cell AttributeError. */
    method RunFromFire() returns (raised: Option<Error>)
      requires Valid() && BlocksNonCells() && Initial() && env.n >= 1
      requires IsCell(graph, Root) && IsCell(graph, Dest(env.n))
      modifies this`visited, this`fringe, this`parent, this`distanceFromDest, this`distanceFromFire,
               this`maxFringeLength, this`fringeSizes, env.mazeCopy
      ensures Valid() && Tree(graph, visited, fringe, parent) && visited[0] == Root && LargestFringe()
      ensures raised.None? ==> Finished(Root, Dest(env.n))
      ensures raised.Some? ==> raised == Some(AttributeError) || (raised == Some(ValueError) && algorithm == FireString)
    {
      FireStart();
      raised := FireLoop(Root, Dest(env.n));
    }

    /** The set-up of `_run_from_fire`: the distances to the destination,
        then the root queued and expanded. */
    method FireStart()
      requires Valid() && BlocksNonCells() && Initial() && IsCell(graph, Root)
      modifies this`visited, this`fringe, this`distanceFromDest
      ensures forall p :: p in distanceFromDest <==> IsCell(graph, p)
      ensures forall p :: p in distanceFromDest ==> distanceFromDest[p] == destDistance(p)
      ensures visited == [Root] && fringe == [Root] && parent == map[] && maxFringeLength == 0 && fringeSizes == []
      ensures Tree(graph, visited, fringe, parent) && Closed(graph, visited, fringe)
    {
      AssignDestDistances();
      fringe := [Root];
      visited := visited + [Root];
      StartIsTree(graph, Root);
    }

    /** What a run that returns a code leaves behind: the path report and
        the metrics of the run. */
    ghost predicate Reported(code: int)
      reads this
    {
      && performance == Some(Metrics(|path|, maxFringeLength, |visited|))
      && 1 <= maxFringeLength && LargestFringe() && |visited| <= |PassableCells(graph)|
      && PathReport(graph, path, code, Root, Dest(env.n))
    }

    /** The tail of `run_path_finder_algorithm` after a finished search:
        rebuild the path from the destination, record the metrics, then
        finish the path. */
    method Report() returns (code: int)
      requires Valid() && env.n >= 1 && IsCell(graph, Dest(env.n)) && path == []
      requires Finished(Root, Dest(env.n))
      modifies this`path, this`performance
      ensures performance == Some(Metrics(|path|, maxFringeLength, |visited|))
      ensures 1 <= maxFringeLength && LargestFringe() && |visited| <= |PassableCells(graph)|
      ensures PathReport(graph, path, code, Root, Dest(env.n))
    {
      FinishedReports(graph, visited, fringe, parent, Dest(env.n));
      CountBound(graph, visited);
      code := ReportChain(Chain(parent, visited, Dest(env.n)));
    }

    /** Report along chain, the parent walk from the destination: rebuild
        the path, record the metrics of the run, then finish the path. */
    method ReportChain(ghost chain: seq<Pos>) returns (code: int)
      requires |graph| == env.n >= 1 && |graph[env.n - 1]| == env.n && Ranked(parent, visited)
      requires IsCell(graph, Dest(env.n)) && path == [] && chain == Chain(parent, visited, Dest(env.n))
      requires Reportable(graph, chain, Root, Dest(env.n)) && LargestFringe()
      modifies this`path, this`performance
      ensures performance == Some(Metrics(|path|, maxFringeLength, |visited|))
      ensures PathReport(graph, path, code, Root, Dest(env.n))
    {
      GetFinalPath();
      CreatePerformanceMetrics();
      ghost var length := |path|;
      code := FinishPath(chain);
      assert |path| == length;
    }

    /** The end of `run_path_finder_algorithm` once the path is rebuilt:
        code 0 for a path of one cell, otherwise the path reversed and
        code 1. */
    method FinishPath(ghost chain: seq<Pos>) returns (code: int)
      requires path == chain && Reportable(graph, chain, Root, Dest(env.n))
      modifies this`path
      ensures |path| == |old(path)|
      ensures PathReport(graph, path, code, Root, Dest(env.n))
    {
      if |path| == 1 {
        return 0;
      }
      path := Reverse(path);
      code := 1;
    }

    /** The dispatch of `run_path_finder_algorithm` on the tag: "dfs",
        "bfs" and "astar" run their engine; every other tag runs the
        fire-aware search. That one alone needs the occupancy grid to block
        exactly the positions without a cell: its first loop walks the
        grid. */
    method RunSearch() returns (raised: Option<Error>)
      requires Valid() && Initial() && env.n >= 1
      requires algorithm == DfsString || algorithm == BfsString || algorithm == AStarString || BlocksNonCells()
      requires IsCell(graph, Root) && IsCell(graph, Dest(env.n))
      modifies this`visited, this`fringe, this`parent, this`distanceFromSource, this`distanceFromDest,
               this`distanceFromFire, this`maxFringeLength, this`fringeSizes, env.mazeCopy
      ensures Valid() && path == [] && LargestFringe()
      ensures raised.None? ==> Finished(Root, Dest(env.n))
      ensures raised.None? && algorithm == AStarString ==> Distances(distanceFromSource, parent, Root)
      ensures raised.None? && (algorithm == BfsString || algorithm == AStarString) ==>
        maxFringeLength <= |PassableCells(graph)|
      ensures raised.Some? && algorithm == AStarString ==> raised == Some(TypeError) && env.algorithm == FireString
      ensures raised.Some? && algorithm != AStarString ==>
        && algorithm != DfsString && algorithm != BfsString
        && (raised == Some(AttributeError) || (raised == Some(ValueError) && algorithm == FireString))
    {
      if algorithm == DfsString {
        RunDfs(Root, Dest(env.n));
      } else if algorithm == BfsString {
        RunBfs(Root, Dest(env.n));
      } else if algorithm == AStarString {
        var typeError := RunAStar(Root, Dest(env.n));
        if typeError {
          return Some(TypeError);
        }
      } else {
        raised := RunFromFire();
        return;
      }
      raised := None;
    }

    /** `run_path_finder_algorithm`: an empty grid has no (0, 0) to index
        (IndexError); a corner without a cell is dereferenced by every
        engine (AttributeError); otherwise the engine the tag selects runs
        from (0, 0) to (n-1, n-1), and the path and the metrics are
        reported. */
    method RunPathFinderAlgorithm() returns (outcome: Outcome)
      requires Valid() && Initial()
      requires algorithm == DfsString || algorithm == BfsString || algorithm == AStarString || BlocksNonCells()
      modifies this`visited, this`fringe, this`parent, this`distanceFromSource, this`distanceFromDest,
               this`distanceFromFire, this`maxFringeLength, this`fringeSizes, this`path, this`performance, env.mazeCopy
      ensures env.n == 0 ==> outcome == Raised(IndexError)
      ensures env.n >= 1 && !(IsCell(graph, Root) && IsCell(graph, Dest(env.n))) ==> outcome == Raised(AttributeError)
      ensures env.n >= 1 && IsCell(graph, Root) && IsCell(graph, Dest(env.n)) && outcome.Raised? && algorithm == AStarString ==>
        outcome.error == TypeError && env.algorithm == FireString
      ensures env.n >= 1 && IsCell(graph, Root) && IsCell(graph, Dest(env.n)) && outcome.Raised? && algorithm != AStarString ==>
        && algorithm != DfsString && algorithm != BfsString
        && (outcome.error == AttributeError || (outcome.error == ValueError && algorithm == FireString))
      ensures outcome.Returned? ==> Reported(outcome.code)
      ensures outcome.Returned? && (algorithm == BfsString || algorithm == AStarString) ==>
        maxFringeLength <= |PassableCells(graph)|
    {
      if env.n == 0 {
        return Raised(IndexError);
      }
      if graph[0][0].None? || graph[env.n - 1][env.n - 1].None? {
        return Raised(AttributeError);
      }
      var raised := RunSearch();
      if raised.Some? {
        return Raised(raised.value);
      }
      var code := Report();
      outcome := Returned(code);
    }
  }
}

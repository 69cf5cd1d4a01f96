/** Turning an N×N occupancy grid into the graph of its passable cells:
    the finished graph as a value (`NodeAt`, `BuildGraph`), its properties,
    and the `Graph` object whose `CreateGraphFromMaze` fills a 2-D array in
    the five passes the original performs. */
module GridGraph {
  import opened Cells

  /** An occupancy grid, row by row; 0 marks a blocked position. */
  type Grid = seq<seq<int>>

  /** The graph as a value: a slot per position, empty where blocked. */
  type GraphValue = seq<seq<Option<Node>>>

  predicate IsSquare(grid: Grid)
  {
    forall r :: 0 <= r < |grid| ==> |grid[r]| == |grid|
  }

  predicate InGrid(n: int, r: int, c: int)
  {
    0 <= r < n && 0 <= c < n
  }

  /** Grid adjacency: one step along exactly one axis. */
  predicate Adjacent(p: Pos, q: Pos)
  {
    (p.row == q.row && (p.column - q.column == 1 || q.column - p.column == 1))
    || (p.column == q.column && (p.row - q.row == 1 || q.row - p.row == 1))
  }

  /** What a link to position (r, c) holds once the first pass has run: the
      cell at (r, c), absent when (r, c) is off the grid or blocked. */
  function CellAt(grid: Grid, r: int, c: int): (cell: Option<Pos>)
    requires IsSquare(grid)
  {
    if InGrid(|grid|, r, c) && grid[r][c] != 0 then Some(Pos(r, c)) else None
  }

  /** The finished slot at (r, c): a node carrying the occupancy value and
      the position when the position is passable, linked to its four
      in-grid passable neighbours. */
  function NodeAt(grid: Grid, r: int, c: int): (slot: Option<Node>)
    requires IsSquare(grid) && InGrid(|grid|, r, c)
  {
    if grid[r][c] == 0 then None
    else Some(Node(grid[r][c], r, c,
                   CellAt(grid, r, c - 1), CellAt(grid, r, c + 1),
                   CellAt(grid, r - 1, c), CellAt(grid, r + 1, c)))
  }

  function BuildGraph(grid: Grid): (graph: GraphValue)
    requires IsSquare(grid)
    ensures |graph| == |grid|
    ensures forall r :: 0 <= r < |graph| ==> |graph[r]| == |grid|
    ensures forall r, c :: InGrid(|grid|, r, c) ==> graph[r][c] == NodeAt(grid, r, c)
  {
    seq(|grid|, r requires 0 <= r < |grid| =>
      seq(|grid|, c requires 0 <= c < |grid| => NodeAt(grid, r, c)))
  }

  predicate IsCell(graph: GraphValue, p: Pos)
  {
    0 <= p.row < |graph| && 0 <= p.column < |graph[p.row]| && graph[p.row][p.column].Some?
  }

  function NodeOf(graph: GraphValue, p: Pos): Node
    requires IsCell(graph, p)
  {
    graph[p.row][p.column].value
  }

  /** The positions the cell at p links to (none when p holds no cell). */
  function Links(graph: GraphValue, p: Pos): set<Pos>
  {
    if IsCell(graph, p) then LinksOf(NodeOf(graph, p)) else {}
  }

  /** The passable cells of the graph. */
  function PassableCells(graph: GraphValue): (cells: set<Pos>)
    ensures forall p :: p in cells <==> IsCell(graph, p)
  {
    var cells := set r, c | 0 <= r < |graph| && 0 <= c < |graph[r]| && graph[r][c].Some? :: Pos(r, c);
    assert forall p :: IsCell(graph, p) ==> p in cells by {
      forall p | IsCell(graph, p) ensures p in cells {
        assert p == Pos(p.row, p.column);
      }
    }
    cells
  }

  /** What the search engines rely on: a square arena whose nodes sit at
      their own positions and link only to adjacent cells. */
  ghost predicate WellLinked(graph: GraphValue)
  {
    && (forall r :: 0 <= r < |graph| ==> |graph[r]| == |graph|)
    && (forall p :: IsCell(graph, p) ==> NodeOf(graph, p).row == p.row && NodeOf(graph, p).column == p.column)
    && (forall p, q :: q in Links(graph, p) ==> IsCell(graph, q) && Adjacent(p, q))
  }

  /** A slot holds a cell exactly when the position is passable, and that
      cell carries the position's occupancy value and its coordinates. */
  lemma NodeAtHoldsPassableCells(grid: Grid, r: int, c: int)
    requires IsSquare(grid) && InGrid(|grid|, r, c)
    ensures NodeAt(grid, r, c).Some? <==> grid[r][c] != 0
    ensures NodeAt(grid, r, c).Some? ==>
      var node := NodeAt(grid, r, c).value;
      node.value == grid[r][c] && node.row == r && node.column == c
  {
  }

  /** Each link names the adjacent position in its direction when that
      position is on the grid and passable, and is absent otherwise; in
      particular nothing wraps around at the grid's edges. */
  lemma LinksNameInGridNeighbours(grid: Grid, r: int, c: int)
    requires IsSquare(grid) && InGrid(|grid|, r, c) && grid[r][c] != 0
    ensures var node := NodeAt(grid, r, c).value;
      && (node.left.Some? <==> c >= 1 && grid[r][c - 1] != 0)
      && (node.right.Some? <==> c + 1 < |grid| && grid[r][c + 1] != 0)
      && (node.up.Some? <==> r >= 1 && grid[r - 1][c] != 0)
      && (node.down.Some? <==> r + 1 < |grid| && grid[r + 1][c] != 0)
      && (node.left.Some? ==> node.left.value == Pos(r, c - 1))
      && (node.right.Some? ==> node.right.value == Pos(r, c + 1))
      && (node.up.Some? ==> node.up.value == Pos(r - 1, c))
      && (node.down.Some? ==> node.down.value == Pos(r + 1, c))
    ensures c == 0 ==> NodeAt(grid, r, c).value.left.None?
    ensures c == |grid| - 1 ==> NodeAt(grid, r, c).value.right.None?
    ensures r == 0 ==> NodeAt(grid, r, c).value.up.None?
    ensures r == |grid| - 1 ==> NodeAt(grid, r, c).value.down.None?
  {
  }

  /** Links are symmetric: a's right neighbour is b exactly when b's left
      neighbour is a, and a's down neighbour is b exactly when b's up
      neighbour is a. */
  lemma LinksAreSymmetric(grid: Grid, a: Pos, b: Pos)
    requires IsSquare(grid) && InGrid(|grid|, a.row, a.column) && InGrid(|grid|, b.row, b.column)
    ensures (NodeAt(grid, a.row, a.column).Some? && NodeAt(grid, a.row, a.column).value.right == Some(b))
        <==> (NodeAt(grid, b.row, b.column).Some? && NodeAt(grid, b.row, b.column).value.left == Some(a))
    ensures (NodeAt(grid, a.row, a.column).Some? && NodeAt(grid, a.row, a.column).value.down == Some(b))
        <==> (NodeAt(grid, b.row, b.column).Some? && NodeAt(grid, b.row, b.column).value.up == Some(a))
  {
  }

  /** A cell of the built graph is passable and sits at its own position. */
  lemma BuiltCellsArePassable(grid: Grid, p: Pos)
    requires IsSquare(grid)
    ensures IsCell(BuildGraph(grid), p) <==> InGrid(|grid|, p.row, p.column) && grid[p.row][p.column] != 0
    ensures IsCell(BuildGraph(grid), p) ==>
      NodeOf(BuildGraph(grid), p) == NodeAt(grid, p.row, p.column).value
  {
    if InGrid(|grid|, p.row, p.column) {
      assert BuildGraph(grid)[p.row][p.column] == NodeAt(grid, p.row, p.column);
    }
  }

  /** Every link of a finished slot leads to an adjacent passable position. */
  lemma NodeAtLinksAreAdjacent(grid: Grid, r: int, c: int, q: Pos)
    requires IsSquare(grid) && InGrid(|grid|, r, c) && grid[r][c] != 0
    requires q in LinksOf(NodeAt(grid, r, c).value)
    ensures InGrid(|grid|, q.row, q.column) && grid[q.row][q.column] != 0 && Adjacent(Pos(r, c), q)
  {
    var node := NodeAt(grid, r, c).value;
    if node.left == Some(q) {
      assert CellAt(grid, r, c - 1) == Some(q);
    } else if node.right == Some(q) {
      assert CellAt(grid, r, c + 1) == Some(q);
    } else if node.up == Some(q) {
      assert CellAt(grid, r - 1, c) == Some(q);
    } else {
      assert CellAt(grid, r + 1, c) == Some(q);
    }
  }

  /** Every link of the built graph leads to an adjacent cell. */
  lemma BuiltLinkLeadsToAdjacentCell(grid: Grid, p: Pos, q: Pos)
    requires IsSquare(grid)
    requires q in Links(BuildGraph(grid), p)
    ensures IsCell(BuildGraph(grid), q) && Adjacent(p, q)
  {
    BuiltCellsArePassable(grid, p);
    NodeAtLinksAreAdjacent(grid, p.row, p.column, q);
    BuiltCellsArePassable(grid, q);
  }

  /** The built graph is what the search engines rely on. */
  lemma BuiltGraphIsWellLinked(grid: Grid)
    requires IsSquare(grid)
    ensures WellLinked(BuildGraph(grid))
  {
    SlotsAreWellLinked(grid, BuildGraph(grid));
  }

  /** Any square arena holding `NodeAt` in every slot is well linked. */
  lemma SlotsAreWellLinked(grid: Grid, graph: GraphValue)
    requires IsSquare(grid) && |graph| == |grid|
    requires forall r :: 0 <= r < |graph| ==> |graph[r]| == |grid|
    requires forall r, c {:trigger NodeAt(grid, r, c)} :: InGrid(|grid|, r, c) ==> graph[r][c] == NodeAt(grid, r, c)
    ensures WellLinked(graph)
  {
    SlotsSitAtTheirPositions(grid, graph);
    SlotsLinkAdjacentCells(grid, graph);
  }

  /** Such an arena's nodes sit at their own positions. */
  lemma SlotsSitAtTheirPositions(grid: Grid, graph: GraphValue)
    requires IsSquare(grid) && |graph| == |grid|
    requires forall r :: 0 <= r < |graph| ==> |graph[r]| == |grid|
    requires forall r, c {:trigger NodeAt(grid, r, c)} :: InGrid(|grid|, r, c) ==> graph[r][c] == NodeAt(grid, r, c)
    ensures forall p :: IsCell(graph, p) ==> NodeOf(graph, p).row == p.row && NodeOf(graph, p).column == p.column
  {
    forall p | IsCell(graph, p) ensures NodeOf(graph, p).row == p.row && NodeOf(graph, p).column == p.column {
      assert graph[p.row][p.column] == NodeAt(grid, p.row, p.column);
      NodeAtHoldsPassableCells(grid, p.row, p.column);
    }
  }

  /** Such an arena's links lead to adjacent cells. */
  lemma SlotsLinkAdjacentCells(grid: Grid, graph: GraphValue)
    requires IsSquare(grid) && |graph| == |grid|
    requires forall r :: 0 <= r < |graph| ==> |graph[r]| == |grid|
    requires forall r, c {:trigger NodeAt(grid, r, c)} :: InGrid(|grid|, r, c) ==> graph[r][c] == NodeAt(grid, r, c)
    ensures forall p, q :: q in Links(graph, p) ==> IsCell(graph, q) && Adjacent(p, q)
  {
    forall p, q | q in Links(graph, p) ensures IsCell(graph, q) && Adjacent(p, q) {
      assert graph[p.row][p.column] == NodeAt(grid, p.row, p.column);
      NodeAtHoldsPassableCells(grid, p.row, p.column);
      NodeAtLinksAreAdjacent(grid, p.row, p.column, q);
      assert graph[q.row][q.column] == NodeAt(grid, q.row, q.column);
    }
  }

  /** The four link passes, one per neighbour direction. */
  datatype Direction = Left | Right | Up | Down

  /** The position one step from (r, c) in direction d. */
  function Step(d: Direction, r: int, c: int): Pos
  {
    match d
    case Left => Pos(r, c - 1)
    case Right => Pos(r, c + 1)
    case Up => Pos(r - 1, c)
    case Down => Pos(r + 1, c)
  }

  function SetLink(node: Node, d: Direction, target: Option<Pos>): Node
  {
    match d
    case Left => node.(left := target)
    case Right => node.(right := target)
    case Up => node.(up := target)
    case Down => node.(down := target)
  }

  /** A slot after the pass for direction d: a cell whose neighbour in that
      direction is on the grid gets the link to that neighbour's slot; the
      other slots are left as they were. */
  function AfterPass(grid: Grid, slot: Option<Node>, d: Direction, r: int, c: int): Option<Node>
    requires IsSquare(grid)
  {
    var q := Step(d, r, c);
    if slot.Some? && InGrid(|grid|, q.row, q.column) then Some(SetLink(slot.value, d, CellAt(grid, q.row, q.column)))
    else slot
  }

  /** A slot after the first pass: a link-less cell where the grid is passable. */
  function FreshSlot(grid: Grid, r: int, c: int): Option<Node>
    requires IsSquare(grid) && InGrid(|grid|, r, c)
  {
    if grid[r][c] == 0 then None else Some(Node(grid[r][c], r, c, None, None, None, None))
  }

  /** The five passes together build the finished slot. */
  lemma PassesBuildNodeAt(grid: Grid, r: int, c: int)
    requires IsSquare(grid) && InGrid(|grid|, r, c)
    ensures AfterPass(grid, AfterPass(grid, AfterPass(grid, AfterPass(grid,
              FreshSlot(grid, r, c), Left, r, c), Right, r, c), Up, r, c), Down, r, c)
            == NodeAt(grid, r, c)
  {
  }

  /** The contents of a 2-D array (the occupancy grid, the graph's slots)
      as a value: a sequence of rows. */
  function Values<T>(a: array2<T>): (v: seq<seq<T>>)
    reads a
    ensures |v| == a.Length0
    ensures forall r :: 0 <= r < a.Length0 ==> |v[r]| == a.Length1
    ensures forall r, c :: 0 <= r < a.Length0 && 0 <= c < a.Length1 ==> v[r][c] == a[r, c]
  {
    seq(a.Length0, r reads a requires 0 <= r < a.Length0 =>
      seq(a.Length1, c reads a requires 0 <= c < a.Length1 => a[r, c]))
  }

  /** `Graph`: the maze it was built from and the array of slots. */
  class Graph {
    const maze: array2<int>
    const algorithm: string
    const graphMaze: array2<Option<Node>>

    /** A graph whose slots are all empty, shaped like the maze. */
    constructor (maze: array2<int>, algorithm: string)
      ensures this.maze == maze && this.algorithm == algorithm
      ensures fresh(graphMaze)
      ensures graphMaze.Length0 == maze.Length0 && graphMaze.Length1 == maze.Length1
      ensures forall r, c :: 0 <= r < graphMaze.Length0 && 0 <= c < graphMaze.Length1 ==> graphMaze[r, c] == None
    {
      this.maze := maze;
      this.algorithm := algorithm;
      graphMaze := new Option<Node>[maze.Length0, maze.Length1]((r, c) => None);
    }

    /** `create_graph_from_maze`: a cell for every passable position, then
        the left, right, up and down links. Blocked positions must hold no
        cell (as after construction); otherwise a stale cell would be linked. */
    method CreateGraphFromMaze()
      requires maze.Length0 == maze.Length1
      requires graphMaze.Length0 == maze.Length0 && graphMaze.Length1 == maze.Length1
      requires forall r, c :: 0 <= r < maze.Length0 && 0 <= c < maze.Length1 && maze[r, c] == 0 ==> graphMaze[r, c].None?
      modifies graphMaze
      ensures forall r, c :: 0 <= r < maze.Length0 && 0 <= c < maze.Length1 ==>
        graphMaze[r, c] == NodeAt(Values(maze), r, c)
    {
      ghost var grid := Values(maze);
      CreateCells();
      ghost var g1 := Values(graphMaze);
      LinkPass(Left);
      ghost var g2 := Values(graphMaze);
      LinkPass(Right);
      ghost var g3 := Values(graphMaze);
      LinkPass(Up);
      ghost var g4 := Values(graphMaze);
      LinkPass(Down);
      forall r, c | 0 <= r < maze.Length0 && 0 <= c < maze.Length1
        ensures graphMaze[r, c] == NodeAt(grid, r, c)
      {
        assert g1[r][c] == FreshSlot(grid, r, c);
        assert g2[r][c] == AfterPass(grid, g1[r][c], Left, r, c);
        assert g3[r][c] == AfterPass(grid, g2[r][c], Right, r, c);
        assert g4[r][c] == AfterPass(grid, g3[r][c], Up, r, c);
        PassesBuildNodeAt(grid, r, c);
      }
    }

    /** The first pass: a link-less cell at every passable position. */
    method CreateCells()
      requires maze.Length0 == maze.Length1
      requires graphMaze.Length0 == maze.Length0 && graphMaze.Length1 == maze.Length1
      requires forall r, c :: 0 <= r < maze.Length0 && 0 <= c < maze.Length1 && maze[r, c] == 0 ==> graphMaze[r, c].None?
      modifies graphMaze
      ensures forall r, c :: 0 <= r < maze.Length0 && 0 <= c < maze.Length1 ==>
        graphMaze[r, c] == FreshSlot(Values(maze), r, c)
    {
      ghost var grid := Values(maze);
      var n := maze.Length0;
      var row := 0;
      while row < n
        invariant 0 <= row <= n
        invariant forall r, c :: 0 <= r < n && 0 <= c < n ==>
          graphMaze[r, c] == if r < row then FreshSlot(grid, r, c) else old(graphMaze[r, c])
      {
        var column := 0;
        while column < n
          invariant 0 <= column <= n
          invariant forall r, c :: 0 <= r < n && 0 <= c < n ==>
            graphMaze[r, c] == if r < row || (r == row && c < column) then FreshSlot(grid, r, c) else old(graphMaze[r, c])
        {
          if maze[row, column] != 0 {
            graphMaze[row, column] := Some(Node(maze[row, column], row, column, None, None, None, None));
          }
          column := column + 1;
        }
        row := row + 1;
      }
    }

    /** One link pass. The left and up passes test the lower bound before
        looking the neighbour up; the right and down passes look it up and
        skip the position when the index is past the grid. Either way a
        neighbour off the grid leaves the link untouched, and an empty slot
        is skipped. */
    method LinkPass(d: Direction)
      requires maze.Length0 == maze.Length1
      requires graphMaze.Length0 == maze.Length0 && graphMaze.Length1 == maze.Length1
      requires forall r, c :: 0 <= r < maze.Length0 && 0 <= c < maze.Length1 ==>
        (graphMaze[r, c].Some? <==> maze[r, c] != 0)
      modifies graphMaze
      ensures forall r, c :: 0 <= r < maze.Length0 && 0 <= c < maze.Length1 ==>
        graphMaze[r, c] == AfterPass(Values(maze), old(graphMaze[r, c]), d, r, c)
    {
      ghost var grid := Values(maze);
      var n := maze.Length0;
      var row := 0;
      while row < n
        invariant 0 <= row <= n
        invariant forall r, c :: 0 <= r < n && 0 <= c < n ==>
          graphMaze[r, c] == if r < row then AfterPass(grid, old(graphMaze[r, c]), d, r, c) else old(graphMaze[r, c])
      {
        var column := 0;
        while column < n
          invariant 0 <= column <= n
          invariant forall r, c :: 0 <= r < n && 0 <= c < n ==>
            graphMaze[r, c] == if r < row || (r == row && c < column) then AfterPass(grid, old(graphMaze[r, c]), d, r, c) else old(graphMaze[r, c])
        {
          var q := Step(d, row, column);
          if 0 <= q.row < n && 0 <= q.column < n && graphMaze[row, column].Some? {
            var target: Option<Pos> := None;
            if graphMaze[q.row, q.column].Some? {
              target := Some(Pos(q.row, q.column));
            }
            graphMaze[row, column] := Some(SetLink(graphMaze[row, column].value, d, target));
          }
          column := column + 1;
        }
        row := row + 1;
      }
    }
  }
}

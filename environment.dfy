/** The maze environment: the occupancy grid, the copy of it that records
    each cell's display state, the grid as first generated, and the graph
    built from the occupancy grid. Its operations overwrite single grid
    entries in place, or replace the grids and rebuild the graph. */
module Environment {
  import opened Cells
  import opened GridGraph

  /** Occupancy and display values the environment gives meaning to. */
  const Blocked: int := 0
  const Free: int := 1
  const Released: int := 2
  const Burning: int := 3
  const Endpoint: int := 4
  const Visited: int := -1

  /** A fresh array with the same entries (the array `copy`). */
  method CopyGrid(a: array2<int>) returns (b: array2<int>)
    ensures fresh(b) && b.Length0 == a.Length0 && b.Length1 == a.Length1
    ensures forall r, c :: 0 <= r < a.Length0 && 0 <= c < a.Length1 ==> b[r, c] == a[r, c]
  {
    b := new int[a.Length0, a.Length1]((r, c) reads a requires 0 <= r < a.Length0 && 0 <= c < a.Length1 => a[r, c]);
  }

  class Maze {
    const n: nat
    const algorithm: string
    var maze: array2<int>
    var mazeCopy: array2<int>
    var originalMaze: array2<int>
    var graph: Graph

    /** The three grids are n×n arrays, and the display copy is an array of
        its own. The occupancy grid may be the original grid itself: a grid
        passed to `modify_environment` is adopted without a copy. */
    ghost predicate Shaped()
      reads this
    {
      && maze.Length0 == n && maze.Length1 == n
      && mazeCopy.Length0 == n && mazeCopy.Length1 == n
      && originalMaze.Length0 == n && originalMaze.Length1 == n
      && maze != mazeCopy && mazeCopy != originalMaze
    }

    /** The grids are shaped and the graph is the one built from the current
        occupancy grid. */
    ghost predicate Valid()
      reads this, graph, maze, graph.graphMaze
    {
      && Shaped()
      && graph.maze == maze && graph.algorithm == algorithm
      && graph.graphMaze.Length0 == n && graph.graphMaze.Length1 == n
      && (forall r, c :: 0 <= r < n && 0 <= c < n ==> graph.graphMaze[r, c] == NodeAt(Values(maze), r, c))
    }

    /** The environment over a given occupancy grid (`generate_maze` with a
        maze supplied): the grid itself is kept, the original and the
        display copy are fresh copies, and the graph is built. */
    constructor FromMaze(n: nat, algorithm: string, newMaze: array2<int>)
      requires newMaze.Length0 == n && newMaze.Length1 == n
      ensures Valid() && this.n == n && this.algorithm == algorithm
      ensures maze == newMaze && fresh(mazeCopy) && fresh(originalMaze) && fresh(graph) && fresh(graph.graphMaze)
      ensures forall r, c :: 0 <= r < n && 0 <= c < n ==>
        originalMaze[r, c] == newMaze[r, c] && mazeCopy[r, c] == newMaze[r, c]
    {
      var original := CopyGrid(newMaze);
      var copy := CopyGrid(newMaze);
      var g := new Graph(newMaze, algorithm);
      g.CreateGraphFromMaze();
      this.n := n;
      this.algorithm := algorithm;
      maze := newMaze;
      originalMaze := original;
      mazeCopy := copy;
      graph := g;
    }

    /** `create_graph_from_maze`: a new graph over the current grid. */
    method CreateGraphFromMaze()
      requires maze.Length0 == n && maze.Length1 == n
      modifies this
      ensures maze == old(maze) && mazeCopy == old(mazeCopy) && originalMaze == old(originalMaze)
      ensures fresh(graph) && fresh(graph.graphMaze)
      ensures graph.maze == maze && graph.algorithm == algorithm
      ensures graph.graphMaze.Length0 == n && graph.graphMaze.Length1 == n
      ensures forall r, c :: 0 <= r < n && 0 <= c < n ==> graph.graphMaze[r, c] == NodeAt(Values(maze), r, c)
    {
      var g := new Graph(maze, algorithm);
      g.CreateGraphFromMaze();
      graph := g;
    }

    /** `update_color_of_cell`: mark the cell as visited in the display
        copy, unless the occupancy grid marks it as an endpoint. */
    method UpdateColorOfCell(row: int, column: int)
      requires Shaped() && 0 <= row < n && 0 <= column < n
      modifies mazeCopy
      ensures mazeCopy[row, column] == if maze[row, column] == Endpoint then old(mazeCopy[row, column]) else Visited
      ensures forall r, c :: 0 <= r < n && 0 <= c < n && (r != row || c != column) ==> mazeCopy[r, c] == old(mazeCopy[r, c])
    {
      if maze[row, column] == Endpoint {
        return;
      }
      mazeCopy[row, column] := Visited;
    }

    /** `reset_color_of_cell`: mark the cell as released in the display
        copy, unless the occupancy grid marks it as an endpoint. */
    method ResetColorOfCell(row: int, column: int)
      requires Shaped() && 0 <= row < n && 0 <= column < n
      modifies mazeCopy
      ensures mazeCopy[row, column] == if maze[row, column] == Endpoint then old(mazeCopy[row, column]) else Released
      ensures forall r, c :: 0 <= r < n && 0 <= c < n && (r != row || c != column) ==> mazeCopy[r, c] == old(mazeCopy[r, c])
    {
      if maze[row, column] == Endpoint {
        return;
      }
      mazeCopy[row, column] := Released;
    }

    /** `wild_fire`: set the cell burning in the display copy; the two
        corner cells (0, 0) and (n-1, n-1) never burn. */
    method WildFire(row: int, column: int)
      requires Shaped() && 0 <= row < n && 0 <= column < n
      modifies mazeCopy
      ensures mazeCopy[row, column] ==
        if (row == 0 && column == 0) || (row == n - 1 && column == n - 1) then old(mazeCopy[row, column]) else Burning
      ensures forall r, c :: 0 <= r < n && 0 <= c < n && (r != row || c != column) ==> mazeCopy[r, c] == old(mazeCopy[r, c])
    {
      if (row == 0 && column == 0) || (row == n - 1 && column == n - 1) {
        return;
      }
      mazeCopy[row, column] := Burning;
    }

    /** `reset_environment`: the occupancy grid and the display copy become
        fresh copies of the original grid, and the graph is rebuilt. */
    method ResetEnvironment()
      requires Valid()
      modifies this
      ensures Valid() && originalMaze == old(originalMaze)
      ensures fresh(maze) && fresh(mazeCopy) && fresh(graph)
      ensures forall r, c :: 0 <= r < n && 0 <= c < n ==>
        maze[r, c] == originalMaze[r, c] && mazeCopy[r, c] == originalMaze[r, c]
    {
      maze := CopyGrid(originalMaze);
      mazeCopy := CopyGrid(maze);
      CreateGraphFromMaze();
    }

    /** `modify_environment` on a cell: a blocked cell becomes free and any
        other value becomes blocked, in place; the display copy becomes a
        fresh copy of the grid and the graph is rebuilt. When the occupancy
        grid is the original grid itself, the original changes with it. */
    method ModifyEnvironment(row: int, column: int)
      requires Valid() && 0 <= row < n && 0 <= column < n
      modifies this, maze
      ensures Valid() && maze == old(maze) && originalMaze == old(originalMaze)
      ensures fresh(mazeCopy) && fresh(graph)
      ensures maze[row, column] == if old(maze[row, column]) == Blocked then Free else Blocked
      ensures forall r, c :: 0 <= r < n && 0 <= c < n && (r != row || c != column) ==> maze[r, c] == old(maze[r, c])
      ensures forall r, c :: 0 <= r < n && 0 <= c < n ==> mazeCopy[r, c] == maze[r, c]
      ensures forall r, c :: 0 <= r < n && 0 <= c < n ==>
        originalMaze[r, c] == if originalMaze == maze then maze[r, c] else old(originalMaze[r, c])
    {
      if maze[row, column] == Blocked {
        maze[row, column] := Free;
      } else {
        maze[row, column] := Blocked;
      }
      mazeCopy := CopyGrid(maze);
      CreateGraphFromMaze();
    }

    /** `modify_environment` with a whole new grid: the grid is adopted as
        it is (not copied, so it may be the original grid itself), the
        display copy becomes a fresh copy of it and the graph is rebuilt. */
    method ModifyEnvironmentWithMaze(newMaze: array2<int>)
      requires Valid() && newMaze.Length0 == n && newMaze.Length1 == n
      modifies this
      ensures Valid() && maze == newMaze && originalMaze == old(originalMaze)
      ensures fresh(mazeCopy) && fresh(graph)
      ensures forall r, c :: 0 <= r < n && 0 <= c < n ==> mazeCopy[r, c] == maze[r, c]
    {
      maze := newMaze;
      mazeCopy := CopyGrid(maze);
      CreateGraphFromMaze();
    }
  }
}

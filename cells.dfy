/** The cell record of the maze graph: grid positions, the per-cell node that
    graph construction produces, the neighbour enumeration of each strategy
    and the priority key with its non-strict comparison. */
module Cells {

  datatype Option<T> = None | Some(value: T)

  /** A grid position. Two cells are the same cell exactly when their
      positions agree: node equality compares `row` and `column` before any
      link, so distinct positions are never equal. */
  datatype Pos = Pos(row: int, column: int)

  /** The algorithm tags, spelled as the path finder spells them. */
  const DfsString: string := "dfs"
  const BfsString: string := "bfs"
  const AStarString: string := "astar"
  const FireString: string := "firealgo"

  /** One passable cell: its occupancy value, its position and its four
      neighbour links (a link names the neighbouring cell's position, or is
      absent). The mutable search scratch of a cell (parent, distances) is
      kept by the path finder, one map per run. */
  datatype Node = Node(value: int, row: int, column: int,
                       left: Option<Pos>, right: Option<Pos>,
                       up: Option<Pos>, down: Option<Pos>)

  /** The positions a node links to. */
  function LinksOf(node: Node): (s: set<Pos>)
    ensures forall q :: q in s <==>
      node.left == Some(q) || node.right == Some(q) || node.up == Some(q) || node.down == Some(q)
  {
    (if node.left.Some? then {node.left.value} else {})
    + (if node.right.Some? then {node.right.value} else {})
    + (if node.up.Some? then {node.up.value} else {})
    + (if node.down.Some? then {node.down.value} else {})
  }

  /** `get_children`: the four neighbour fields, in the order the strategy
      explores them. */
  function GetChildren(node: Node, algorithm: string): (children: seq<Option<Pos>>)
    ensures |children| == 4
    ensures forall q :: Some(q) in children <==> q in LinksOf(node)
  {
    if algorithm == DfsString then
      [node.left, node.up, node.down, node.right]
    else if algorithm == BfsString then
      [node.right, node.down, node.up, node.left]
    else
      [node.left, node.up, node.down, node.right]
  }

  /** Breadth-first search enumerates the neighbours in exactly the reverse
      of the depth-first order. */
  lemma BfsOrderReversesDfsOrder(node: Node)
    ensures var d := GetChildren(node, DfsString);
            GetChildren(node, BfsString) == [d[3], d[2], d[1], d[0]]
  {
  }

  /** Every tag other than "bfs" (A*, the fire-aware search, anything else)
      enumerates left, up, down, right, as depth-first search does. */
  lemma OtherTagsEnumerateAsDfs(node: Node, algorithm: string)
    requires algorithm != BfsString
    ensures GetChildren(node, algorithm) == [node.left, node.up, node.down, node.right]
  {
  }

  /** The scoring fields of a cell that the priority key reads. */
  datatype Scores = Scores(fromSource: real, fromDest: real, fromFire: real)

  /** `get_heuristic`: distance from the fire plus distance to the
      destination under "firealgo"; distance from the source plus distance to
      the destination under every other tag. */
  function GetHeuristic(algorithm: string, s: Scores): real
  {
    if algorithm == FireString then s.fromFire + s.fromDest else s.fromSource + s.fromDest
  }

  /** `__lt__`: the comparison the priority queues use. It compares the
      two cells' `get_heuristic` values with `<=`, so it is not strict. */
  predicate Lt(algorithm: string, a: Scores, b: Scores)
  {
    GetHeuristic(algorithm, a) <= GetHeuristic(algorithm, b)
  }

  /** The comparison is a total preorder: reflexive (a cell is "less than" itself), total and
      transitive. */
  lemma LtIsHeuristicPreorder(algorithm: string, a: Scores, b: Scores, c: Scores)
    ensures Lt(algorithm, a, a)
    ensures Lt(algorithm, a, b) || Lt(algorithm, b, a)
    ensures Lt(algorithm, a, b) && Lt(algorithm, b, c) ==> Lt(algorithm, a, c)
  {
  }

  /** Under A*, two cells with the same distance to the destination compare
      exactly as their distances from the source do; this is why the A*
      relaxation test reduces to a test on distances from the source. */
  lemma AStarKeyCancelsDestination(g: real, h: real, gNode: real)
    ensures GetHeuristic(AStarString, Scores(g, h, 0.0)) >= gNode + h <==> g >= gNode
  {
  }
}

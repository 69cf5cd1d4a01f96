/** The bookkeeping every search engine keeps, stated on values: the list
    of expanded cells, the fringe, and the parent links. The predicates
    here are the invariants the engines maintain; the lemmas say why each
    step of an engine preserves them and what they give once a run stops:
    parent chains that end at the root and walk the grid, and, when the
    fringe runs dry, every cell reachable from the root expanded. */
module SearchTree {
  import opened Cells
  import opened GridGraph

  predicate NoDup(s: seq<Pos>)
  {
    forall i, j :: 0 <= i < j < |s| ==> s[i] != s[j]
  }

  function Elements(s: seq<Pos>): (e: set<Pos>)
    ensures forall x :: x in e <==> x in s
  {
    set x | x in s
  }

  /** The first index at which x occurs. */
  function IndexOf(s: seq<Pos>, x: Pos): (i: nat)
    requires x in s
    ensures i < |s| && s[i] == x
    ensures forall j :: 0 <= j < i ==> s[j] != x
  {
    if s[0] == x then 0 else 1 + IndexOf(s[1..], x)
  }

  /** The list with the element at index i taken out (`pop(i)`). */
  function Remove(s: seq<Pos>, i: nat): (r: seq<Pos>)
    requires i < |s|
    ensures |r| == |s| - 1
  {
    s[..i] + s[i + 1..]
  }

  lemma RemoveKeepsNoDup(s: seq<Pos>, i: nat)
    requires NoDup(s) && i < |s|
    ensures NoDup(Remove(s, i))
  {
    var r := Remove(s, i);
    forall a, b | 0 <= a < b < |r|
      ensures r[a] != r[b]
    {
      var a', b' := if a < i then a else a + 1, if b < i then b else b + 1;
      assert r[a] == s[a'] && r[b] == s[b'];
    }
  }

  /** Appending to the expanded list unless the cell is already there
      (`if node not in self.visited: self.visited.append(node)`). */
  function Visit(visited: seq<Pos>, u: Pos): (v: seq<Pos>)
    ensures u in v && forall x :: x in visited ==> x in v
    ensures forall x :: x in v ==> x in visited || x == u
  {
    if u in visited then visited else visited + [u]
  }

  /** The order in which a cell was expanded; cells not yet expanded come
      after all expanded ones. */
  function Rank(visited: seq<Pos>, p: Pos): nat
  {
    if p in visited then IndexOf(visited, p) else |visited|
  }

  /** Parent links point at expanded cells that were expanded earlier than
      the child: the links are well-founded. */
  ghost predicate Ranked(parent: map<Pos, Pos>, visited: seq<Pos>)
  {
    && NoDup(visited)
    && forall p :: p in parent ==> parent[p] in visited && Rank(visited, parent[p]) < Rank(visited, p)
  }

  /** The shape of a search in progress. The first expanded cell is the
      root, which has no parent; every other expanded or queued cell has
      one, and each parent is an expanded cell linked to its child. */
  ghost predicate Tree(graph: GraphValue, visited: seq<Pos>, fringe: seq<Pos>, parent: map<Pos, Pos>)
  {
    && |visited| > 0
    && Ranked(parent, visited)
    && visited[0] !in parent
    && (forall i :: 0 <= i < |visited| ==> IsCell(graph, visited[i]))
    && (forall i :: 0 <= i < |fringe| ==> IsCell(graph, fringe[i]))
    && (forall p :: p in parent ==> p in Links(graph, parent[p]))
    && (forall i {:trigger visited[i] in parent} :: 0 < i < |visited| ==> visited[i] in parent)
    && (forall i :: 0 <= i < |fringe| ==> fringe[i] == visited[0] || fringe[i] in parent)
  }

  /** Every neighbour of v has been expanded or is queued. */
  ghost predicate Expanded(graph: GraphValue, visited: seq<Pos>, fringe: seq<Pos>, v: Pos)
  {
    forall q :: q in Links(graph, v) ==> q in visited || q in fringe
  }

  /** Every expanded cell that is not queued any more has had all its
      neighbours discovered. */
  ghost predicate Closed(graph: GraphValue, visited: seq<Pos>, fringe: seq<Pos>)
  {
    forall v :: v in visited && v !in fringe ==> Expanded(graph, visited, fringe, v)
  }

  /** Closed, except possibly for the cell u being expanded right now. */
  ghost predicate ClosedBut(graph: GraphValue, visited: seq<Pos>, fringe: seq<Pos>, u: Pos)
  {
    forall v :: v in visited && v !in fringe && v != u ==> Expanded(graph, visited, fringe, v)
  }

  /** The start of every search: the root both expanded and queued. */
  lemma StartIsTree(graph: GraphValue, root: Pos)
    requires IsCell(graph, root)
    ensures Tree(graph, [root], [root], map[])
    ensures Closed(graph, [root], [root])
  {
  }

  lemma IndexOfAppend(s: seq<Pos>, u: Pos, x: Pos)
    requires x in s
    ensures IndexOf(s + [u], x) == IndexOf(s, x)
  {
    assert (s + [u])[IndexOf(s, x)] == x;
  }

  /** Appending a new cell to the expanded list leaves every other rank
      in place, and the new cell ranks after all earlier ones. */
  lemma RankAfterVisit(visited: seq<Pos>, u: Pos, p: Pos)
    requires u !in visited
    ensures Rank(visited + [u], p) ==
      if p in visited then Rank(visited, p) else if p == u then |visited| else |visited| + 1
  {
    if p in visited {
      IndexOfAppend(visited, u, p);
    } else if p == u {
      assert (visited + [u])[|visited|] == u;
    }
  }

  /** Removing a queued cell keeps the shape. */
  lemma RemoveKeepsTree(graph: GraphValue, visited: seq<Pos>, fringe: seq<Pos>, parent: map<Pos, Pos>, i: nat)
    requires Tree(graph, visited, fringe, parent) && i < |fringe|
    ensures Tree(graph, visited, Remove(fringe, i), parent)
  {
    var r := Remove(fringe, i);
    forall k | 0 <= k < |r|
      ensures IsCell(graph, r[k]) && (r[k] == visited[0] || r[k] in parent)
    {
      if k < i {
        assert r[k] == fringe[k];
      } else {
        assert r[k] == fringe[k + 1];
      }
    }
  }

  /** Expanding a cell taken from the fringe keeps the shape: a newly
      expanded cell already has its parent, expanded earlier. */
  lemma VisitKeepsTree(graph: GraphValue, visited: seq<Pos>, fringe: seq<Pos>, parent: map<Pos, Pos>, u: Pos)
    requires Tree(graph, visited, fringe, parent)
    requires IsCell(graph, u) && (u == visited[0] || u in parent)
    ensures Tree(graph, Visit(visited, u), fringe, parent)
  {
    if u !in visited {
      var v := visited + [u];
      forall i, j | 0 <= i < j < |v| ensures v[i] != v[j] {
        if j < |visited| {
          assert v[i] == visited[i] && v[j] == visited[j];
        } else {
          assert v[i] == visited[i];
        }
      }
      forall p | p in parent ensures parent[p] in v && Rank(v, parent[p]) < Rank(v, p) {
        RankAfterVisit(visited, u, parent[p]);
        RankAfterVisit(visited, u, p);
      }
      forall i | 0 <= i < |v| ensures IsCell(graph, v[i]) && (i > 0 ==> v[i] in parent) {
        if i < |visited| {
          assert v[i] == visited[i];
        }
      }
    }
  }

  /** Giving the unexpanded neighbour c of an expanded cell that cell as
      its parent keeps the shape, whether or not c is then queued. */
  lemma AdoptKeepsTree(graph: GraphValue, visited: seq<Pos>, fringe: seq<Pos>, parent: map<Pos, Pos>, node: Pos, c: Pos)
    requires Tree(graph, visited, fringe, parent) && WellLinked(graph)
    requires node in visited && c in Links(graph, node) && c !in visited
    ensures Tree(graph, visited, fringe, parent[c := node])
    ensures Tree(graph, visited, fringe + [c], parent[c := node])
  {
    var parent' := parent[c := node];
    assert Rank(visited, node) < Rank(visited, c);
    assert Ranked(parent', visited);
    assert IsCell(graph, c);
    var f := fringe + [c];
    forall i | 0 <= i < |f| ensures IsCell(graph, f[i]) && (f[i] == visited[0] || f[i] in parent') {
      if i < |fringe| {
        assert f[i] == fringe[i];
      }
    }
  }

  /** What `pop(i)` keeps: every other entry. */
  lemma RemoveMembers(s: seq<Pos>, i: nat)
    requires i < |s|
    ensures forall x :: x in s <==> x in Remove(s, i) || x == s[i]
  {
    var r := Remove(s, i);
    forall x | x in s ensures x in r || x == s[i] {
      var k :| 0 <= k < |s| && s[k] == x;
      if k < i {
        assert r[k] == x;
      } else if k > i {
        assert r[k - 1] == x;
      }
    }
    forall x | x in r ensures x in s {
      var k :| 0 <= k < |r| && r[k] == x;
      if k < i {
        assert s[k] == x;
      } else {
        assert s[k + 1] == x;
      }
    }
  }

  /** Taking a cell out of the fringe and expanding it leaves the search
      closed except at that cell. */
  lemma PopKeepsClosure(graph: GraphValue, visited: seq<Pos>, fringe: seq<Pos>, i: nat)
    requires Closed(graph, visited, fringe) && i < |fringe|
    ensures ClosedBut(graph, Visit(visited, fringe[i]), Remove(fringe, i), fringe[i])
  {
    var u := fringe[i];
    var v, r := Visit(visited, u), Remove(fringe, i);
    RemoveMembers(fringe, i);
    forall w | w in v && w !in r && w != u ensures Expanded(graph, v, r, w) {
      assert w in visited && w !in fringe;
      assert Expanded(graph, visited, fringe, w);
    }
  }

  /** Queueing one more cell never undoes closure. */
  lemma GrowFringeKeepsClosure(graph: GraphValue, visited: seq<Pos>, fringe: seq<Pos>, x: Pos, u: Pos)
    ensures Closed(graph, visited, fringe) ==> Closed(graph, visited, fringe + [x])
    ensures ClosedBut(graph, visited, fringe, u) ==> ClosedBut(graph, visited, fringe + [x], u)
  {
    var f := fringe + [x];
    assert forall y :: y in fringe ==> y in f;
    if Closed(graph, visited, fringe) {
      forall w | w in visited && w !in f ensures Expanded(graph, visited, f, w) {
        assert Expanded(graph, visited, fringe, w);
      }
    }
    if ClosedBut(graph, visited, fringe, u) {
      forall w | w in visited && w !in f && w != u ensures Expanded(graph, visited, f, w) {
        assert Expanded(graph, visited, fringe, w);
      }
    }
  }

  /** Once the cell being expanded has all its neighbours discovered, the
      search is closed again. */
  lemma ExpandedCloses(graph: GraphValue, visited: seq<Pos>, fringe: seq<Pos>, u: Pos)
    requires ClosedBut(graph, visited, fringe, u) && Expanded(graph, visited, fringe, u)
    ensures Closed(graph, visited, fringe)
  {
  }

  /** How many fringe entries are already expanded cells. */
  function CountIn(s: seq<Pos>, visited: seq<Pos>): (k: nat)
    ensures k <= |s|
  {
    if s == [] then 0
    else CountIn(s[..|s| - 1], visited) + (if s[|s| - 1] in visited then 1 else 0)
  }

  lemma CountInAppend(s: seq<Pos>, x: Pos, visited: seq<Pos>)
    ensures CountIn(s + [x], visited) == CountIn(s, visited) + (if x in visited then 1 else 0)
  {
    assert (s + [x])[..|s|] == s;
  }

  /** The parent links after every cell of kids is given node as its
      parent. */
  function Adopt(parent: map<Pos, Pos>, kids: seq<Pos>, node: Pos): (m: map<Pos, Pos>)
    ensures forall p :: p in m <==> p in parent || p in kids
    ensures forall p :: p in m ==> m[p] == if p in kids then node else parent[p]
  {
    parent + map k | k in kids :: node
  }

  /** Adopting no cells changes no parent. */
  lemma AdoptNothing(parent: map<Pos, Pos>, node: Pos)
    ensures Adopt(parent, [], node) == parent
  {
    var m := Adopt(parent, [], node);
    assert m.Keys == parent.Keys;
    assert forall p :: p in m ==> m[p] == parent[p];
  }

  lemma AdoptLast(parent: map<Pos, Pos>, kids: seq<Pos>, k: Pos, node: Pos)
    ensures Adopt(parent, kids + [k], node) == Adopt(parent, kids, node)[k := node]
  {
    var a, b := Adopt(parent, kids + [k], node), Adopt(parent, kids, node)[k := node];
    assert forall p :: p in kids + [k] <==> p in kids || p == k;
    assert a.Keys == b.Keys;
    assert forall p :: p in a ==> a[p] == b[p];
  }

  /** Queueing the unexpanded neighbours kids of an expanded cell node, each
      with node as its parent, keeps the search tree. */
  lemma PushKeepsTree(graph: GraphValue, visited: seq<Pos>, fringe: seq<Pos>, parent: map<Pos, Pos>,
                      node: Pos, kids: seq<Pos>)
    requires Tree(graph, visited, fringe, parent) && WellLinked(graph) && node in visited
    requires forall k :: k in kids ==> k in Links(graph, node) && k !in visited
    ensures Tree(graph, visited, fringe + kids, Adopt(parent, kids, node))
  {
    var p1 := Adopt(parent, kids, node);
    var f := fringe + kids;
    forall p | p in p1
      ensures p1[p] in visited && Rank(visited, p1[p]) < Rank(visited, p) && p in Links(graph, p1[p])
    {
      if p in kids {
        assert p1[p] == node && Rank(visited, p) == |visited|;
      }
    }
    assert Ranked(p1, visited);
    forall i | 0 <= i < |f|
      ensures IsCell(graph, f[i]) && (f[i] == visited[0] || f[i] in p1)
    {
      if i < |fringe| {
        assert f[i] == fringe[i];
      } else {
        var k := kids[i - |fringe|];
        assert f[i] == k && k in kids;
        assert k in Links(graph, node) && k in p1;
      }
    }
  }

  /** Queueing cells that are not expanded adds no expanded cell to the
      fringe. */
  lemma {:induction false} PushKeepsCount(fringe: seq<Pos>, kids: seq<Pos>, visited: seq<Pos>)
    requires forall k :: k in kids ==> k !in visited
    ensures CountIn(fringe + kids, visited) == CountIn(fringe, visited)
    decreases |kids|
  {
    if kids == [] {
      assert fringe + kids == fringe;
    } else {
      var ks, k := kids[..|kids| - 1], kids[|kids| - 1];
      assert kids == ks + [k];
      assert fringe + kids == fringe + ks + [k];
      PushKeepsCount(fringe, ks, visited);
      CountInAppend(fringe + ks, k, visited);
    }
  }

  /** Queueing more cells keeps every closure fact. */
  lemma PushKeepsClosure(graph: GraphValue, visited: seq<Pos>, fringe: seq<Pos>, kids: seq<Pos>)
    ensures Closed(graph, visited, fringe) ==> Closed(graph, visited, fringe + kids)
    ensures forall u :: ClosedBut(graph, visited, fringe, u) ==> ClosedBut(graph, visited, fringe + kids, u)
  {
    var f := fringe + kids;
    assert forall y :: y in fringe ==> y in f;
    assert forall w :: Expanded(graph, visited, fringe, w) ==> Expanded(graph, visited, f, w);
  }

  /** What queueing the unexpanded neighbours kids of the expanded cell
      node, each with node as its parent, does to a search: f1 and p1 are
      the fringe and the parents after f0 and p0; the shape and the count
      of expanded entries are kept, every neighbour of node is expanded or
      queued, and every closure fact still holds. */
  ghost predicate Settled(graph: GraphValue, visited: seq<Pos>, f0: seq<Pos>, p0: map<Pos, Pos>,
                          f1: seq<Pos>, p1: map<Pos, Pos>, node: Pos, kids: seq<Pos>)
  {
    && f1 == f0 + kids && p1 == Adopt(p0, kids, node)
    && (kids == [] ==> f1 == f0 && p1 == p0)
    && Tree(graph, visited, f1, p1) && Expanded(graph, visited, f1, node)
    && CountIn(f1, visited) == CountIn(f0, visited)
    && (Closed(graph, visited, f0) ==> Closed(graph, visited, f1))
    && (forall u :: ClosedBut(graph, visited, f0, u) ==> ClosedBut(graph, visited, f1, u))
  }

  /** Queueing exactly the unexpanded neighbours of an expanded cell
      settles it. */
  lemma PushSettles(graph: GraphValue, visited: seq<Pos>, fringe: seq<Pos>, parent: map<Pos, Pos>,
                    node: Pos, kids: seq<Pos>)
    requires Tree(graph, visited, fringe, parent) && WellLinked(graph) && node in visited
    requires forall q :: q in kids <==> q in Links(graph, node) && q !in visited
    ensures Settled(graph, visited, fringe, parent, fringe + kids, Adopt(parent, kids, node), node, kids)
  {
    PushKeepsTree(graph, visited, fringe, parent, node, kids);
    PushKeepsCount(fringe, kids, visited);
    PushKeepsClosure(graph, visited, fringe, kids);
    if kids == [] {
      AdoptNothing(parent, node);
      assert fringe + kids == fringe;
    }
  }

  lemma {:induction false} CountInRemove(s: seq<Pos>, i: nat, visited: seq<Pos>)
    requires i < |s|
    ensures CountIn(Remove(s, i), visited) + (if s[i] in visited then 1 else 0) == CountIn(s, visited)
    decreases |s|
  {
    var init, last := s[..|s| - 1], s[|s| - 1];
    assert s == init + [last];
    if i == |s| - 1 {
      assert Remove(s, i) == init;
    } else {
      CountInRemove(init, i, visited);
      var ri := Remove(init, i);
      assert s[..i] == init[..i];
      assert s[i + 1..] == init[i + 1..] + [last];
      assert Remove(s, i) == ri + [last];
      CountInAppend(ri, last, visited);
      assert init[i] == s[i];
    }
  }

  /** Expanding a cell not expanded before leaves strictly fewer passable
      cells unexpanded. */
  lemma VisitShrinksUnexpanded(graph: GraphValue, visited: seq<Pos>, u: Pos)
    requires IsCell(graph, u) && u !in visited
    ensures PassableCells(graph) - Elements(Visit(visited, u)) < PassableCells(graph) - Elements(visited)
  {
    assert u in PassableCells(graph) - Elements(visited);
  }

  /** The passable cells not expanded yet. */
  ghost function Unexpanded(graph: GraphValue, visited: seq<Pos>): set<Pos>
  {
    PassableCells(graph) - Elements(visited)
  }

  /** The termination measure of every engine's main loop went down from
      (v0, f0) to (v1, f1): fewer unexpanded cells, or as many and fewer
      stale fringe entries. */
  ghost predicate Progress(graph: GraphValue, v0: seq<Pos>, f0: seq<Pos>, v1: seq<Pos>, f1: seq<Pos>)
  {
    || Unexpanded(graph, v1) < Unexpanded(graph, v0)
    || (Unexpanded(graph, v1) == Unexpanded(graph, v0) && CountIn(f1, v1) < CountIn(f0, v0))
  }

  /** The cells of kids that breadth-first search and A* queue: those not
      already on the fringe f, each once, in order (`if child not in
      self.fringe: ... self.fringe.append(child)`). */
  function NewKids(f: seq<Pos>, kids: seq<Pos>): (r: seq<Pos>)
    ensures forall x :: x in r <==> x in kids && x !in f
  {
    if kids == [] then []
    else
      var a := NewKids(f, kids[..|kids| - 1]);
      var k := kids[|kids| - 1];
      assert forall x :: x in kids <==> x in kids[..|kids| - 1] || x == k by {
        assert kids == kids[..|kids| - 1] + [k];
      }
      if k in f + a then a else a + [k]
  }

  /** Queueing only cells not yet queued keeps the fringe free of
      repeats. */
  lemma {:induction false} NewKidsKeepNoDup(f: seq<Pos>, kids: seq<Pos>)
    requires NoDup(f)
    ensures NoDup(f + NewKids(f, kids))
    decreases |kids|
  {
    if kids != [] {
      var a := NewKids(f, kids[..|kids| - 1]);
      var k := kids[|kids| - 1];
      NewKidsKeepNoDup(f, kids[..|kids| - 1]);
      if k !in f + a {
        assert f + (a + [k]) == (f + a) + [k];
        AppendKeepsNoDup(f + a, k);
      }
    }
  }

  lemma AppendKeepsNoDup(s: seq<Pos>, x: Pos)
    requires NoDup(s) && x !in s
    ensures NoDup(s + [x])
  {
    forall i, j | 0 <= i < j < |s + [x]|
      ensures (s + [x])[i] != (s + [x])[j]
    {
      assert (s + [x])[i] == s[i];
    }
  }

  /** Taking entry i off the fringe and expanding it keeps the search
      tree, leaves the search closed except at that cell, and makes
      progress. */
  lemma PopKeepsSearch(graph: GraphValue, visited: seq<Pos>, fringe: seq<Pos>, parent: map<Pos, Pos>, i: nat)
    requires Tree(graph, visited, fringe, parent) && i < |fringe|
    ensures fringe[i] == visited[0] || fringe[i] in parent
    ensures Tree(graph, visited, Remove(fringe, i), parent)
    ensures Tree(graph, Visit(visited, fringe[i]), Remove(fringe, i), parent)
    ensures Visit(visited, fringe[i])[0] == visited[0]
    ensures Progress(graph, visited, fringe, Visit(visited, fringe[i]), Remove(fringe, i))
    ensures Closed(graph, visited, fringe) ==> ClosedBut(graph, Visit(visited, fringe[i]), Remove(fringe, i), fringe[i])
  {
    var u := fringe[i];
    RemoveKeepsTree(graph, visited, fringe, parent, i);
    VisitKeepsTree(graph, visited, Remove(fringe, i), parent, u);
    CountInRemove(fringe, i, visited);
    if u !in visited {
      VisitShrinksUnexpanded(graph, visited, u);
    }
    if Closed(graph, visited, fringe) {
      PopKeepsClosure(graph, visited, fringe, i);
    }
  }

  /** The cells an engine takes one step of the search from. */
  lemma {:induction false} NoDupLength(s: seq<Pos>)
    requires NoDup(s)
    ensures |Elements(s)| == |s|
    decreases |s|
  {
    if s != [] {
      var init := s[..|s| - 1];
      assert NoDup(init);
      NoDupLength(init);
      assert Elements(s) == Elements(init) + {s[|s| - 1]};
    }
  }

  lemma SubsetCardinality(a: set<Pos>, b: set<Pos>)
    requires a <= b
    ensures |a| <= |b|
  {
    assert b == a + (b - a);
    assert a * (b - a) == {};
  }

  /** A list without repeats drawn from the passable cells is no longer
      than the number of passable cells. */
  lemma CountBound(graph: GraphValue, s: seq<Pos>)
    requires NoDup(s) && forall i :: 0 <= i < |s| ==> IsCell(graph, s[i])
    ensures |s| <= |PassableCells(graph)|
  {
    NoDupLength(s);
    SubsetCardinality(Elements(s), PassableCells(graph));
  }

  /** The parent walk from p (`while node is not None: ...; node =
      node.parent`), p first. It follows a parent link at each step, stops
      at the first cell without a parent, and each step lands on a cell
      expanded before p, so no cell repeats. */
  ghost function Chain(parent: map<Pos, Pos>, visited: seq<Pos>, p: Pos): (c: seq<Pos>)
    requires Ranked(parent, visited)
    ensures |c| >= 1 && c[0] == p
    ensures |c| == 1 <==> p !in parent
    ensures c[|c| - 1] !in parent
    ensures forall i :: 0 <= i < |c| - 1 ==> c[i] in parent && parent[c[i]] == c[i + 1]
    decreases Rank(visited, p)
  {
    if p in parent then [p] + Chain(parent, visited, parent[p]) else [p]
  }

  /** Each step of the parent walk lands on a cell expanded before p. */
  lemma {:induction false} ChainDescends(parent: map<Pos, Pos>, visited: seq<Pos>, p: Pos)
    requires Ranked(parent, visited)
    ensures forall i :: 1 <= i < |Chain(parent, visited, p)| ==>
      Chain(parent, visited, p)[i] in visited && Rank(visited, Chain(parent, visited, p)[i]) < Rank(visited, p)
    decreases Rank(visited, p)
  {
    if p in parent {
      var q := parent[p];
      var c, rest := Chain(parent, visited, p), Chain(parent, visited, q);
      ChainDescends(parent, visited, q);
      assert c == [p] + rest;
      forall i | 1 <= i < |c|
        ensures c[i] in visited && Rank(visited, c[i]) < Rank(visited, p)
      {
        assert c[i] == rest[i - 1];
        if i > 1 {
          assert Rank(visited, rest[i - 1]) < Rank(visited, q);
        }
      }
    }
  }

  /** So no cell repeats on the parent walk. */
  lemma {:induction false} ChainHasNoDup(parent: map<Pos, Pos>, visited: seq<Pos>, p: Pos)
    requires Ranked(parent, visited)
    ensures NoDup(Chain(parent, visited, p))
    decreases Rank(visited, p)
  {
    if p in parent {
      var q := parent[p];
      var rest := Chain(parent, visited, q);
      ChainHasNoDup(parent, visited, q);
      ChainDescends(parent, visited, p);
      assert Chain(parent, visited, p) == [p] + rest;
      forall k | 0 <= k < |rest|
        ensures rest[k] != p
      {
        assert rest[k] == Chain(parent, visited, p)[k + 1];
      }
      ConsKeepsNoDup(p, rest);
    }
  }

  lemma ConsKeepsNoDup(x: Pos, s: seq<Pos>)
    requires NoDup(s) && x !in s
    ensures NoDup([x] + s)
  {
    forall i, j | 0 <= i < j < |[x] + s|
      ensures ([x] + s)[i] != ([x] + s)[j]
    {
      if i > 0 {
        assert ([x] + s)[i] == s[i - 1];
      }
    }
  }

  /** In a search tree the parent walk from the root, or from any cell
      with a parent, ends at the root. */
  lemma ChainEndsAtRoot(graph: GraphValue, visited: seq<Pos>, fringe: seq<Pos>, parent: map<Pos, Pos>, p: Pos)
    requires Tree(graph, visited, fringe, parent)
    requires p == visited[0] || p in parent
    ensures var c := Chain(parent, visited, p); c[|c| - 1] == visited[0]
  {
    var c := Chain(parent, visited, p);
    var last := c[|c| - 1];
    ChainDescends(parent, visited, p);
    if |c| > 1 {
      var k := IndexOf(visited, last);
      assert k == 0;
    }
  }

  /** Each step of the parent walk goes from a child to the cell that
      links to it. */
  lemma ChainStepsAreLinks(graph: GraphValue, visited: seq<Pos>, fringe: seq<Pos>, parent: map<Pos, Pos>, p: Pos)
    requires Tree(graph, visited, fringe, parent)
    ensures var c := Chain(parent, visited, p);
      forall i :: 0 <= i < |c| - 1 ==> c[i] in Links(graph, c[i + 1])
  {
    var c := Chain(parent, visited, p);
    forall i | 0 <= i < |c| - 1 ensures c[i] in Links(graph, c[i + 1]) {
      assert c[i] in parent && parent[c[i]] == c[i + 1];
    }
  }

  /** Read backwards, the parent walk is a walk of the graph from the root
      by grid-adjacent steps, through cells only. */
  lemma ChainWalksFromRoot(graph: GraphValue, visited: seq<Pos>, fringe: seq<Pos>, parent: map<Pos, Pos>, p: Pos)
    requires Tree(graph, visited, fringe, parent) && WellLinked(graph)
    requires p == visited[0] || p in parent
    ensures var c := Chain(parent, visited, p);
      && (forall i :: 0 <= i < |c| ==> IsCell(graph, c[i]))
      && Walk(graph, Reverse(c))
      && (forall i :: 0 <= i < |c| - 1 ==> Adjacent(Reverse(c)[i], Reverse(c)[i + 1]))
  {
    ChainEndsAtRoot(graph, visited, fringe, parent, p);
    ChainStepsAreLinks(graph, visited, fringe, parent, p);
    var c := Chain(parent, visited, p);
    assert IsCell(graph, visited[0]);
    AllCellsOnBackwardWalk(graph, c);
    ReverseOfBackwardWalk(graph, c);
    WalkStepsAreAdjacent(graph, Reverse(c));
  }

  lemma AllCellsOnBackwardWalk(graph: GraphValue, c: seq<Pos>)
    requires WellLinked(graph) && |c| > 0 && IsCell(graph, c[|c| - 1])
    requires forall i :: 0 <= i < |c| - 1 ==> c[i] in Links(graph, c[i + 1])
    ensures forall i :: 0 <= i < |c| ==> IsCell(graph, c[i])
  {
    forall i | 0 <= i < |c| ensures IsCell(graph, c[i]) {
      if i < |c| - 1 {
        assert c[i] in Links(graph, c[i + 1]);
      }
    }
  }

  lemma ReverseOfBackwardWalk(graph: GraphValue, c: seq<Pos>)
    requires forall i :: 0 <= i < |c| - 1 ==> c[i] in Links(graph, c[i + 1])
    ensures Walk(graph, Reverse(c))
  {
    var r := Reverse(c);
    forall i | 0 <= i < |r| - 1 ensures r[i + 1] in Links(graph, r[i]) {
      var j := |c| - 2 - i;
      assert r[i] == c[j + 1] && r[i + 1] == c[j];
    }
  }

  /** In a well-linked graph every walk moves between grid-adjacent
      cells. */
  lemma WalkStepsAreAdjacent(graph: GraphValue, w: seq<Pos>)
    requires WellLinked(graph) && Walk(graph, w)
    ensures forall i :: 0 <= i < |w| - 1 ==> Adjacent(w[i], w[i + 1])
  {
    forall i | 0 <= i < |w| - 1 ensures Adjacent(w[i], w[i + 1]) {
      assert w[i + 1] in Links(graph, w[i]);
    }
  }

  /** `[::-1]`. */
  function Reverse(s: seq<Pos>): (r: seq<Pos>)
    ensures |r| == |s|
    ensures forall i :: 0 <= i < |s| ==> r[i] == s[|s| - 1 - i]
  {
    if s == [] then [] else Reverse(s[1..]) + [s[0]]
  }

  /** Reversing twice gives the list back. */
  lemma ReverseReverse(s: seq<Pos>)
    ensures Reverse(Reverse(s)) == s
  {
  }

  /** Consecutive cells are linked in the graph. */
  ghost predicate Walk(graph: GraphValue, w: seq<Pos>)
  {
    forall i :: 0 <= i < |w| - 1 ==> w[i + 1] in Links(graph, w[i])
  }

  /** b can be reached from a by following links. */
  ghost predicate Reachable(graph: GraphValue, a: Pos, b: Pos)
  {
    exists w :: |w| > 0 && w[0] == a && w[|w| - 1] == b && Walk(graph, w)
  }

  /** With nothing left queued, a closed search has expanded every cell
      on any walk that starts at an expanded cell. */
  lemma {:induction false} ClosedContainsWalk(graph: GraphValue, visited: seq<Pos>, w: seq<Pos>)
    requires Closed(graph, visited, []) && |w| > 0 && w[0] in visited && Walk(graph, w)
    ensures forall i :: 0 <= i < |w| ==> w[i] in visited
    decreases |w|
  {
    if |w| > 1 {
      var init := w[..|w| - 1];
      assert Walk(graph, init);
      ClosedContainsWalk(graph, visited, init);
      assert w[|w| - 1] in Links(graph, w[|w| - 2]);
      assert Expanded(graph, visited, [], w[|w| - 2]);
      forall i | 0 <= i < |w| ensures w[i] in visited {
        if i < |w| - 1 {
          assert w[i] == init[i];
        }
      }
    }
  }

  /** A search whose fringe ran dry has expanded every cell reachable from
      its root. */
  lemma ClosedContainsReachable(graph: GraphValue, visited: seq<Pos>, b: Pos)
    requires Closed(graph, visited, []) && |visited| > 0 && Reachable(graph, visited[0], b)
    ensures b in visited
  {
    var w :| |w| > 0 && w[0] == visited[0] && w[|w| - 1] == b && Walk(graph, w);
    ClosedContainsWalk(graph, visited, w);
  }

  lemma ReverseKeepsNoDup(s: seq<Pos>)
    requires NoDup(s)
    ensures NoDup(Reverse(s))
  {
    var r := Reverse(s);
    forall i, j | 0 <= i < j < |r| ensures r[i] != r[j] {
      assert r[i] == s[|s| - 1 - i] && r[j] == s[|s| - 1 - j];
    }
  }

  /** The parent walk from a cell with a parent, reversed, is a path of
      two or more cells from the root to that cell. */
  lemma ParentWalkIsPath(graph: GraphValue, visited: seq<Pos>, fringe: seq<Pos>, parent: map<Pos, Pos>, p: Pos)
    requires Tree(graph, visited, fringe, parent) && WellLinked(graph) && p in parent
    ensures var w := Reverse(Chain(parent, visited, p));
      && |w| > 1 && w[0] == visited[0] && w[|w| - 1] == p && Walk(graph, w) && NoDup(w)
      && (forall i :: 0 <= i < |w| - 1 ==> Adjacent(w[i], w[i + 1]))
  {
    var c := Chain(parent, visited, p);
    ChainEndsAtRoot(graph, visited, fringe, parent, p);
    ChainWalksFromRoot(graph, visited, fringe, parent, p);
    ChainHasNoDup(parent, visited, p);
    ReverseKeepsNoDup(c);
  }

  /** What a finished search reports. The search has either reached the
      destination (it is the root or has a parent) or run out of cells to
      queue. Then the parent walk from the destination is longer than the
      destination alone exactly when the destination is reachable from the
      root and differs from it, and in that case the walk, reversed, leads
      from the root to the destination through linked, adjacent cells
      without visiting any cell twice. */
  lemma FinishedSearchFindsPath(graph: GraphValue, visited: seq<Pos>, fringe: seq<Pos>, parent: map<Pos, Pos>, dest: Pos)
    requires Tree(graph, visited, fringe, parent) && WellLinked(graph)
    requires dest == visited[0] || dest in parent || (fringe == [] && Closed(graph, visited, fringe))
    ensures var c := Chain(parent, visited, dest);
      && (|c| > 1 <==> Reachable(graph, visited[0], dest) && visited[0] != dest)
      && (|c| == 1 ==> c == [dest])
    ensures var w := Reverse(Chain(parent, visited, dest));
      |w| > 1 ==>
        && w[0] == visited[0] && w[|w| - 1] == dest && Walk(graph, w) && NoDup(w)
        && (forall i :: 0 <= i < |w| - 1 ==> Adjacent(w[i], w[i + 1]))
  {
    if dest in parent {
      ParentWalkIsPath(graph, visited, fringe, parent, dest);
      var w := Reverse(Chain(parent, visited, dest));
      assert w[0] != w[|w| - 1];
      assert Reachable(graph, visited[0], dest);
    } else if Reachable(graph, visited[0], dest) && visited[0] != dest {
      ClosedContainsReachable(graph, visited, dest);
      assert false;
    }
  }

  /** A* bookkeeping: the root is at distance 0 from itself and every cell
      with a parent is one further than its parent. */
  ghost predicate Distances(dist: map<Pos, int>, parent: map<Pos, Pos>, root: Pos)
  {
    && root in dist && dist[root] == 0
    && forall p :: p in parent ==> p in dist && parent[p] in dist && dist[p] == dist[parent[p]] + 1
  }

  /** The recorded distance of a cell is the number of steps of its parent
      walk back to the root. */
  lemma {:induction false} ChainMeasuresDistance(dist: map<Pos, int>, parent: map<Pos, Pos>, visited: seq<Pos>, p: Pos)
    requires Ranked(parent, visited) && |visited| > 0 && visited[0] !in parent
    requires forall i :: 0 < i < |visited| ==> visited[i] in parent
    requires Distances(dist, parent, visited[0])
    requires p == visited[0] || p in parent
    ensures p in dist && dist[p] == |Chain(parent, visited, p)| - 1
    decreases Rank(visited, p)
  {
    if p in parent {
      var q := parent[p];
      var k := IndexOf(visited, q);
      assert k == 0 || visited[k] in parent;
      ChainMeasuresDistance(dist, parent, visited, q);
    }
  }

  /** n is even. */
  function EvenNat(n: nat): bool
  {
    if n == 0 then true else !EvenNat(n - 1)
  }

  function Even(x: int): bool
  {
    EvenNat(if x < 0 then -x else x)
  }

  /** Adding one flips evenness. */
  lemma EvenFlips(x: int)
    ensures Even(x + 1) == !Even(x)
  {
    if x < 0 {
      assert EvenNat(-x) == !EvenNat(-x - 1);
    } else {
      assert EvenNat(x + 1) == !EvenNat(x);
    }
  }

  /** Grid parity relative to the root: a distance counted from the root
      has the parity of the cell's offset from it. */
  predicate Parity(d: int, p: Pos, root: Pos)
  {
    Even(d + p.row + p.column + root.row + root.column)
  }

  lemma {:induction false} EvenDouble(n: nat)
    ensures EvenNat(2 * n)
  {
    if n > 0 {
      EvenDouble(n - 1);
      assert EvenNat(2 * n) == !EvenNat(2 * n - 1);
    }
  }

  /** The root is at distance zero from itself with the right parity. */
  lemma RootParity(root: Pos)
    ensures Parity(0, root, root)
  {
    var k := root.row + root.column;
    EvenDouble(if k < 0 then -k else k);
  }

  /** One step to an adjacent cell flips the parity. */
  lemma ParityStep(gn: int, node: Pos, c: Pos, root: Pos)
    requires Parity(gn, node, root) && Adjacent(node, c)
    ensures Parity(gn + 1, c, root)
  {
    var x := gn + node.row + node.column + root.row + root.column;
    if c.row + c.column == node.row + node.column + 1 {
      EvenFlips(x);
      EvenFlips(x + 1);
      assert gn + 1 + c.row + c.column + root.row + root.column == x + 2;
    } else {
      assert gn + 1 + c.row + c.column + root.row + root.column == x;
    }
  }

  /** Adjacent cells have opposite parity, so on a grid two adjacent cells
      never record the same distance from the root; hence the A*
      relaxation test `child.g >= node.g` only passes when the child's
      distance is at least one more than the node's, and re-parenting
      never lengthens the child's recorded distance. */
  lemma ParityForbidsTies(gc: int, c: Pos, gn: int, node: Pos, root: Pos)
    requires Parity(gc, c, root) && Parity(gn, node, root) && Adjacent(node, c)
    ensures gc != gn
    ensures gc >= gn ==> gn + 1 <= gc
  {
    var x := gn + node.row + node.column + root.row + root.column;
    if gc == gn {
      if c.row + c.column == node.row + node.column + 1 {
        assert gc + c.row + c.column + root.row + root.column == x + 1;
        EvenFlips(x);
      } else {
        assert gc + c.row + c.column + root.row + root.column == x - 1;
        EvenFlips(x - 1);
      }
    }
  }

  /** `_get_unvisited_children` without reordering: the present children
      not yet expanded, in the order given. */
  function Unvisited(children: seq<Option<Pos>>, visited: seq<Pos>): (r: seq<Pos>)
    ensures forall x :: x in r <==> Some(x) in children && x !in visited
    ensures |r| <= |children|
  {
    if children == [] then []
    else
      var rest := Unvisited(children[..|children| - 1], visited);
      var last := children[|children| - 1];
      assert children == children[..|children| - 1] + [last];
      if last.Some? && last.value !in visited then rest + [last.value] else rest
  }

  /** Appending one more child appends it to the unvisited ones exactly
      when it is present and not expanded. */
  lemma UnvisitedGrows(children: seq<Option<Pos>>, j: nat, visited: seq<Pos>)
    requires j < |children|
    ensures Unvisited(children[..j + 1], visited) ==
      Unvisited(children[..j], visited) + (if children[j].Some? && children[j].value !in visited then [children[j].value] else [])
  {
    assert children[..j + 1][..j] == children[..j];
  }

  /** A child unvisited in a prefix stays unvisited in the whole list. */
  lemma UnvisitedPrefix(a: seq<Option<Pos>>, b: seq<Option<Pos>>, visited: seq<Pos>)
    ensures Unvisited(a, visited) != [] ==> Unvisited(a + b, visited) != []
  {
    if Unvisited(a, visited) != [] {
      var x := Unvisited(a, visited)[0];
      assert Some(x) in a;
      assert Some(x) in a + b;
      assert x in Unvisited(a + b, visited);
    }
  }

  /** Appending children never removes an unvisited one. */
  lemma {:induction false} UnvisitedPrefixLength(a: seq<Option<Pos>>, b: seq<Option<Pos>>, visited: seq<Pos>)
    ensures |Unvisited(a, visited)| <= |Unvisited(a + b, visited)|
    decreases |b|
  {
    if b == [] {
      assert a + b == a;
    } else {
      var c := b[..|b| - 1];
      UnvisitedPrefixLength(a, c, visited);
      assert (a + b)[..|a + b| - 1] == a + c;
    }
  }

  /** The first k children never have more unvisited ones than all of them. */
  lemma UnvisitedTakeLength(children: seq<Option<Pos>>, k: nat, visited: seq<Pos>)
    requires k <= |children|
    ensures |Unvisited(children[..k], visited)| <= |Unvisited(children, visited)|
  {
    assert children == children[..k] + children[k..];
    UnvisitedPrefixLength(children[..k], children[k..], visited);
  }

  /** Keys never decrease along the list. */
  ghost predicate Ascending(s: seq<Pos>, key: Pos -> real)
  {
    forall i, j :: 0 <= i < j < |s| ==> key(s[i]) <= key(s[j])
  }

  /** A priority queue `put`: x goes before the first element with a
      larger key. */
  function Insert(s: seq<Pos>, x: Pos, key: Pos -> real): (r: seq<Pos>)
    ensures |r| == |s| + 1
    ensures forall y :: y in r <==> y in s || y == x
  {
    if s == [] then [x]
    else if key(x) < key(s[0]) then [x] + s
    else
      assert s == [s[0]] + s[1..];
      [s[0]] + Insert(s[1..], x, key)
  }

  lemma {:induction false} InsertPermutes(s: seq<Pos>, x: Pos, key: Pos -> real)
    ensures multiset(Insert(s, x, key)) == multiset(s) + multiset{x}
    decreases |s|
  {
    if s != [] && key(s[0]) <= key(x) {
      InsertPermutes(s[1..], x, key);
      assert s == [s[0]] + s[1..];
    }
  }

  lemma {:induction false} InsertKeepsAscending(s: seq<Pos>, x: Pos, key: Pos -> real)
    requires Ascending(s, key)
    ensures Ascending(Insert(s, x, key), key)
    decreases |s|
  {
    if s != [] && key(s[0]) <= key(x) {
      var tail := s[1..];
      assert Ascending(tail, key);
      InsertKeepsAscending(tail, x, key);
      var t := Insert(tail, x, key);
      var r := [s[0]] + t;
      assert r == Insert(s, x, key);
      forall i, j | 0 <= i < j < |r| ensures key(r[i]) <= key(r[j]) {
        if i == 0 {
          assert r[j] == t[j - 1];
          assert r[j] in t;
          if r[j] != x {
            var k :| 0 <= k < |tail| && tail[k] == r[j];
            assert tail[k] == s[k + 1];
          }
        } else {
          assert r[i] == t[i - 1] && r[j] == t[j - 1];
        }
      }
    }
  }

  /** Putting the elements into a priority queue one by one, in order, and
      draining it. */
  function SortByKey(xs: seq<Pos>, key: Pos -> real): (r: seq<Pos>)
    ensures |r| == |xs|
  {
    if xs == [] then []
    else Insert(SortByKey(xs[..|xs| - 1], key), xs[|xs| - 1], key)
  }

  /** Putting one more element into the queue inserts it by key. */
  lemma SortByKeySnoc(xs: seq<Pos>, x: Pos, key: Pos -> real)
    ensures SortByKey(xs + [x], key) == Insert(SortByKey(xs, key), x, key)
  {
    assert (xs + [x])[..|xs|] == xs;
  }

  /** The drained queue holds exactly the elements put, keys ascending. */
  lemma {:induction false} SortByKeyAscends(xs: seq<Pos>, key: Pos -> real)
    ensures Ascending(SortByKey(xs, key), key)
    ensures multiset(SortByKey(xs, key)) == multiset(xs)
    decreases |xs|
  {
    if xs != [] {
      var init := xs[..|xs| - 1];
      SortByKeyAscends(init, key);
      InsertKeepsAscending(SortByKey(init, key), xs[|xs| - 1], key);
      InsertPermutes(SortByKey(init, key), xs[|xs| - 1], key);
      assert xs == init + [xs[|xs| - 1]];
    }
  }

  lemma AscendingStartsAtMinimum(s: seq<Pos>, key: Pos -> real, x: Pos)
    requires Ascending(s, key) && x in s
    ensures key(s[0]) <= key(x)
  {
    var k :| 0 <= k < |s| && s[k] == x;
    if k > 0 {
      assert key(s[0]) <= key(s[k]);
    }
  }

  lemma ReversedAscendingDescends(s: seq<Pos>, key: Pos -> real)
    requires Ascending(s, key)
    ensures forall i, j :: 0 <= i < j < |s| ==> key(Reverse(s)[i]) >= key(Reverse(s)[j])
  {
    var r := Reverse(s);
    forall i, j | 0 <= i < j < |r| ensures key(r[i]) >= key(r[j]) {
      assert r[i] == s[|s| - 1 - i] && r[j] == s[|s| - 1 - j];
    }
  }

  /** The fire-aware order: drain the queue (ascending keys) and reverse
      it. The result holds exactly the candidates, with keys descending, so
      the candidate with the lowest key sits at the end, where the stack
      pops first. */
  lemma FireOrderPopsLowestKeyNext(xs: seq<Pos>, key: Pos -> real)
    ensures var r := Reverse(SortByKey(xs, key));
      && multiset(r) == multiset(xs)
      && (forall x :: x in r <==> x in xs)
      && (forall i, j :: 0 <= i < j < |r| ==> key(r[i]) >= key(r[j]))
      && (forall x :: x in xs ==> key(r[|r| - 1]) <= key(x))
  {
    var s := SortByKey(xs, key);
    SortByKeyAscends(xs, key);
    ReverseMultiset(s);
    ReversedAscendingDescends(s, key);
    forall x | x in xs ensures key(Reverse(s)[|s| - 1]) <= key(x) {
      assert x in multiset(xs);
      assert x in s;
      AscendingStartsAtMinimum(s, key, x);
    }
    forall x ensures x in Reverse(s) <==> x in xs {
      assert x in Reverse(s) <==> x in multiset(Reverse(s));
      assert x in xs <==> x in multiset(xs);
    }
  }

  lemma {:induction false} ReverseMultiset(s: seq<Pos>)
    ensures multiset(Reverse(s)) == multiset(s)
    decreases |s|
  {
    if s != [] {
      ReverseMultiset(s[1..]);
      assert s == [s[0]] + s[1..];
    }
  }
}

/** The order in which classifyImpl (BayesNetworkClassifier.java) decides
    the nodes of a network: level by level from the roots, each level
    pruned to the nodes whose parents are all decided, the next level being
    the children of the pruned one. `Reach` is that order as a function,
    proved to put every node after its parents; the classifier's recursion
    is proved to prune each level as `Prune` says and to keep its decided
    set closed under parents, the same guarantee stated on its state.

    Classification never adds or removes an arc, so the order is stated
    over `Arcs`, a value recording the parents and the children of every
    node; `ArcsMatch` says that such a value agrees with the nodes'
    fields. */
module LevelOrder {
  import opened DirectedGraph
  import opened SortedNodes
  import opened Utils

  /** The arcs of a network as a value: the parents and the children of
      each node. A node outside the maps has neither. */
  datatype Arcs = Arcs(parentMap: map<Node, set<Node>>, childMap: map<Node, set<Node>>)
  {
    function ParentsOf(n: Node): set<Node> {
      if n in parentMap then parentMap[n] else {}
    }

    function ChildrenOf(n: Node): set<Node> {
      if n in childMap then childMap[n] else {}
    }
  }

  /** `g` records the arcs the nodes of `nodes` carry. */
  ghost predicate ArcsMatch(g: Arcs, nodes: set<Node>)
    reads nodes
  {
    && (forall n {:trigger n.parents} :: n in nodes ==> n.parents == g.ParentsOf(n))
    && (forall n {:trigger n.children} :: n in nodes ==> n.children == g.ChildrenOf(n))
  }

  /** The arcs of `nodes` as they are now. */
  ghost function ArcsOf(nodes: set<Node>): (g: Arcs)
    reads nodes
    ensures ArcsMatch(g, nodes)
  {
    Arcs(map n | n in nodes :: n.parents, map n | n in nodes :: n.children)
  }

  /** The shape of a network the classifier works on: closed under arcs,
      both ends of every arc agreeing, and one node per name. */
  ghost predicate Network(g: Arcs, nodes: set<Node>) {
    && (forall n {:trigger g.ParentsOf(n)} :: n in nodes ==> g.ParentsOf(n) <= nodes)
    && (forall n {:trigger g.ChildrenOf(n)} :: n in nodes ==> g.ChildrenOf(n) <= nodes)
    && (forall n, c {:trigger c in g.ChildrenOf(n)} ::
          n in nodes && c in nodes && c in g.ChildrenOf(n) ==> n in g.ParentsOf(c))
    && (forall n, c {:trigger n in g.ParentsOf(c)} ::
          n in nodes && c in nodes && n in g.ParentsOf(c) ==> c in g.ChildrenOf(n))
    && UniqueNames(nodes)
  }

  /** A closed, symmetric graph of nodes with unique names is a network in
      the arcs it carries. */
  lemma NetworkOfArcs(g: Arcs, nodes: set<Node>)
    requires ArcsMatch(g, nodes) && Closed(nodes) && Symmetric(nodes) && UniqueNames(nodes)
    ensures Network(g, nodes)
  {
  }

  /** The parents of every decided node are decided. */
  ghost predicate UpwardClosed(g: Arcs, visited: set<Node>) {
    forall v {:trigger g.ParentsOf(v)} :: v in visited ==> g.ParentsOf(v) <= visited
  }

  /** A level reached with `visited` decided: a TreeSet of undecided nodes
      of the network. */
  ghost predicate Level(g: Arcs, level: seq<Node>, visited: set<Node>, nodes: set<Node>) {
    && StrictlySorted(level)
    && Elements(level) <= nodes
    && visited <= nodes
    && Elements(level) !! visited
    && UpwardClosed(g, visited)
  }

  /** The pruning loop: keeps, in order, the nodes whose parents are all
      decided. */
  ghost function Prune(g: Arcs, level: seq<Node>, visited: set<Node>): (pruned: seq<Node>)
    ensures |pruned| <= |level|
    ensures Elements(pruned) == set n | n in level && g.ParentsOf(n) <= visited
  {
    if level == [] then []
    else
      var front := Prune(g, level[..|level| - 1], visited);
      var last := level[|level| - 1];
      assert level == level[..|level| - 1] + [last];
      if g.ParentsOf(last) <= visited then
        assert Elements(front + [last]) == Elements(front) + {last};
        front + [last]
      else front
  }

  /** The children of the nodes of a level: the contents of nextLevelSet. */
  ghost function Children(g: Arcs, level: seq<Node>): set<Node> {
    if level == [] then {}
    else Children(g, level[..|level| - 1]) + g.ChildrenOf(level[|level| - 1])
  }

  /** A child of a level is a child of one of its nodes. */
  lemma {:induction false} ChildrenMember(g: Arcs, level: seq<Node>, c: Node)
    ensures c in Children(g, level) <==> exists p :: p in level && c in g.ChildrenOf(p)
  {
    if level != [] {
      var front := level[..|level| - 1];
      ChildrenMember(g, front, c);
      assert level == front + [level[|level| - 1]];
    }
  }

  /** The nodes decided from `level` on, in the order classifyImpl decides
      them. */
  ghost function Reach(g: Arcs, level: seq<Node>, visited: set<Node>, nodes: set<Node>): seq<Node>
    requires Network(g, nodes) && Level(g, level, visited, nodes)
    decreases |nodes - visited|, |level|
  {
    if level == [] then []
    else
      var pruned := Prune(g, level, visited);
      PrunedLevel(g, level, visited, nodes);
      NextLevel(g, pruned, visited, nodes);
      assert pruned != [] ==> |nodes - (visited + Elements(pruned))| < |nodes - visited| by {
        if pruned != [] {
          MoreDecided(pruned, visited, nodes);
        }
      }
      pruned + Reach(g, SortedByName(Children(g, pruned)), visited + Elements(pruned), nodes)
  }

  // ---------------------------------------------------------------------
  // Properties of one step
  // ---------------------------------------------------------------------

  /** Pruning keeps a level a level, and pruning twice is pruning once. */
  lemma PrunedLevel(g: Arcs, level: seq<Node>, visited: set<Node>, nodes: set<Node>)
    requires Level(g, level, visited, nodes)
    ensures Level(g, Prune(g, level, visited), visited, nodes)
    ensures Prune(g, Prune(g, level, visited), visited) == Prune(g, level, visited)
  {
    PruneSorted(g, level, visited);
    PruneTwice(g, level, visited);
  }

  /** Pruning keeps a sorted level sorted. */
  lemma {:induction false} PruneSorted(g: Arcs, level: seq<Node>, visited: set<Node>)
    requires StrictlySorted(level)
    ensures StrictlySorted(Prune(g, level, visited))
  {
    if level != [] {
      var front := level[..|level| - 1];
      var last := level[|level| - 1];
      assert StrictlySorted(front);
      PruneSorted(g, front, visited);
      var p := Prune(g, front, visited);
      if g.ParentsOf(last) <= visited {
        forall i | 0 <= i < |p|
          ensures NameLess(p[i].name, last.name)
        {
          assert p[i] in Elements(p);
          var j :| 0 <= j < |front| && front[j] == p[i];
          assert level[j] == p[i];
        }
        SortedSnoc(p, last);
      }
    }
  }

  lemma SortedSnoc(s: seq<Node>, x: Node)
    requires StrictlySorted(s) && forall i :: 0 <= i < |s| ==> NameLess(s[i].name, x.name)
    ensures StrictlySorted(s + [x])
  {
  }

  /** Every node a pruned level keeps survives a second pruning. */
  lemma {:induction false} PruneTwice(g: Arcs, level: seq<Node>, visited: set<Node>)
    ensures Prune(g, Prune(g, level, visited), visited) == Prune(g, level, visited)
  {
    if level != [] {
      var front := level[..|level| - 1];
      var last := level[|level| - 1];
      PruneTwice(g, front, visited);
      var p := Prune(g, front, visited);
      if g.ParentsOf(last) <= visited {
        assert Prune(g, p + [last], visited) == Prune(g, p, visited) + [last] by {
          assert (p + [last])[..|p|] == p;
        }
      }
    }
  }

  /** The next level is a level: the children of a pruned level are neither
      decided nor in the level itself, since each of them has a parent in
      the level. A level that prunes to nothing has no next level. */
  lemma NextLevel(g: Arcs, pruned: seq<Node>, visited: set<Node>, nodes: set<Node>)
    requires Network(g, nodes) && Level(g, pruned, visited, nodes)
    requires forall n :: n in pruned ==> g.ParentsOf(n) <= visited
    ensures UniqueNames(Children(g, pruned))
    ensures Level(g, SortedByName(Children(g, pruned)), visited + Elements(pruned), nodes)
    ensures pruned == [] ==> Children(g, pruned) == {}
  {
    ChildrenUndecided(g, pruned, visited, nodes);
    var next := Children(g, pruned);
    assert UniqueNames(next);
    var sorted := SortedByName(next);
    assert UpwardClosed(g, visited + Elements(pruned));
    assert Level(g, sorted, visited + Elements(pruned), nodes);
  }

  lemma ChildrenUndecided(g: Arcs, pruned: seq<Node>, visited: set<Node>, nodes: set<Node>)
    requires Network(g, nodes) && Level(g, pruned, visited, nodes)
    requires forall n :: n in pruned ==> g.ParentsOf(n) <= visited
    ensures Children(g, pruned) <= nodes && Children(g, pruned) !! visited + Elements(pruned)
  {
    forall c | c in Children(g, pruned)
      ensures c in nodes && c !in visited + Elements(pruned)
    {
      ChildrenMember(g, pruned, c);
      var p :| p in pruned && c in g.ChildrenOf(p);
      assert p in g.ParentsOf(c);
    }
  }

  /** A non-empty level decides at least one more node. */
  lemma MoreDecided(pruned: seq<Node>, visited: set<Node>, nodes: set<Node>)
    requires Elements(pruned) <= nodes && Elements(pruned) !! visited && pruned != []
    ensures |nodes - (visited + Elements(pruned))| < |nodes - visited|
  {
    assert pruned[0] in (nodes - visited) - (nodes - (visited + Elements(pruned)));
    StrictSubsetCardinality(nodes - (visited + Elements(pruned)), nodes - visited);
  }

  /** Pruning a level first does not change what is reached from it. */
  lemma ReachOfPruned(g: Arcs, level: seq<Node>, visited: set<Node>, nodes: set<Node>)
    requires Network(g, nodes) && Level(g, level, visited, nodes)
    ensures Level(g, Prune(g, level, visited), visited, nodes)
    ensures Reach(g, Prune(g, level, visited), visited, nodes) == Reach(g, level, visited, nodes)
  {
    PrunedLevel(g, level, visited, nodes);
    var pruned := Prune(g, level, visited);
    if pruned == [] && level != [] {
      NextLevel(g, pruned, visited, nodes);
      assert SortedByName(Children(g, pruned)) == [];
    }
  }

  // ---------------------------------------------------------------------
  // Properties of the whole order
  // ---------------------------------------------------------------------

  /** Each node of `order` has its parents decided before it: among
      `visited` or earlier in `order`. */
  ghost predicate Topological(g: Arcs, order: seq<Node>, visited: set<Node>) {
    forall i :: 0 <= i < |order| ==> g.ParentsOf(order[i]) <= visited + Elements(order[..i])
  }

  /** Every parent is decided before its child, no node is reached twice,
      and no decided node is reached again. */
  lemma {:induction false} ReachIsTopological(g: Arcs, level: seq<Node>, visited: set<Node>, nodes: set<Node>)
    requires Network(g, nodes) && Level(g, level, visited, nodes)
    ensures var r := Reach(g, level, visited, nodes);
      Distinct(r) && Elements(r) <= nodes - visited && Topological(g, r, visited)
    decreases |nodes - visited|, |level|
  {
    if level != [] {
      var pruned, next := ReachStep(g, level, visited, nodes);
      if pruned != [] {
        var visited' := visited + Elements(pruned);
        ReachIsTopological(g, next, visited', nodes);
        OrderConcat(g, pruned, Reach(g, next, visited', nodes), visited, nodes);
      }
    }
  }

  /** One unfolding of Reach, with the facts about its step. */
  lemma ReachStep(g: Arcs, level: seq<Node>, visited: set<Node>, nodes: set<Node>) returns (pruned: seq<Node>, next: seq<Node>)
    requires Network(g, nodes) && Level(g, level, visited, nodes) && level != []
    ensures pruned == Prune(g, level, visited)
    ensures Level(g, pruned, visited, nodes) && forall n :: n in pruned ==> g.ParentsOf(n) <= visited
    ensures UniqueNames(Children(g, pruned)) && next == SortedByName(Children(g, pruned))
    ensures Level(g, next, visited + Elements(pruned), nodes)
    ensures Reach(g, level, visited, nodes) == pruned + Reach(g, next, visited + Elements(pruned), nodes)
    ensures pruned == [] ==> Reach(g, level, visited, nodes) == []
    ensures pruned != [] ==> |nodes - (visited + Elements(pruned))| < |nodes - visited|
  {
    pruned := Prune(g, level, visited);
    PrunedLevel(g, level, visited, nodes);
    NextLevel(g, pruned, visited, nodes);
    next := SortedByName(Children(g, pruned));
    if pruned != [] {
      MoreDecided(pruned, visited, nodes);
    }
  }

  lemma OrderConcat(g: Arcs, pruned: seq<Node>, rest: seq<Node>, visited: set<Node>, nodes: set<Node>)
    requires Level(g, pruned, visited, nodes) && forall n :: n in pruned ==> g.ParentsOf(n) <= visited
    requires Distinct(rest) && Elements(rest) <= nodes - (visited + Elements(pruned))
    requires Topological(g, rest, visited + Elements(pruned))
    ensures Distinct(pruned + rest) && Elements(pruned + rest) <= nodes - visited
    ensures Topological(g, pruned + rest, visited)
  {
    forall i, j | 0 <= i < j < |pruned|
      ensures pruned[i] != pruned[j]
    {
      SortedDistinct(pruned, i, j);
    }
    DistinctConcat(pruned, rest);
    TopologicalConcat(g, pruned, rest, visited);
  }

  lemma DistinctConcat(a: seq<Node>, b: seq<Node>)
    requires Distinct(a) && Distinct(b) && Elements(a) !! Elements(b)
    ensures Distinct(a + b) && Elements(a + b) == Elements(a) + Elements(b)
  {
    forall i, j | 0 <= i < j < |a + b|
      ensures (a + b)[i] != (a + b)[j]
    {
      if i < |a| <= j {
        assert (a + b)[i] in Elements(a) && (a + b)[j] in Elements(b);
      }
    }
  }

  lemma TopologicalConcat(g: Arcs, a: seq<Node>, b: seq<Node>, visited: set<Node>)
    requires forall n :: n in a ==> g.ParentsOf(n) <= visited
    requires Topological(g, b, visited + Elements(a))
    ensures Topological(g, a + b, visited)
  {
    var r := a + b;
    forall i | 0 <= i < |r|
      ensures g.ParentsOf(r[i]) <= visited + Elements(r[..i])
    {
      if i >= |a| {
        assert r[..i] == a + b[..i - |a|];
        assert r[i] == b[i - |a|];
      } else {
        assert r[i] in a;
      }
    }
  }
}

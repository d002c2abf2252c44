/** Graph checks and input validation (Utils.java): the weakly connected
    component of a node, directed-cycle detection by three-colour
    depth-first search, identifier syntax and the probability range check.

    A Java program can always walk the heap it allocated; here the walk is
    bounded by a ghost set `nodes` of all nodes that can be met, closed
    under arcs. */
module Utils {
  import opened Wrappers
  import opened DirectedGraph
  import opened Probability

  // ---------------------------------------------------------------------
  // Sets and sequences
  // ---------------------------------------------------------------------

  predicate Distinct<T(==)>(s: seq<T>) {
    forall i, j :: 0 <= i < j < |s| ==> s[i] != s[j]
  }

  lemma {:induction false} SubsetCardinality<T>(a: set<T>, b: set<T>)
    requires a <= b
    ensures |a| <= |b|
    decreases |b|
  {
    if a != {} {
      var x :| x in a;
      SubsetCardinality(a - {x}, b - {x});
    }
  }

  lemma StrictSubsetCardinality<T>(a: set<T>, b: set<T>)
    requires a < b
    ensures |a| < |b|
  {
    assert b - a != {};
    var x :| x in b - a;
    SubsetCardinality(a, b - {x});
  }

  lemma {:induction false} DistinctCardinality<T>(s: seq<T>)
    requires Distinct(s)
    ensures |set x | x in s| == |s|
    decreases |s|
  {
    if s != [] {
      var t := s[..|s| - 1];
      DistinctCardinality(t);
      assert (set x | x in s) == (set x | x in t) + {s[|s| - 1]};
    }
  }

  /** new ArrayList<>(set): the elements of a hash set, each once, in an
      order this model leaves open. */
  method ListOf<T(==)>(s: set<T>) returns (r: seq<T>)
    ensures Distinct(r)
    ensures forall x :: x in r <==> x in s
    ensures |r| == |s|
  {
    r := [];
    var rest := s;
    while rest != {}
      invariant Distinct(r)
      invariant rest !! set x | x in r
      invariant forall x :: x in s <==> x in rest || x in r
      decreases rest
    {
      var x :| x in rest;
      r := r + [x];
      rest := rest - {x};
    }
    DistinctCardinality(r);
    assert (set x | x in r) == s;
  }

  // ---------------------------------------------------------------------
  // Undirected reachability: findEntireGraph
  // ---------------------------------------------------------------------

  /** a and b are joined by an arc in one direction or the other. */
  ghost predicate Linked(a: Node, b: Node)
    reads a
  {
    b in a.children || b in a.parents
  }

  /** p is a walk through `nodes` along arcs taken as undirected. */
  ghost predicate IsWalk(older p: seq<Node>, nodes: set<Node>)
    reads nodes
  {
    && |p| > 0
    && (forall i :: 0 <= i < |p| ==> p[i] in nodes)
    && (forall i :: 0 <= i < |p| - 1 ==> Linked(p[i], p[i + 1]))
  }

  /** A set that contains the start of a walk and every neighbour of its
      members contains the whole walk. */
  lemma {:induction false} WalkStaysInside(p: seq<Node>, nodes: set<Node>, inside: set<Node>, k: nat)
    requires IsWalk(p, nodes) && p[0] in inside && k < |p|
    requires forall a, b :: a in inside && Linked(a, b) ==> b in inside
    ensures p[k] in inside
  {
    if k > 0 {
      WalkStaysInside(p, nodes, inside, k - 1);
    }
  }

  /** w is a walk from `start` to n. */
  ghost predicate WalkFrom(start: Node, older w: seq<Node>, n: Node, nodes: set<Node>)
    reads nodes
  {
    IsWalk(w, nodes) && w[0] == start && w[|w| - 1] == n
  }

  /** Every node of `visited` has a recorded walk from `start` to it. */
  ghost predicate WalksTo(walks: map<Node, seq<Node>>, visited: set<Node>, start: Node, nodes: set<Node>)
    reads nodes
  {
    forall v :: v in visited ==> v in walks && WalkFrom(start, walks[v], v, nodes)
  }

  /** Every visited node that has left the queue has all its neighbours
      visited. */
  ghost predicate ExpandedOutside(visited: set<Node>, queue: seq<Node>)
    reads visited
  {
    forall a :: a in visited && a !in queue ==> a.children <= visited && a.parents <= visited
  }

  /** Expanding the head of the queue keeps every node that has left the
      queue fully expanded. */
  lemma ExpansionStep(current: Node, before: set<Node>, full: seq<Node>, visited: set<Node>, queue: seq<Node>)
    requires full != [] && current == full[0] && ExpandedOutside(before, full)
    requires before <= visited && current.children <= visited && current.parents <= visited
    requires forall x :: x in full[1..] ==> x in queue
    requires forall x :: x in visited && x !in before ==> x in queue
    ensures ExpandedOutside(visited, queue)
  {
    forall a | a in visited && a !in queue
      ensures a.children <= visited && a.parents <= visited
    {
      if a != current {
        assert full == [current] + full[1..];
        assert a in before && a !in full;
      }
    }
  }

  /** One stream of findEntireGraph: each neighbour of `current` among
      `candidates` that is not yet visited is marked visited and appended
      to the queue. */
  method EnqueueUnvisited(current: Node, candidates: set<Node>, visited: set<Node>, queue: seq<Node>,
                          ghost walks: map<Node, seq<Node>>, ghost start: Node, ghost nodes: set<Node>)
    returns (visited': set<Node>, queue': seq<Node>, ghost walks': map<Node, seq<Node>>)
    requires candidates <= nodes && current in visited
    requires forall c :: c in candidates ==> Linked(current, c)
    requires WalksTo(walks, visited, start, nodes)
    requires Distinct(queue) && forall x :: x in queue ==> x in visited
    ensures visited' == visited + candidates
    ensures Distinct(queue') && forall x :: x in queue' <==> x in queue || x in candidates - visited
    ensures visited' == visited ==> queue' == queue
    ensures WalksTo(walks', visited', start, nodes)
  {
    visited', queue', walks' := visited, queue, walks;
    var rest := candidates;
    while rest != {}
      invariant rest <= candidates
      invariant visited' == visited + (candidates - rest)
      invariant Distinct(queue') && forall x :: x in queue' <==> x in queue || x in (candidates - rest) - visited
      invariant visited' == visited ==> queue' == queue
      invariant WalksTo(walks', visited', start, nodes)
      decreases rest
    {
      var c :| c in rest;
      rest := rest - {c};
      if c !in visited' {
        visited' := visited' + {c};
        queue' := queue' + [c];
        walks' := walks'[c := walks'[current] + [c]];
      }
    }
  }

  /** The body of the search loop: the children of `current`, then its
      parents, go through EnqueueUnvisited. */
  method VisitNeighbours(current: Node, visited: set<Node>, queue: seq<Node>,
                         ghost walks: map<Node, seq<Node>>, ghost start: Node, ghost nodes: set<Node>)
    returns (visited': set<Node>, queue': seq<Node>, ghost walks': map<Node, seq<Node>>)
    requires Closed(nodes) && current in visited && visited <= nodes
    requires WalksTo(walks, visited, start, nodes)
    requires Distinct(queue) && forall x :: x in queue ==> x in visited
    ensures visited <= visited' <= nodes
    ensures current.children <= visited' && current.parents <= visited'
    ensures Distinct(queue') && forall x :: x in queue' ==> x in visited'
    ensures forall x :: x in queue ==> x in queue'
    ensures forall x :: x in visited' && x !in visited ==> x in queue'
    ensures visited' == visited ==> queue' == queue
    ensures WalksTo(walks', visited', start, nodes)
  {
    visited', queue', walks' := EnqueueUnvisited(current, current.children, visited, queue, walks, start, nodes);
    visited', queue', walks' := EnqueueUnvisited(current, current.parents, visited', queue', walks', start, nodes);
  }

  /** Visiting a node that was not visited shrinks the set of nodes left. */
  lemma SearchProgress(nodes: set<Node>, before: set<Node>, visited: set<Node>)
    requires before <= visited <= nodes
    ensures visited == before || |nodes - visited| < |nodes - before|
  {
    if visited != before {
      StrictSubsetCardinality(nodes - visited, nodes - before);
    }
  }

  /** findEntireGraph: breadth-first search from `start` following children
      and parents. The result lists every node connected to `start` once,
      and it is closed under both kinds of arc. */
  method FindEntireGraph(start: Node, ghost nodes: set<Node>) returns (r: seq<Node>, ghost walks: map<Node, seq<Node>>)
    requires start in nodes && Closed(nodes)
    ensures start in r
    ensures Distinct(r)
    ensures forall a, b :: a in r && Linked(a, b) ==> b in r
    ensures forall n :: n in r ==> n in walks && WalkFrom(start, walks[n], n, nodes)
    ensures forall p :: IsWalk(p, nodes) && p[0] == start ==> p[|p| - 1] in r
  {
    var queue: seq<Node> := [start];
    var visited: set<Node> := {start};
    walks := map[start := [start]];
    while queue != []
      invariant start in visited && visited <= nodes
      invariant Distinct(queue) && forall x :: x in queue ==> x in visited
      invariant ExpandedOutside(visited, queue)
      invariant WalksTo(walks, visited, start, nodes)
      decreases |nodes - visited|, |queue|
    {
      ghost var before, full := visited, queue;
      var current := queue[0];
      queue := queue[1..];
      visited, queue, walks := VisitNeighbours(current, visited, queue, walks, start, nodes);
      ExpansionStep(current, before, full, visited, queue);
      SearchProgress(nodes, before, visited);
      assert visited == before ==> |queue| < |full|;
    }
    r := ListOf(visited);
    SearchFindsComponent(start, nodes, visited, walks);
  }

  /** When the queue is empty, the visited set is exactly the set of nodes
      joined to `start` by a walk. */
  lemma SearchFindsComponent(start: Node, nodes: set<Node>, visited: set<Node>, walks: map<Node, seq<Node>>)
    requires start in visited && visited <= nodes
    requires ExpandedOutside(visited, [])
    requires WalksTo(walks, visited, start, nodes)
    ensures forall a, b :: a in visited && Linked(a, b) ==> b in visited
    ensures forall p :: IsWalk(p, nodes) && p[0] == start ==> p[|p| - 1] in visited
  {
    forall p | IsWalk(p, nodes) && p[0] == start
      ensures p[|p| - 1] in visited
    {
      WalkStaysInside(p, nodes, visited, |p| - 1);
    }
  }

  // ---------------------------------------------------------------------
  // Directed cycles: graphIsAcyclic and dfs
  // ---------------------------------------------------------------------

  /** p follows arcs from tail to head, inside `nodes`. */
  ghost predicate IsDirectedPath(older p: seq<Node>, nodes: set<Node>)
    reads nodes
  {
    && |p| > 0
    && (forall i :: 0 <= i < |p| ==> p[i] in nodes)
    && (forall i :: 0 <= i < |p| - 1 ==> p[i + 1] in p[i].children)
  }

  /** p is a directed cycle: a path of at least one arc back to its start. */
  ghost predicate IsCycle(older p: seq<Node>, nodes: set<Node>)
    reads nodes
  {
    IsDirectedPath(p, nodes) && |p| > 1 && p[0] == p[|p| - 1]
  }

  datatype Color = White | Gray | Black

  function Whites(color: map<Node, Color>): set<Node> {
    set n | n in color && color[n] == White
  }

  /** The gray nodes are exactly those of `path`. */
  ghost predicate GrayExactly(color: map<Node, Color>, path: seq<Node>, nodes: set<Node>) {
    color.Keys == nodes && forall n :: n in nodes ==> (color[n] == Gray <==> n in path)
  }

  /** The ghost ranking behind the proof: every ranked node has been reached
      and has a rank below `next`; every black node is ranked, and so are
      its children, with smaller ranks. */
  ghost predicate RankedBlacks(color: map<Node, Color>, rank: map<Node, nat>, next: nat, nodes: set<Node>)
    reads nodes
  {
    && color.Keys == nodes
    && (forall n :: n in rank ==> n in nodes && color[n] != White && rank[n] < next)
    && (forall n :: n in nodes && color[n] == Black ==>
          n in rank && forall c :: c in n.children ==> c in rank && rank[c] < rank[n])
  }

  /** What a search may do to the colours and the ranking: no node turns
      white again, black nodes stay black, ranks once given never change,
      and only nodes that are black now receive new ranks. */
  ghost predicate Progressed(color: map<Node, Color>, rank: map<Node, nat>,
                             color': map<Node, Color>, rank': map<Node, nat>, nodes: set<Node>)
  {
    && color.Keys == nodes && color'.Keys == nodes && rank'.Keys <= nodes
    && Whites(color') <= Whites(color)
    && (forall n :: n in nodes && color[n] == Black ==> color'[n] == Black)
    && (forall n :: n in rank ==> n in rank' && rank'[n] == rank[n])
    && (forall n :: n in rank' && n !in rank ==> color'[n] == Black)
  }

  lemma ProgressedTransitive(c0: map<Node, Color>, r0: map<Node, nat>, c1: map<Node, Color>, r1: map<Node, nat>,
                             c2: map<Node, Color>, r2: map<Node, nat>, nodes: set<Node>)
    requires Progressed(c0, r0, c1, r1, nodes) && Progressed(c1, r1, c2, r2, nodes)
    ensures Progressed(c0, r0, c2, r2, nodes)
  {
  }

  /** A gray child closes a cycle with the gray path that leads to it. */
  lemma CycleThroughPath(q: seq<Node>, child: Node, nodes: set<Node>)
    requires IsDirectedPath(q, nodes) && child in q && child in q[|q| - 1].children
    ensures exists p :: IsCycle(p, nodes)
  {
    var j :| 0 <= j < |q| && q[j] == child;
    var p := q[j..] + [child];
    assert IsCycle(p, nodes);
  }

  /** dfs: marks `node` gray, searches each white child and reports a cycle
      as soon as a child is gray; otherwise marks `node` black. The colour
      map is passed in and returned. The ghost `path` is the chain of gray
      nodes whose searches are in progress, `rank` and `next` the ranking
      that shows there is no cycle among black nodes. */
  method Dfs(node: Node, color: map<Node, Color>, ghost nodes: set<Node>, ghost path: seq<Node>,
             ghost rank: map<Node, nat>, ghost next: nat)
    returns (cycle: bool, color': map<Node, Color>, ghost rank': map<Node, nat>, ghost next': nat)
    requires Closed(nodes) && node in nodes
    requires GrayExactly(color, path, nodes) && color[node] != Gray
    requires IsDirectedPath(path + [node], nodes)
    requires RankedBlacks(color, rank, next, nodes)
    ensures cycle ==> exists p :: IsCycle(p, nodes)
    ensures !cycle ==>
      && GrayExactly(color', path, nodes) && color'[node] == Black
      && Progressed(color, rank, color', rank', nodes)
      && RankedBlacks(color', rank', next', nodes)
    decreases |Whites(color)|, 1
  {
    color' := color[node := Gray];
    rank', next' := rank, next;
    var rest := node.children;
    ghost var explored: set<Node> := {};
    while rest != {}
      invariant rest <= node.children
      invariant forall c :: c in node.children ==> c in rest || c in explored
      invariant Searching(node, color, path, rank, color', rank', next', nodes)
      invariant explored <= rank'.Keys
      decreases rest
    {
      var child :| child in rest;
      rest := rest - {child};
      explored := explored + {child};
      var found;
      found, color', rank', next' := SearchChild(node, child, color, nodes, path, rank, color', rank', next');
      if found {
        return true, color', rank', next';
      }
    }
    FinishNode(node, color, rank, next, color', rank', next', nodes, path);
    color' := color'[node := Black];
    if color[node] == White {
      rank' := rank'[node := next'];
      next' := next' + 1;
    }
    cycle := false;
  }

  /** The state of dfs(node) between two children: `node` and the path to
      it are gray, the search has only progressed since `node` was grayed,
      and `node` itself is ranked only if it was black already, in which
      case its children were ranked too. */
  ghost predicate Searching(node: Node, color0: map<Node, Color>, path: seq<Node>, rank0: map<Node, nat>,
                            color: map<Node, Color>, rank: map<Node, nat>, next: nat, nodes: set<Node>)
    reads nodes
  {
    && node in nodes && node in color0 && color0[node] != Gray
    && (color0[node] == Black ==> node.children <= rank0.Keys)
    && GrayExactly(color, path + [node], nodes)
    && Progressed(color0[node := Gray], rank0, color, rank, nodes)
    && RankedBlacks(color, rank, next, nodes)
    && (color0[node] == White ==> node !in rank)
  }

  /** One round of the loop of dfs: a white child is searched, a gray one
      closes a cycle; without a cycle the child ends up ranked. */
  method SearchChild(node: Node, child: Node, ghost color0: map<Node, Color>, ghost nodes: set<Node>, ghost path: seq<Node>,
                     ghost rank0: map<Node, nat>, color: map<Node, Color>, ghost rank: map<Node, nat>, ghost next: nat)
    returns (cycle: bool, color': map<Node, Color>, ghost rank': map<Node, nat>, ghost next': nat)
    requires Closed(nodes) && node in nodes && child in node.children
    requires IsDirectedPath(path + [node], nodes)
    requires Searching(node, color0, path, rank0, color, rank, next, nodes)
    ensures cycle ==> exists p :: IsCycle(p, nodes)
    ensures !cycle ==> Searching(node, color0, path, rank0, color', rank', next', nodes)
    ensures !cycle ==> rank.Keys + {child} <= rank'.Keys
    decreases |Whites(color0)|, 0
  {
    color', rank', next' := color, rank, next;
    if color[child] == White {
      if color0[node] == White {
        WhitesShrink(color0, node, color);
      }
      PathExtends(path + [node], child, nodes);
      var found;
      found, color', rank', next' := Dfs(child, color, nodes, path + [node], rank, next);
      if found {
        return true, color', rank', next';
      }
      ChildSearched(node, color0, rank0, color, rank, color', rank', nodes, path, child);
    }
    if color'[child] == Gray {
      CycleThroughPath(path + [node], child, nodes);
      return true, color', rank', next';
    }
    cycle := false;
  }

  /** Graying a white node leaves fewer white nodes. */
  lemma WhitesShrink(color: map<Node, Color>, node: Node, color': map<Node, Color>)
    requires node in color && color[node] == White
    requires Whites(color') <= Whites(color[node := Gray])
    ensures |Whites(color')| < |Whites(color)|
  {
    assert Whites(color[node := Gray]) == Whites(color) - {node};
    StrictSubsetCardinality(Whites(color'), Whites(color));
  }

  lemma PathExtends(q: seq<Node>, c: Node, nodes: set<Node>)
    requires IsDirectedPath(q, nodes) && c in nodes && c in q[|q| - 1].children
    ensures IsDirectedPath(q + [c], nodes)
  {
  }

  /** After a child's search returns without a cycle, the loop invariant of
      the parent's search holds again, with the child ranked. */
  lemma ChildSearched(node: Node, color: map<Node, Color>, rank: map<Node, nat>,
                      color1: map<Node, Color>, rank1: map<Node, nat>,
                      color2: map<Node, Color>, rank2: map<Node, nat>,
                      nodes: set<Node>, path: seq<Node>, child: Node)
    requires node in nodes && GrayExactly(color2, path + [node], nodes)
    requires Progressed(color[node := Gray], rank, color1, rank1, nodes)
    requires Progressed(color1, rank1, color2, rank2, nodes)
    requires child in nodes && color2[child] == Black && child in rank2
    ensures Progressed(color[node := Gray], rank, color2, rank2, nodes)
    ensures node !in rank1 ==> node !in rank2
    ensures rank1.Keys + {child} <= rank2.Keys
  {
    ProgressedTransitive(color[node := Gray], rank, color1, rank1, color2, rank2, nodes);
  }

  /** Marking a fully searched node black (and ranking it above everything
      ranked so far, when it was white) keeps the ranking sound. */
  lemma FinishNode(node: Node, color: map<Node, Color>, rank: map<Node, nat>, next: nat,
                   color1: map<Node, Color>, rank1: map<Node, nat>, next1: nat,
                   nodes: set<Node>, path: seq<Node>)
    requires node in nodes
    requires GrayExactly(color, path, nodes) && GrayExactly(color1, path + [node], nodes)
    requires color[node] != Gray
    requires RankedBlacks(color, rank, next, nodes)
    requires Progressed(color[node := Gray], rank, color1, rank1, nodes)
    requires RankedBlacks(color1, rank1, next1, nodes)
    requires color[node] == White ==> node !in rank1
    requires node.children <= rank1.Keys
    ensures GrayExactly(color1[node := Black], path, nodes)
    ensures color[node] == White ==>
      && Progressed(color, rank, color1[node := Black], rank1[node := next1], nodes)
      && RankedBlacks(color1[node := Black], rank1[node := next1], next1 + 1, nodes)
    ensures color[node] == Black ==>
      && Progressed(color, rank, color1[node := Black], rank1, nodes)
      && RankedBlacks(color1[node := Black], rank1, next1, nodes)
  {
    FinishGray(node, color1, color1[node := Black], nodes, path);
    if color[node] == White {
      FinishProgressed(node, color, rank, color1, rank1, color1[node := Black], rank1[node := next1], next1, nodes);
      FinishRanked(node, color1, rank1, color1[node := Black], rank1[node := next1], next1, nodes);
    } else {
      FinishProgressed(node, color, rank, color1, rank1, color1[node := Black], rank1, next1, nodes);
      assert forall c :: c in node.children ==> c in rank1 && rank1[c] < rank1[node];
    }
  }

  lemma FinishGray(node: Node, color1: map<Node, Color>, color2: map<Node, Color>, nodes: set<Node>, path: seq<Node>)
    requires node in nodes && node !in path
    requires GrayExactly(color1, path + [node], nodes)
    requires color2 == color1[node := Black]
    ensures GrayExactly(color2, path, nodes)
  {
  }

  lemma FinishProgressed(node: Node, color: map<Node, Color>, rank: map<Node, nat>,
                         color1: map<Node, Color>, rank1: map<Node, nat>,
                         color2: map<Node, Color>, rank2: map<Node, nat>, next: nat, nodes: set<Node>)
    requires node in nodes && color.Keys == nodes
    requires Progressed(color[node := Gray], rank, color1, rank1, nodes)
    requires color[node] == White ==> node !in rank1
    requires color2 == color1[node := Black]
    requires rank2 == if color[node] == White then rank1[node := next] else rank1
    ensures Progressed(color, rank, color2, rank2, nodes)
  {
    assert Whites(color[node := Gray]) <= Whites(color);
    assert Whites(color2) <= Whites(color1);
  }

  lemma FinishRanked(node: Node, color1: map<Node, Color>, rank1: map<Node, nat>,
                     color2: map<Node, Color>, rank2: map<Node, nat>, next: nat, nodes: set<Node>)
    requires node in nodes && node !in rank1
    requires RankedBlacks(color1, rank1, next, nodes)
    requires node.children <= rank1.Keys
    requires color2 == color1[node := Black]
    requires rank2 == rank1[node := next]
    ensures RankedBlacks(color2, rank2, next + 1, nodes)
  {
  }

  /** A cycle inside a smaller set of nodes is a cycle inside a bigger one. */
  lemma CycleInLarger(p: seq<Node>, small: set<Node>, nodes: set<Node>)
    requires IsCycle(p, small) && small <= nodes
    ensures IsCycle(p, nodes)
  {
  }

  /** Along a directed path that starts in a fully black, soundly ranked
      set of nodes, ranks strictly decrease. */
  lemma {:induction false} RankDecreasesAlongPath(p: seq<Node>, nodes: set<Node>, component: set<Node>,
                                                  color: map<Node, Color>, rank: map<Node, nat>, next: nat, k: nat)
    requires IsDirectedPath(p, nodes) && p[0] in component && 0 < k < |p|
    requires RankedBlacks(color, rank, next, component)
    requires forall n :: n in component ==> color[n] == Black
    ensures p[k] in component && p[k] in rank && rank[p[k]] < rank[p[0]]
  {
    assert p[k] in p[k - 1].children;
    if k > 1 {
      RankDecreasesAlongPath(p, nodes, component, color, rank, next, k - 1);
    }
  }

  /** A search keeps the nodes searched before it black. */
  lemma BlacksStayBlack(color: map<Node, Color>, rank: map<Node, nat>,
                        color': map<Node, Color>, rank': map<Node, nat>, nodes: set<Node>, nodeList: seq<Node>, i: nat)
    requires Progressed(color, rank, color', rank', nodes)
    requires i < |nodeList| && forall j :: 0 <= j < |nodeList| ==> nodeList[j] in nodes
    requires forall j :: 0 <= j < i ==> color[nodeList[j]] == Black
    requires color'[nodeList[i]] == Black
    ensures forall j :: 0 <= j < i + 1 ==> color'[nodeList[j]] == Black
  {
  }

  /** The component found by a search is closed under arcs. */
  lemma ComponentClosed(r: seq<Node>, component: set<Node>)
    requires forall a, b :: a in r && Linked(a, b) ==> b in r
    requires forall n :: n in component <==> n in r
    ensures Closed(component)
  {
    forall n | n in component
      ensures n.children <= component && n.parents <= component
    {
      assert forall b :: b in n.children || b in n.parents ==> Linked(n, b);
    }
  }

  /** A cycle found inside the component of `start` is a cycle that can be
      reached from `start`. */
  lemma ReachableCycle(p: seq<Node>, start: Node, component: set<Node>, nodes: set<Node>,
                       walks: map<Node, seq<Node>>)
    requires IsCycle(p, component) && component <= nodes
    requires forall n :: n in component ==> n in walks && WalkFrom(start, walks[n], n, nodes)
    ensures exists p, w :: IsCycle(p, nodes) && IsWalk(w, nodes) && w[0] == start && w[|w| - 1] == p[0]
  {
    CycleInLarger(p, component, nodes);
    var w := walks[p[0]];
    assert IsWalk(w, nodes) && w[0] == start && w[|w| - 1] == p[0];
  }

  /** When every node of the component is black and soundly ranked, no
      cycle can be reached from `start`. */
  lemma NoReachableCycle(start: Node, component: set<Node>, nodes: set<Node>,
                         color: map<Node, Color>, rank: map<Node, nat>, next: nat)
    requires forall w :: IsWalk(w, nodes) && w[0] == start ==> w[|w| - 1] in component
    requires RankedBlacks(color, rank, next, component)
    requires forall n :: n in component ==> color[n] == Black
    ensures !exists p, w :: IsCycle(p, nodes) && IsWalk(w, nodes) && w[0] == start && w[|w| - 1] == p[0]
  {
    forall p, w | IsCycle(p, nodes) && IsWalk(w, nodes) && w[0] == start && w[|w| - 1] == p[0]
      ensures false
    {
      RankDecreasesAlongPath(p, nodes, component, color, rank, next, |p| - 1);
    }
  }

  /** The stream `nodeList.stream().noneMatch(node -> dfs(node, map))` of
      graphIsAcyclic: dfs runs from each node in list order, all runs
      sharing one colour map, until one of them finds a cycle. When none
      does, every node is black and soundly ranked. */
  method DfsEach(nodeList: seq<Node>, ghost component: set<Node>)
    returns (found: bool, color: map<Node, Color>, ghost rank: map<Node, nat>, ghost next: nat)
    requires Closed(component)
    requires forall n :: n in component <==> n in nodeList
    ensures found ==> exists p :: IsCycle(p, component)
    ensures !found ==> RankedBlacks(color, rank, next, component)
    ensures !found ==> forall n :: n in component ==> color[n] == Black
  {
    color := map n | n in nodeList :: White;
    rank, next := map[], 0;
    var i := 0;
    while i < |nodeList|
      invariant i <= |nodeList|
      invariant GrayExactly(color, [], component)
      invariant RankedBlacks(color, rank, next, component)
      invariant forall j :: 0 <= j < i ==> color[nodeList[j]] == Black
    {
      found, color, rank, next := DfsFrom(nodeList, i, color, component, rank, next);
      if found {
        return;
      }
      i := i + 1;
    }
    found := false;
  }

  /** One run of dfs in the stream of graphIsAcyclic, from the node at `i`. */
  method DfsFrom(nodeList: seq<Node>, i: nat, color: map<Node, Color>, ghost component: set<Node>,
                 ghost rank: map<Node, nat>, ghost next: nat)
    returns (found: bool, color': map<Node, Color>, ghost rank': map<Node, nat>, ghost next': nat)
    requires Closed(component) && i < |nodeList|
    requires forall n :: n in component <==> n in nodeList
    requires GrayExactly(color, [], component) && RankedBlacks(color, rank, next, component)
    requires forall j :: 0 <= j < i ==> color[nodeList[j]] == Black
    ensures found ==> exists p :: IsCycle(p, component)
    ensures !found ==> GrayExactly(color', [], component) && RankedBlacks(color', rank', next', component)
    ensures !found ==> forall j :: 0 <= j < i + 1 ==> color'[nodeList[j]] == Black
  {
    assert nodeList[i] in component;
    found, color', rank', next' := Dfs(nodeList[i], color, component, [], rank, next);
    if !found {
      BlacksStayBlack(color, rank, color', rank', component, nodeList, i);
    }
  }

  /** graphIsAcyclic: collects the component of `start` and answers false
      when a search from one of its nodes finds a cycle. The answer is true
      exactly when no directed cycle can be reached from `start` along arcs
      taken as undirected. */
  method GraphIsAcyclic(start: Node, ghost nodes: set<Node>) returns (r: bool)
    requires start in nodes && Closed(nodes)
    ensures r <==> !CycleReachable(start, nodes)
  {
    var nodeList;
    ghost var walks;
    nodeList, walks := FindEntireGraph(start, nodes);
    ghost var component := set n | n in nodeList;
    ComponentClosed(nodeList, component);
    var found, color, rank, next := DfsEach(nodeList, component);
    if found {
      ghost var p :| IsCycle(p, component);
      ReachableCycle(p, start, component, nodes, walks);
      return false;
    }
    NoReachableCycle(start, component, nodes, color, rank, next);
    return true;
  }

  /** A directed cycle can be reached from `start` along arcs taken as
      undirected. */
  ghost predicate CycleReachable(start: Node, nodes: set<Node>)
    reads nodes
  {
    exists p, w :: IsCycle(p, nodes) && IsWalk(w, nodes) && w[0] == start && w[|w| - 1] == p[0]
  }

  /** `n` is joined to `start` by a walk: it is in the component
      findEntireGraph lists. */
  ghost predicate Connected(start: Node, n: Node, nodes: set<Node>)
    reads nodes
  {
    exists w :: WalkFrom(start, w, n, nodes)
  }

  function Reversed(w: seq<Node>): (v: seq<Node>)
    ensures |v| == |w| && forall i :: 0 <= i < |w| ==> v[i] == w[|w| - 1 - i]
  {
    if w == [] then [] else [w[|w| - 1]] + Reversed(w[..|w| - 1])
  }

  /** When both ends of every arc agree, a walk read backwards is a walk. */
  lemma ReverseWalk(w: seq<Node>, nodes: set<Node>)
    requires IsWalk(w, nodes) && Symmetric(nodes)
    ensures WalkFrom(w[|w| - 1], Reversed(w), w[0], nodes)
  {
    var v := Reversed(w);
    forall i | 0 <= i < |v| - 1
      ensures Linked(v[i], v[i + 1])
    {
      var k := |w| - 2 - i;
      assert Linked(w[k], w[k + 1]) && w[k] in nodes && w[k + 1] in nodes;
    }
  }

  /** Two walks meeting end to start make one walk. */
  lemma JoinWalks(a: Node, u: seq<Node>, b: Node, v: seq<Node>, c: Node, nodes: set<Node>)
    requires WalkFrom(a, u, b, nodes) && WalkFrom(b, v, c, nodes)
    ensures WalkFrom(a, u + v[1..], c, nodes)
  {
    var j := u + v[1..];
    forall i | 0 <= i < |j| - 1
      ensures Linked(j[i], j[i + 1])
    {
      if i >= |u| - 1 {
        assert j[i] == v[i - |u| + 1] && j[i + 1] == v[i - |u| + 2];
      }
    }
  }

  /** Whether a cycle can be reached does not depend on which node of a
      component the search starts from. */
  lemma CycleReachableFromAny(a: Node, b: Node, w: seq<Node>, nodes: set<Node>)
    requires Symmetric(nodes) && WalkFrom(a, w, b, nodes)
    ensures CycleReachable(a, nodes) <==> CycleReachable(b, nodes)
  {
    if CycleReachable(a, nodes) {
      var p, u :| IsCycle(p, nodes) && IsWalk(u, nodes) && u[0] == a && u[|u| - 1] == p[0];
      ReverseWalk(w, nodes);
      JoinWalks(b, Reversed(w), a, u, p[0], nodes);
    }
    if CycleReachable(b, nodes) {
      var p, u :| IsCycle(p, nodes) && IsWalk(u, nodes) && u[0] == b && u[|u| - 1] == p[0];
      JoinWalks(a, w, b, u, p[0], nodes);
    }
  }

  // ---------------------------------------------------------------------
  // Identifiers: isValidIdentifier
  // ---------------------------------------------------------------------

  /** Character.isJavaIdentifierStart on the Latin-1 range: letters, the
      currency signs and the connector '_'. */
  predicate IsIdentifierStart(c: char) {
    || 'A' <= c <= 'Z' || 'a' <= c <= 'z' || c == '_' || c == '$'
    || 0xA2 <= c as int <= 0xA5
    || c as int == 0xAA || c as int == 0xB5 || c as int == 0xBA
    || 0xC0 <= c as int <= 0xD6 || 0xD8 <= c as int <= 0xF6 || 0xF8 <= c as int <= 0xFF
  }

  /** Character.isJavaIdentifierPart on the Latin-1 range: the start
      characters, the digits and the identifier-ignorable controls. */
  predicate IsIdentifierPart(c: char) {
    || IsIdentifierStart(c)
    || '0' <= c <= '9'
    || c as int <= 0x08 || 0x0E <= c as int <= 0x1B || 0x7F <= c as int <= 0x9F
    || c as int == 0xAD
  }

  /** What a valid node name is: a non-empty string whose first character
      may start a Java identifier and whose other characters may continue
      one. */
  predicate ValidIdentifier(s: string) {
    |s| > 0 && IsIdentifierStart(s[0]) && forall i :: 1 <= i < |s| ==> IsIdentifierPart(s[i])
  }

  /** isValidIdentifier: the character loop of the source. */
  method IsValidIdentifier(identifier: string) returns (valid: bool)
    ensures valid <==> ValidIdentifier(identifier)
  {
    if |identifier| == 0 {
      return false;
    }
    if !IsIdentifierStart(identifier[0]) {
      return false;
    }
    var i := 1;
    while i < |identifier|
      invariant 1 <= i <= |identifier|
      invariant forall j :: 1 <= j < i ==> IsIdentifierPart(identifier[j])
    {
      if !IsIdentifierPart(identifier[i]) {
        return false;
      }
      i := i + 1;
    }
    return true;
  }

  /** A valid identifier holds no blank, comma, bar, parenthesis or '#',
      so it survives the tokenising of a command line unsplit. */
  lemma IdentifierHasNoSeparator(s: string)
    requires ValidIdentifier(s)
    ensures forall i :: 0 <= i < |s| ==> s[i] !in {' ', ',', '|', '(', ')', '#', '\t', '\n'}
  {
  }

  // ---------------------------------------------------------------------
  // Probabilities: parseProbability
  // ---------------------------------------------------------------------

  datatype ParseError = NotANumber | ProbabilityError(reason: ProbabilityError)

  /** parseProbability: the text is read by `parseDouble` (Double.parseDouble,
      None where it throws NumberFormatException) and the value must pass
      the range check. */
  function ParseProbability(text: string, parseDouble: string -> Option<Double>): (r: Result<real, ParseError>)
    ensures r.Success? <==> parseDouble(text).Some? && CheckProbability(parseDouble(text).value).Pass?
    ensures r.Success? ==> IsProbability(r.value) && parseDouble(text) == Some(Finite(r.value))
    ensures r == Failure(NotANumber) <==> parseDouble(text).None?
    ensures r.Failure? && r.error.ProbabilityError? ==>
      parseDouble(text).Some? && r.error.reason == CheckProbability(parseDouble(text).value).error
  {
    match parseDouble(text)
    case None => Failure(NotANumber)
    case Some(d) =>
      match CheckProbability(d)
      case Pass => Success(d.value)
      case Fail(e) => Failure(ProbabilityError(e))
  }
}

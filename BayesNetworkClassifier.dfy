/** The Bayes network classifier (BayesNetworkClassifier.java): it walks
    the network level by level from its roots, forces the value of the
    nodes an OFF parent or a probability of 0 or 1 decides, enumerates every
    ON/OFF combination of the other nodes of the level with a binary
    counter, and records one weighted system state per complete
    assignment. The recursion is proved to keep the network and the values
    already decided, to leave the visited set as it found it, and to record
    states whose weights are non-negative and add up to the weight of the
    path that reached it. */
module Classifier {
  import opened Wrappers
  import opened DirectedGraph
  import opened Probability
  import opened Utils
  import opened Combinations
  import opened States
  import opened Results
  import opened SortedNodes
  import opened LevelOrder
  import opened Exploration

  /** Why the classifier refuses a network: the IllegalArgumentExceptions
      of its construction. */
  datatype ClassifierError = EmptyNetwork | CyclicNetwork | UnmappedNode(name: string)

  /** The roots of a network: its independent nodes. */
  ghost function Roots(g: Arcs, network: seq<Node>): set<Node> {
    set n | n in network && g.ParentsOf(n) == {}
  }

  class BayesNetworkClassifier {
    /** The component of the network, as findEntireGraph lists it. */
    const network: seq<Node>
    ghost const nodes: set<Node>
    /** The arcs of the network, which classification never changes. */
    ghost const arcs: Arcs
    /** The probability of every node, by name. */
    const probabilities: map<string, real>
    /** The current ON/OFF value of every node. */
    var onoffMap: map<Node, bool>
    /** The `tuple` and `visited` collections classifyImpl passes down its
        recursion: one shared object each, so fields of the classifier. */
    var tuple: seq<Node>
    var visited: set<Node>

    ghost predicate Valid()
      reads this`onoffMap, nodes
    {
      && nodes == Elements(network)
      && Network(arcs, nodes)
      && ArcsMatch(arcs, nodes)
      && onoffMap.Keys == nodes
      && Weighted(nodes, probabilities)
    }

    /** The constructor's bookkeeping once its checks have passed: every node
        of the component starts OFF. */
    constructor (network: seq<Node>, probabilityMap: ProbabilityMap<string>)
      requires Closed(Elements(network)) && Symmetric(Elements(network)) && UniqueNames(Elements(network))
      requires probabilityMap.Valid() && forall n :: n in network ==> probabilityMap.Contains(n.name)
      ensures Valid() && this.network == network && nodes == Elements(network) && arcs == ArcsOf(nodes)
      ensures probabilities == probabilityMap.entries
      ensures forall n :: n in nodes ==> !onoffMap[n]
      ensures tuple == [] && visited == {}
    {
      var m: map<Node, bool> := map[];
      var i := 0;
      while i < |network|
        invariant 0 <= i <= |network|
        invariant m.Keys == Elements(network[..i])
        invariant forall n :: n in m ==> !m[n]
      {
        assert Elements(network[..i + 1]) == Elements(network[..i]) + {network[i]} by {
          assert network[..i + 1] == network[..i] + [network[i]];
        }
        m := m[network[i] := false];
        i := i + 1;
      }
      assert network[..i] == network;
      this.network := network;
      this.nodes := Elements(network);
      this.arcs := ArcsOf(Elements(network));
      NetworkOfArcs(ArcsOf(Elements(network)), Elements(network));
      this.probabilities := probabilityMap.entries;
      onoffMap := m;
      tuple := [];
      visited := {};
    }

    /** nodeHasOffParent: scans the parents for an OFF one. */
    method NodeHasOffParent(node: Node) returns (r: bool)
      requires Valid() && node in nodes
      ensures r <==> OffParent(arcs, node, onoffMap)
    {
      var rest := node.parents;
      while rest != {}
        invariant rest <= node.parents <= nodes
        invariant forall p :: p in node.parents && p !in rest ==> onoffMap[p]
      {
        var parent :| parent in rest;
        if !onoffMap[parent] {
          return true;
        }
        rest := rest - {parent};
      }
      return false;
    }

    /** The inner loop of the pruning: are all parents of `node` visited? */
    method AllParentsVisited(node: Node) returns (r: bool)
      requires Valid() && node in nodes
      ensures r <==> arcs.ParentsOf(node) <= visited
    {
      var rest := node.parents;
      while rest != {}
        invariant rest <= node.parents
        invariant node.parents - rest <= visited
      {
        var parent :| parent in rest;
        if parent !in visited {
          return false;
        }
        rest := rest - {parent};
      }
      return true;
    }

    /** The pruning loop of classifyImpl: removes from the level, in place,
        the nodes with a parent not yet visited. */
    method PruneLevel(levelSet: seq<Node>) returns (pruned: seq<Node>)
      requires Valid() && Elements(levelSet) <= nodes
      ensures pruned == Prune(arcs, levelSet, visited)
    {
      pruned := [];
      var i := 0;
      while i < |levelSet|
        invariant 0 <= i <= |levelSet|
        invariant pruned == Prune(arcs, levelSet[..i], visited)
      {
        assert levelSet[..i + 1][..i] == levelSet[..i] && levelSet[..i + 1][i] == levelSet[i];
        var keep := AllParentsVisited(levelSet[i]);
        if keep {
          pruned := pruned + [levelSet[i]];
        }
        i := i + 1;
      }
      assert levelSet[..i] == levelSet;
    }

    /** The skip-set loop of classifyImpl: forces OFF the nodes of the level
        with an OFF parent or probability 0, forces ON the others with
        probability 1, and returns the forced nodes. */
    method DecideForced(level: seq<Node>) returns (skip: set<Node>)
      requires Valid() && Elements(level) <= nodes
      modifies this`onoffMap
      ensures Valid()
      ensures Decision(onoffMap, skip) == Decide(arcs, level, old(onoffMap), probabilities)
    {
      ghost var m := onoffMap;
      skip := {};
      var i := 0;
      while i < |level|
        invariant 0 <= i <= |level|
        invariant Valid()
        invariant Decision(onoffMap, skip) == Decide(arcs, level[..i], m, probabilities)
      {
        assert level[..i + 1][..i] == level[..i] && level[i] in Elements(level);
        var forced := DecideNode(level[i]);
        if forced {
          skip := skip + {level[i]};
        }
        i := i + 1;
      }
      assert level[..i] == level;
    }

    /** The body of the skip-set loop for one node. */
    method DecideNode(node: Node) returns (forced: bool)
      requires Valid() && node in nodes
      modifies this`onoffMap
      ensures Valid()
      ensures forced == Forced(arcs, node, old(onoffMap), probabilities)
      ensures onoffMap == if forced then old(onoffMap)[node := !ForcedOff(arcs, node, old(onoffMap), probabilities)] else old(onoffMap)
    {
      var off := NodeHasOffParent(node);
      if off || probabilities[node.name] == 0.0 {
        onoffMap := onoffMap[node := false];
        forced := true;
      } else if probabilities[node.name] == 1.0 {
        onoffMap := onoffMap[node := true];
        forced := true;
      } else {
        forced := false;
      }
    }

    /** The visiting loop of classifyImpl: collects the unforced nodes into
        nodeArray, marks the level visited, and appends each node to `tuple`
        and to the result's node list while they are shorter than
        `visited`, which happens only on the first descent. */
    method VisitLevel(level: seq<Node>, skip: set<Node>, result: ClassificationResult) returns (nodeArray: seq<Node>)
      requires Distinct(level) && Elements(level) !! visited && result.nodeList == tuple
      modifies this`visited, this`tuple, result`nodeList
      ensures visited == old(visited) + Elements(level)
      ensures tuple == Fill(old(tuple), |old(visited)|, level)
      ensures result.nodeList == tuple
      ensures nodeArray == Unforced(level, skip)
    {
      ghost var visited0, tuple0 := visited, tuple;
      nodeArray := [];
      var i := 0;
      while i < |level|
        invariant VisitedUpTo(level, i, skip, nodeArray, visited0, tuple0, result)
      {
        FirstOccurrence(level, i, visited0);
        nodeArray := VisitStep(level, i, skip, nodeArray, visited0, tuple0, result);
        i := i + 1;
      }
      VisitedAll(level, skip, nodeArray, visited0, tuple0, result);
    }

    /** Once the visiting loop has visited the whole level. */
    lemma VisitedAll(level: seq<Node>, skip: set<Node>, nodeArray: seq<Node>,
                     visited0: set<Node>, tuple0: seq<Node>, result: ClassificationResult)
      requires VisitedUpTo(level, |level|, skip, nodeArray, visited0, tuple0, result)
      ensures visited == visited0 + Elements(level) && tuple == Fill(tuple0, |visited0|, level)
      ensures result.nodeList == tuple && nodeArray == Unforced(level, skip)
    {
      assert level[..|level|] == level;
    }

    /** The state after the visiting loop has visited the first `i` nodes
        of `level`. */
    ghost predicate VisitedUpTo(level: seq<Node>, i: nat, skip: set<Node>, nodeArray: seq<Node>,
                                visited0: set<Node>, tuple0: seq<Node>, result: ClassificationResult)
      reads this, result
    {
      VisitedValues(level, i, skip, nodeArray, visited0, tuple0, visited, tuple) && result.nodeList == tuple
    }

    /** One round of the visiting loop, on the node at `i`, which is not
        visited yet. */
    method VisitStep(level: seq<Node>, i: nat, skip: set<Node>, nodeArray: seq<Node>,
                     ghost visited0: set<Node>, ghost tuple0: seq<Node>, result: ClassificationResult)
        returns (nodeArray': seq<Node>)
      requires i < |level| && level[i] !in visited0 + Elements(level[..i])
      requires VisitedUpTo(level, i, skip, nodeArray, visited0, tuple0, result)
      modifies this`visited, this`tuple, result`nodeList
      ensures VisitedUpTo(level, i + 1, skip, nodeArray', visited0, tuple0, result)
    {
      var node := level[i];
      ghost var v, t := visited, tuple;
      nodeArray' := nodeArray + if node in skip then [] else [node];
      VisitNode(node, result);
      VisitedStep(level, i, skip, nodeArray, visited0, tuple0, v, t, nodeArray', visited, tuple);
    }

    /** The body of the visiting loop for one node. */
    method VisitNode(node: Node, result: ClassificationResult)
      requires node !in visited && result.nodeList == tuple
      modifies this`visited, this`tuple, result`nodeList
      ensures visited == old(visited) + {node} && |visited| == |old(visited)| + 1
      ensures tuple == if |old(tuple)| < |visited| then old(tuple) + [node] else old(tuple)
      ensures result.nodeList == tuple
    {
      visited := visited + {node};
      if |tuple| < |visited| {
        tuple := tuple + [node];
      }
      if |result.nodeList| < |visited| {
        result.nodeList := result.nodeList + [node];
      }
    }

    /** The next-level loop of classifyImpl: adds every child of the level
        to a TreeSet, which holds them in name order. */
    method NextLevel(level: seq<Node>) returns (next: seq<Node>)
      requires Valid() && Elements(level) <= nodes
      ensures UniqueNames(Children(arcs, level)) && next == SortedByName(Children(arcs, level))
    {
      next := [];
      var i := 0;
      while i < |level|
        invariant 0 <= i <= |level|
        invariant StrictlySorted(next) && Elements(next) == Children(arcs, level[..i])
      {
        ChildrenInside(level[..i]);
        next := AddChildren(level[i], next);
        ChildrenSnoc(arcs, level, i);
        i := i + 1;
      }
      assert level[..i] == level;
      ChildrenInside(level);
      SortedUnique(next, SortedByName(Children(arcs, level)));
    }

    /** The inner loop of the next-level loop: adds the children of one
        node to the TreeSet. */
    method AddChildren(node: Node, next: seq<Node>) returns (next': seq<Node>)
      requires Valid() && node in nodes
      requires StrictlySorted(next) && Elements(next) <= nodes
      ensures StrictlySorted(next') && Elements(next') == Elements(next) + arcs.ChildrenOf(node)
    {
      next' := next;
      var rest := node.children;
      while rest != {}
        invariant rest <= arcs.ChildrenOf(node) <= nodes
        invariant StrictlySorted(next') && Elements(next') == Elements(next) + (arcs.ChildrenOf(node) - rest)
      {
        var child :| child in rest;
        InsertUnique(next', child);
        next' := Insert(next', child);
        rest := rest - {child};
      }
    }

    /** getRootSet: the independent nodes of `network`, added one by one
        to a TreeSet. */
    method GetRootSet(network: seq<Node>) returns (roots: seq<Node>)
      requires Valid() && Elements(network) <= nodes
      ensures UniqueNames(Roots(arcs, network)) && roots == SortedByName(Roots(arcs, network))
    {
      roots := [];
      var i := 0;
      while i < |network|
        invariant 0 <= i <= |network|
        invariant StrictlySorted(roots) && Elements(roots) == Roots(arcs, network[..i])
      {
        var node := network[i];
        RootsSnoc(arcs, network, i);
        assert node in Elements(network);
        if node.IsIndependent() {
          InsertUnique(roots, node);
          roots := Insert(roots, node);
        }
        i := i + 1;
      }
      assert network[..i] == network;
      SortedUnique(roots, SortedByName(Roots(arcs, network)));
    }

    /** classify(): runs classifyImpl from the roots of the network with a
        new result, an empty tuple, nothing visited and weight 1. The
        recorded states then carry total weight 1 and none has a negative
        weight. */
    method Classify() returns (result: ClassificationResult)
      requires Valid()
      modifies this`onoffMap, this`visited, this`tuple
      ensures fresh(result)
      ensures TotalMass(result.systemStates) == 1.0 && NonNegativeWeights(result.systemStates)
      ensures visited == {} && result.nodeList == tuple
    {
      tuple, visited := [], {};
      var roots := GetRootSet(network);
      result := new ClassificationResult();
      var pruned := ClassifyImpl(roots, result, 1.0);
    }

    /** getNextCombination: with doInit, turns every node of the array OFF;
        otherwise advances the binary counter the array's values form, the
        last node being the lowest bit, and answers false when every node
        was already ON. Only the nodes of the array change. */
    method GetNextCombination(nodeArray: seq<Node>, doInit: bool) returns (more: bool)
      requires Valid() && Elements(nodeArray) <= nodes && Distinct(nodeArray)
      modifies this`onoffMap
      ensures Valid()
      ensures forall n :: n in nodes && n !in nodeArray ==> onoffMap[n] == old(onoffMap)[n]
      ensures doInit ==> more && Assignment(onoffMap, nodeArray) == seq(|nodeArray|, _ => false)
      ensures !doInit ==>
        Increment(Assignment(old(onoffMap), nodeArray)) == if more then Some(Assignment(onoffMap, nodeArray)) else None
    {
      if doInit {
        ghost var m := onoffMap;
        SetFrom(nodeArray, 0, false);
        SetAllValues(m, nodeArray[0..], false);
        AssignmentOfSetAll(nodeArray, 0, false, m);
        return true;
      }
      var i := |nodeArray| - 1;
      while i >= 0
        invariant -1 <= i < |nodeArray|
        invariant onoffMap == old(onoffMap)
        invariant forall j :: i < j < |nodeArray| ==> onoffMap[nodeArray[j]]
      {
        if !onoffMap[nodeArray[i]] {
          Advance(nodeArray, i);
          return true;
        }
        i := i - 1;
      }
      IncrementAllOn(Assignment(onoffMap, nodeArray));
      return false;
    }

    /** The branch of getNextCombination that finds the last OFF node at
        `i`: it turns that node ON and every later one OFF. */
    method Advance(nodeArray: seq<Node>, i: nat)
      requires Valid() && Elements(nodeArray) <= nodes && Distinct(nodeArray) && i < |nodeArray|
      requires !onoffMap[nodeArray[i]] && forall j :: i < j < |nodeArray| ==> onoffMap[nodeArray[j]]
      modifies this`onoffMap
      ensures Valid()
      ensures forall n :: n in nodes && n !in nodeArray ==> onoffMap[n] == old(onoffMap)[n]
      ensures Increment(Assignment(old(onoffMap), nodeArray)) == Some(Assignment(onoffMap, nodeArray))
    {
      ghost var m := onoffMap;
      IncrementAt(Assignment(m, nodeArray), i);
      assert nodeArray[i] in Elements(nodeArray);
      onoffMap := onoffMap[nodeArray[i] := true];
      ghost var m1 := onoffMap;
      SetFrom(nodeArray, i + 1, false);
      SetAllValues(m1, nodeArray[i + 1..], false);
      AssignmentAfterAdvance(nodeArray, i, m, m1);
    }

    /** The loops of getNextCombination that turn nodes OFF: sets the value
        of the nodes of `arr` from position `from` on. */
    method SetFrom(arr: seq<Node>, from: nat, value: bool)
      requires Valid() && Elements(arr) <= nodes && from <= |arr|
      modifies this`onoffMap
      ensures Valid()
      ensures onoffMap == SetAll(old(onoffMap), arr[from..], value)
    {
      ghost var m := onoffMap;
      var j := from;
      while j < |arr|
        invariant from <= j <= |arr|
        invariant onoffMap == SetAll(m, arr[from..j], value)
      {
        SliceSnoc(arr, from, j);
        onoffMap := onoffMap[arr[j] := value];
        j := j + 1;
      }
      assert arr[from..j] == arr[from..];
      SetAllValues(m, arr[from..], value);
      assert Elements(arr[from..]) <= Elements(arr);
    }

    /** computeProbability: the product, over the array, of p for an ON
        node and 1 - p for an OFF node. */
    method ComputeProbability(nodeArray: seq<Node>) returns (p: real)
      requires forall n :: n in nodeArray ==> n in onoffMap && n.name in probabilities
      ensures p == Weight(Assignment(onoffMap, nodeArray), ProbabilitiesOf(probabilities, nodeArray))
    {
      ghost var b := Assignment(onoffMap, nodeArray);
      ghost var ps := ProbabilitiesOf(probabilities, nodeArray);
      p := 1.0;
      var i := 0;
      while i < |nodeArray|
        invariant 0 <= i <= |nodeArray|
        invariant p == WeightUpTo(b, ps, i)
      {
        var node := nodeArray[i];
        var factor;
        if onoffMap[node] {
          factor := probabilities[node.name];
        } else {
          factor := 1.0 - probabilities[node.name];
        }
        WeightStep(b, ps, i, p, factor);
        p := p * factor;
        i := i + 1;
      }
    }

    /** The map a leaf of classifyImpl records: the value of every node of
        the tuple. */
    method TupleAssignment() returns (variableMap: map<Node, bool>)
      requires Elements(tuple) <= onoffMap.Keys
      ensures variableMap == TupleValues(onoffMap, tuple)
    {
      variableMap := map[];
      var i := 0;
      while i < |tuple|
        invariant 0 <= i <= |tuple|
        invariant variableMap.Keys == Elements(tuple[..i])
        invariant forall n :: n in variableMap ==> variableMap[n] == onoffMap[n]
      {
        ElementsSnoc([], tuple, i);
        assert tuple[i] in Elements(tuple);
        variableMap := variableMap[tuple[i] := onoffMap[tuple[i]]];
        i := i + 1;
      }
      assert tuple[..i] == tuple;
    }

    /** The clean-up loop of classifyImpl: removes the level from
        `visited`. */
    method Unvisit(level: seq<Node>)
      modifies this`visited
      ensures visited == old(visited) - Elements(level)
    {
      var i := 0;
      while i < |level|
        invariant 0 <= i <= |level|
        invariant visited == old(visited) - Elements(level[..i])
      {
        ElementsSnoc([], level, i);
        visited := visited - {level[i]};
        i := i + 1;
      }
      assert level[..i] == level;
    }

    // -------------------------------------------------------------------
    // The recursion
    // -------------------------------------------------------------------

    /** What the recursion keeps between calls: the classifier is valid,
        `level` is a level above the visited nodes, and the result lists
        the tuple. */
    ghost predicate Exploring(level: seq<Node>, result: ClassificationResult)
      reads this, nodes, result
    {
      && Valid() && Level(arcs, level, visited, nodes)
      && Elements(tuple) <= nodes && result.nodeList == tuple
    }

    /** classifyImpl: explores every assignment of the nodes reached from
        `levelSet` and records one state per complete assignment. The
        recorded weights add up to the weight `probability` of the path so
        far, none is negative, the nodes decided before keep their values,
        `visited` is left as it was found, and the level comes back as the
        call pruned it in place. */
    method ClassifyImpl(levelSet: seq<Node>, result: ClassificationResult, probability: real) returns (pruned: seq<Node>)
      requires Exploring(levelSet, result) && 0.0 <= probability
      modifies this`onoffMap, this`visited, this`tuple, result
      decreases nodes - visited, |levelSet|, 1
      ensures Exploring(pruned, result) && visited == old(visited)
      ensures pruned == Prune(arcs, levelSet, visited)
      ensures Keeps(old(onoffMap), onoffMap, visited, [])
      ensures Recorded(old(result.systemStates), result.systemStates, probability)
    {
      if levelSet == [] {
        ghost var states0 := result.systemStates;
        RecordTuple(result, probability);
        RecordedOne(states0, result.systemStates[|result.systemStates| - 1]);
        return [];
      }
      pruned := ClassifyLevel(levelSet, result, probability);
    }

    /** classifyImpl on a level that is not empty: the level is entered, the
        assignments of its unforced nodes are enumerated and the level is
        left again. */
    method ClassifyLevel(levelSet: seq<Node>, result: ClassificationResult, probability: real) returns (pruned: seq<Node>)
      requires Exploring(levelSet, result) && levelSet != [] && 0.0 <= probability
      modifies this`onoffMap, this`visited, this`tuple, result
      decreases nodes - visited, |levelSet|, 0
      ensures Exploring(pruned, result) && visited == old(visited)
      ensures pruned == Prune(arcs, levelSet, visited)
      ensures Keeps(old(onoffMap), onoffMap, visited, [])
      ensures Recorded(old(result.systemStates), result.systemStates, probability)
    {
      ghost var visited0 := visited;
      var nodeArray, next;
      pruned, nodeArray, next := EnterLevel(levelSet, result);
      ghost var m1 := onoffMap;
      EnumerateCombinations(nodeArray, next, result, probability);
      KeepsTrans(old(onoffMap), m1, onoffMap, visited0, visited, nodeArray);
      LeaveLevel(pruned, result, visited0);
    }

    /** The clean-up of a level: once the level is removed from `visited`
        again, the pruned level is a level above the visited nodes. */
    method LeaveLevel(level: seq<Node>, result: ClassificationResult, ghost visited0: set<Node>)
      requires Valid() && Level(arcs, level, visited0, nodes) && visited == visited0 + Elements(level)
      requires Elements(tuple) <= nodes && result.nodeList == tuple
      modifies this`visited
      ensures Exploring(level, result) && visited == visited0
    {
      Unvisit(level);
    }

    /** The first half of a level of classifyImpl: the level is pruned, its
        forced nodes decided and the pruned level visited; the unforced
        nodes and the sorted children of the pruned level are returned. */
    method EnterLevel(levelSet: seq<Node>, result: ClassificationResult)
        returns (pruned: seq<Node>, nodeArray: seq<Node>, next: seq<Node>)
      requires Exploring(levelSet, result) && levelSet != []
      modifies this`onoffMap, this`visited, this`tuple, result`nodeList
      ensures Exploring(next, result)
      ensures pruned == Prune(arcs, levelSet, old(visited)) && Level(arcs, pruned, old(visited), nodes)
      ensures visited == old(visited) + Elements(pruned) && Elements(pruned) !! old(visited)
      ensures Distinct(nodeArray) && Elements(nodeArray) <= Elements(pruned)
      ensures nodes - visited < nodes - old(visited) || (visited == old(visited) && next == [])
      ensures Keeps(old(onoffMap), onoffMap, old(visited), [])
    {
      PrunedLevel(arcs, levelSet, visited, nodes);
      pruned := PruneLevel(levelSet);
      nodeArray, next := Descend(pruned, result);
      Progress(nodes, old(visited), visited, pruned);
    }

    /** The level once pruned: its forced nodes are decided, it is visited,
        and the children of its nodes form the next level. */
    method Descend(level: seq<Node>, result: ClassificationResult) returns (nodeArray: seq<Node>, next: seq<Node>)
      requires Exploring(level, result) && forall n :: n in level ==> arcs.ParentsOf(n) <= visited
      modifies this`onoffMap, this`visited, this`tuple, result`nodeList
      ensures Exploring(next, result) && visited == old(visited) + Elements(level)
      ensures Distinct(nodeArray) && Elements(nodeArray) <= Elements(level)
      ensures level == [] ==> next == []
      ensures Keeps(old(onoffMap), onoffMap, old(visited), [])
    {
      ghost var visited0, m0, tuple0 := visited, onoffMap, tuple;
      SortedIsDistinct(level);
      var skip := DecideForced(level);
      DecideValues(arcs, level, m0, probabilities);
      nodeArray := VisitLevel(level, skip, result);
      FillElements(tuple0, |visited0|, level);
      LevelOrder.NextLevel(arcs, level, visited0, nodes);
      next := NextLevel(level);
      UnforcedDistinct(level, skip);
    }

    /** The end of the recursion: the tuple, the value of each of its nodes
        and the weight of the path become a new state. */
    method RecordTuple(result: ClassificationResult, probability: real)
      requires Elements(tuple) <= onoffMap.Keys
      modifies result
      ensures result.nodeList == old(result.nodeList)
      ensures result.systemStates == old(result.systemStates) + [SystemState(TupleValues(onoffMap, tuple), tuple, probability)]
    {
      var variableMap := TupleAssignment();
      result.AddSystemState(SystemState(variableMap, tuple, probability));
    }

    /** The enumeration loop of classifyImpl: the counter starts from all
        OFF and runs through all 2^k assignments of the k nodes of
        nodeArray; for each, the next level is explored with the path's
        weight multiplied by the assignment's. Since those weights sum to
        1, the states recorded weigh `probability` in all. The level set
        passed down is pruned in place by the first call, so the later
        calls see the pruned set. */
    method EnumerateCombinations(nodeArray: seq<Node>, nextLevelSet: seq<Node>, result: ClassificationResult,
                                 probability: real)
      requires Exploring(nextLevelSet, result) && Distinct(nodeArray) && Elements(nodeArray) <= visited
      requires 0.0 <= probability
      modifies this`onoffMap, this`visited, this`tuple, result
      decreases nodes - visited, |nextLevelSet|, 4
      ensures Exploring(nextLevelSet, result) && visited == old(visited)
      ensures Keeps(old(onoffMap), onoffMap, visited, nodeArray)
      ensures Recorded(old(result.systemStates), result.systemStates, probability)
    {
      ghost var ps := ProbabilitiesOf(probabilities, nodeArray);
      ghost var states0, m0, visited0 := result.systemStates, onoffMap, visited;
      var next := nextLevelSet;
      var more := StartCounter(nodeArray);
      ghost var c, sum := 0, 0.0;
      RecordedNothing(states0, probability);
      while more
        invariant Enumerating(nodeArray, nextLevelSet, next, result, probability, c, more, sum, states0, m0, visited0)
        invariant c <= Pow2(|ps|) && sum == PartialSum(ps, |ps|, c)
        decreases Pow2(|nodeArray|) - c
      {
        ghost var sum' := PartialSum(ps, |ps|, c + 1);
        next, more := CombinationStep(nodeArray, nextLevelSet, next, result, probability, ps, c, sum, sum', states0, m0, visited0);
        c, sum := c + 1, sum';
      }
      WeightsSumToOne(ps, |ps|);
      RecordedWhole(states0, result.systemStates, probability, sum);
    }

    /** getNextCombination with doInit: the counter starts at assignment
        number 0, all OFF. */
    method StartCounter(nodeArray: seq<Node>) returns (more: bool)
      requires Valid() && Distinct(nodeArray) && Elements(nodeArray) <= visited <= nodes
      modifies this`onoffMap
      ensures Valid() && Counting(nodeArray, 0, more, old(onoffMap))
    {
      more := GetNextCombination(nodeArray, true);
      BitsOfZero(|nodeArray|);
    }

    /** The counter of the enumeration loop at assignment number `c`: while
        `more`, the nodes of the array hold the bits of `c`; otherwise all
        2^k assignments are done. Only the array's nodes have changed since
        the values `m0`. */
    ghost predicate Counting(nodeArray: seq<Node>, c: nat, more: bool, m0: map<Node, bool>)
      reads this
    {
      && Distinct(nodeArray) && Elements(nodeArray) <= visited && visited <= onoffMap.Keys
      && (forall i :: 0 <= i < |nodeArray| ==> nodeArray[i] in onoffMap && nodeArray[i].name in probabilities)
      && c <= Pow2(|nodeArray|)
      && (more ==> c < Pow2(|nodeArray|) && Assignment(onoffMap, nodeArray) == BitsOf(c, |nodeArray|))
      && (!more ==> c == Pow2(|nodeArray|))
      && m0.Keys == onoffMap.Keys
      && Keeps(m0, onoffMap, visited, nodeArray)
    }

    /** The state of the enumeration loop at assignment number `c`: the
        next level is still to be explored from `nextLevelSet`, `visited`
        is as the loop found it, the counter stands at `c`, and the states
        recorded since `states0` weigh `probability` times `sum`. */
    ghost predicate Enumerating(nodeArray: seq<Node>, nextLevelSet: seq<Node>, next: seq<Node>, result: ClassificationResult,
                                probability: real, c: nat, more: bool, sum: real,
                                states0: seq<SystemState>, m0: map<Node, bool>, visited0: set<Node>)
      reads this, nodes, result
    {
      && Exploring(next, result) && visited == visited0 && |next| <= |nextLevelSet|
      && Counting(nodeArray, c, more, m0)
      && Recorded(states0, result.systemStates, probability * sum)
    }

    /** One turn of the enumeration loop, on assignment number `c`: the
        next level is explored with the path's weight times the weight `w`
        of the assignment, and the counter advances. */
    method CombinationStep(nodeArray: seq<Node>, nextLevelSet: seq<Node>, next: seq<Node>, result: ClassificationResult,
                           probability: real, ghost ps: seq<real>, ghost c: nat, ghost sum: real, ghost sum': real,
                           ghost states0: seq<SystemState>, ghost m0: map<Node, bool>, ghost visited0: set<Node>)
        returns (next': seq<Node>, more: bool)
      requires Enumerating(nodeArray, nextLevelSet, next, result, probability, c, true, sum, states0, m0, visited0)
      requires 0.0 <= probability && ps == ProbabilitiesOf(probabilities, nodeArray) && |ps| == |nodeArray|
      requires c < Pow2(|ps|) && sum == PartialSum(ps, |ps|, c) && sum' == PartialSum(ps, |ps|, c + 1)
      modifies this`onoffMap, this`visited, this`tuple, result
      decreases nodes - visited, |next|, 3
      ensures Enumerating(nodeArray, nextLevelSet, next', result, probability, c + 1, more, sum', states0, m0, visited0)
    {
      ghost var states1;
      var w;
      next', w, states1 := ExploreAssignment(nodeArray, next, result, probability, c);
      more := AdvanceCounter(nodeArray, c, m0);
      MassStep(states0, states1, result.systemStates, probability, ps, c, w, sum, sum');
    }

    /** The first half of a turn of the enumeration loop: the weight of the
        current assignment, and the next level explored with it. */
    method ExploreAssignment(nodeArray: seq<Node>, next: seq<Node>, result: ClassificationResult, probability: real,
                             ghost c: nat)
        returns (next': seq<Node>, w: real, ghost states1: seq<SystemState>)
      requires Exploring(next, result) && 0.0 <= probability
      requires Distinct(nodeArray) && Elements(nodeArray) <= visited
      requires c < Pow2(|nodeArray|) && Assignment(onoffMap, nodeArray) == BitsOf(c, |nodeArray|)
      modifies this`onoffMap, this`visited, this`tuple, result
      decreases nodes - visited, |next|, 2
      ensures Exploring(next', result) && visited == old(visited) && |next'| <= |next|
      ensures Keeps(old(onoffMap), onoffMap, visited, [])
      ensures Assignment(onoffMap, nodeArray) == BitsOf(c, |nodeArray|)
      ensures states1 == old(result.systemStates)
      ensures w == Weight(BitsOf(c, |nodeArray|), ProbabilitiesOf(probabilities, nodeArray))
      ensures 0.0 <= w && Recorded(states1, result.systemStates, probability * w)
    {
      states1 := result.systemStates;
      w := ComputeProbability(nodeArray);
      WeightedArray(nodeArray);
      WeightInRange(BitsOf(c, |nodeArray|), ProbabilitiesOf(probabilities, nodeArray), |nodeArray|);
      NonNegativeProduct(probability, w);
      ghost var m1 := onoffMap;
      next' := ClassifyImpl(next, result, probability * w);
      SameAssignment(m1, onoffMap, nodeArray);
    }

    /** The second half of a turn of the enumeration loop: the counter
        steps from the bits of `c` to those of c + 1, or stops after the
        last assignment. */
    method AdvanceCounter(nodeArray: seq<Node>, ghost c: nat, ghost m0: map<Node, bool>) returns (more: bool)
      requires Valid() && Counting(nodeArray, c, true, m0)
      modifies this`onoffMap
      ensures Valid() && Counting(nodeArray, c + 1, more, m0)
    {
      more := GetNextCombination(nodeArray, false);
      IncrementCounts(c, |nodeArray|);
    }

    /** The probabilities of the nodes of an array of network nodes are
        probabilities. */
    lemma WeightedArray(nodeArray: seq<Node>)
      requires Valid() && Elements(nodeArray) <= nodes
      ensures forall i :: 0 <= i < |nodeArray| ==> nodeArray[i].name in probabilities
      ensures AllProbabilities(ProbabilitiesOf(probabilities, nodeArray))
    {
      assert forall i :: 0 <= i < |nodeArray| ==> nodeArray[i] in Elements(nodeArray);
    }

    lemma ChildrenInside(level: seq<Node>)
      requires Valid() && Elements(level) <= nodes
      ensures Children(arcs, level) <= nodes
    {
      forall c | c in Children(arcs, level)
        ensures c in nodes
      {
        ChildrenMember(arcs, level, c);
      }
    }

    /** Inserting a node of the network into a sorted sequence of nodes of
        the network adds exactly that node: names are unique. */
    lemma InsertUnique(s: seq<Node>, n: Node)
      requires Valid() && StrictlySorted(s) && Elements(s) <= nodes && n in nodes
      ensures Elements(Insert(s, n)) == Elements(s) + {n}
    {
      if exists i :: 0 <= i < |s| && s[i].name == n.name {
        var i :| 0 <= i < |s| && s[i].name == n.name;
        assert s[i] in nodes && Equals(s[i], n);
      }
    }
  }

  /** classify(network, probabilityMap), with the checks of the
      constructor: the network must not be empty, the component of its
      first node, listed by findEntireGraph, must have no directed cycle,
      and every node of that component must have a probability. The
      classifier is then built on the component and run. `graph` is a
      closed set of nodes holding the network, over which walks range. */
  method Classify(network: seq<Node>, probabilityMap: ProbabilityMap<string>, ghost graph: set<Node>)
      returns (r: Result<ClassificationResult, ClassifierError>)
    requires Elements(network) <= graph && Closed(graph) && Symmetric(graph) && UniqueNames(graph)
    requires probabilityMap.Valid()
    ensures r == Failure(EmptyNetwork) <==> network == []
    ensures network != [] ==> (r == Failure(CyclicNetwork) <==> CycleReachable(network[0], graph))
    ensures r.Failure? && r.error.UnmappedNode? ==>
      && network != [] && !CycleReachable(network[0], graph)
      && exists n :: Connected(network[0], n, graph) && n.name == r.error.name && !probabilityMap.Contains(n.name)
    ensures r.Success? ==>
      && network != [] && !CycleReachable(network[0], graph)
      && (forall n :: Connected(network[0], n, graph) ==> probabilityMap.Contains(n.name))
      && fresh(r.value)
      && TotalMass(r.value.systemStates) == 1.0 && NonNegativeWeights(r.value.systemStates)
  {
    if network == [] {
      return Failure(EmptyNetwork);
    }
    var component := FindComponent(network[0], graph);
    var acyclic := GraphIsAcyclic(component[0], graph);
    if !acyclic {
      return Failure(CyclicNetwork);
    }
    r := ClassifyComponent(component, probabilityMap);
  }

  /** The rest of the constructor on an acyclic component, then
      classify(): the probability map is checked and the classifier is
      built and run. */
  method ClassifyComponent(component: seq<Node>, probabilityMap: ProbabilityMap<string>)
      returns (r: Result<ClassificationResult, ClassifierError>)
    requires Closed(Elements(component)) && Symmetric(Elements(component)) && UniqueNames(Elements(component))
    requires probabilityMap.Valid()
    ensures r.Failure? ==>
      && r.error.UnmappedNode?
      && exists n :: n in component && n.name == r.error.name && !probabilityMap.Contains(n.name)
    ensures r.Success? ==>
      && (forall n :: n in component ==> probabilityMap.Contains(n.name))
      && fresh(r.value)
      && TotalMass(r.value.systemStates) == 1.0 && NonNegativeWeights(r.value.systemStates)
  {
    var check := CheckProbabilityMap(probabilityMap, component);
    if check.Fail? {
      return Failure(check.error);
    }
    var classifier := new BayesNetworkClassifier(component, probabilityMap);
    var result := classifier.Classify();
    return Success(result);
  }

  /** findEntireGraph as the constructor uses it: the component it lists
      is a network the classifier accepts, holds exactly the nodes
      connected to `start`, and a cycle can be reached from its first node
      just when one can be reached from `start`. */
  method FindComponent(start: Node, ghost graph: set<Node>) returns (component: seq<Node>)
    requires start in graph && Closed(graph) && Symmetric(graph) && UniqueNames(graph)
    ensures component != [] && Distinct(component) && Elements(component) <= graph
    ensures Closed(Elements(component)) && Symmetric(Elements(component)) && UniqueNames(Elements(component))
    ensures forall n :: n in component <==> Connected(start, n, graph)
    ensures CycleReachable(component[0], graph) <==> CycleReachable(start, graph)
  {
    ghost var walks;
    component, walks := FindEntireGraph(start, graph);
    ComponentShape(start, component, walks, graph);
    CycleReachableFromAny(start, component[0], walks[component[0]], graph);
  }

  /** The component findEntireGraph lists is a network the classifier
      accepts, and holds exactly the nodes connected to its start. */
  lemma ComponentShape(start: Node, component: seq<Node>, walks: map<Node, seq<Node>>, graph: set<Node>)
    requires Closed(graph) && Symmetric(graph) && UniqueNames(graph)
    requires forall a, b :: a in component && Linked(a, b) ==> b in component
    requires forall n :: n in component ==> n in walks && WalkFrom(start, walks[n], n, graph)
    requires forall p :: IsWalk(p, graph) && p[0] == start ==> p[|p| - 1] in component
    requires start in component
    ensures component != [] && Elements(component) <= graph
    ensures Closed(Elements(component)) && Symmetric(Elements(component)) && UniqueNames(Elements(component))
    ensures forall n :: n in component <==> Connected(start, n, graph)
  {
    ComponentClosed(component, Elements(component));
    forall n | Connected(start, n, graph)
      ensures n in component
    {
      var w :| WalkFrom(start, w, n, graph);
    }
  }

  /** checkProbabilityMap: finds, in list order, the first node whose name
      has no probability. */
  method CheckProbabilityMap(probabilityMap: ProbabilityMap<string>, nodeList: seq<Node>) returns (o: Outcome<ClassifierError>)
    ensures o.Pass? <==> forall n :: n in nodeList ==> probabilityMap.Contains(n.name)
    ensures o.Fail? ==>
      exists i :: 0 <= i < |nodeList| && o.error == UnmappedNode(nodeList[i].name)
        && !probabilityMap.Contains(nodeList[i].name)
        && forall j :: 0 <= j < i ==> probabilityMap.Contains(nodeList[j].name)
  {
    var i := 0;
    while i < |nodeList|
      invariant 0 <= i <= |nodeList|
      invariant forall j :: 0 <= j < i ==> probabilityMap.Contains(nodeList[j].name)
    {
      if !probabilityMap.Contains(nodeList[i].name) {
        return Fail(UnmappedNode(nodeList[i].name));
      }
      i := i + 1;
    }
    return Pass;
  }

  /** `after` extends `before` by states of total weight `p`, and has no
      negative weight unless `before` had one. */
  ghost predicate Recorded(before: seq<SystemState>, after: seq<SystemState>, p: real) {
    && before <= after
    && TotalMass(after) == TotalMass(before) + p
    && (NonNegativeWeights(before) ==> NonNegativeWeights(after))
  }

  lemma RecordedNothing(states: seq<SystemState>, p: real)
    ensures Recorded(states, states, p * 0.0)
  {
  }

  lemma RecordedOne(states: seq<SystemState>, s: SystemState)
    requires 0.0 <= s.probability
    ensures Recorded(states, states + [s], s.probability)
  {
    MassesOfAppend(states, s, map[]);
  }

  lemma RecordedWhole(s0: seq<SystemState>, s1: seq<SystemState>, p: real, sum: real)
    requires sum == 1.0 && Recorded(s0, s1, p * sum)
    ensures Recorded(s0, s1, p)
  {
  }

  lemma RecordedTrans(s0: seq<SystemState>, s1: seq<SystemState>, s2: seq<SystemState>, a: real, b: real)
    requires Recorded(s0, s1, a) && Recorded(s1, s2, b)
    ensures Recorded(s0, s2, a + b)
  {
    assert s2[..|s0|] == s1[..|s0|];
  }

  /** States of weight a followed by states of weight b weigh a + b. */
  lemma AddWeight(s0: seq<SystemState>, s1: seq<SystemState>, s2: seq<SystemState>, a: real, b: real, total: real)
    requires Recorded(s0, s1, a) && Recorded(s1, s2, b) && total == a + b
    ensures Recorded(s0, s2, total)
  {
    RecordedTrans(s0, s1, s2, a, b);
  }

  /** States of weight p * a followed by states of weight p * w weigh
      p * (a + w). */
  lemma AddScaled(s0: seq<SystemState>, s1: seq<SystemState>, s2: seq<SystemState>, p: real, a: real, w: real, total: real)
    requires Recorded(s0, s1, p * a) && Recorded(s1, s2, p * w) && total == a + w
    ensures Recorded(s0, s2, p * total)
  {
    Distribution(p, a, w, total);
    AddWeight(s0, s1, s2, p * a, p * w, p * total);
  }

  /** The states recorded for the first c assignments weigh p times their
      weights; with those of assignment c they weigh p times the weights of
      the first c + 1. */
  lemma MassStep(s0: seq<SystemState>, s1: seq<SystemState>, s2: seq<SystemState>, p: real, ps: seq<real>, c: nat, w: real,
                 sum: real, sum': real)
    requires c < Pow2(|ps|) && w == Weight(BitsOf(c, |ps|), ps)
    requires sum == PartialSum(ps, |ps|, c) && sum' == PartialSum(ps, |ps|, c + 1)
    requires Recorded(s0, s1, p * sum) && Recorded(s1, s2, p * w)
    ensures Recorded(s0, s2, p * sum')
  {
    PartialSumStep(ps, c, sum, w);
    AddScaled(s0, s1, s2, p, sum, w, sum');
  }

  lemma Distribution(p: real, a: real, w: real, total: real)
    requires total == a + w
    ensures p * a + p * w == p * total
  {
  }

  /** Visiting a level that is not empty leaves fewer nodes unvisited. */
  lemma Progress(nodes: set<Node>, visited0: set<Node>, visited1: set<Node>, level: seq<Node>)
    requires visited1 == visited0 + Elements(level) && Elements(level) <= nodes && Elements(level) !! visited0
    ensures nodes - visited1 < nodes - visited0 || (visited1 == visited0 && level == [])
  {
    if level != [] {
      assert level[0] in (nodes - visited0) - (nodes - visited1);
    }
  }

  lemma RootsSnoc(g: Arcs, network: seq<Node>, i: nat)
    requires i < |network|
    ensures Roots(g, network[..i + 1]) == Roots(g, network[..i]) + if g.ParentsOf(network[i]) == {} then {network[i]} else {}
  {
    assert network[..i + 1] == network[..i] + [network[i]];
  }

  lemma SliceSnoc(arr: seq<Node>, from: nat, j: nat)
    requires from <= j < |arr|
    ensures arr[from..j + 1] == arr[from..j] + [arr[j]]
  {
  }

  /** `m` with the nodes of `s` mapped to `value`, one after the other. */
  function SetAll(m: map<Node, bool>, s: seq<Node>, value: bool): map<Node, bool> {
    if s == [] then m else SetAll(m, s[..|s| - 1], value)[s[|s| - 1] := value]
  }

  lemma {:induction false} SetAllValues(m: map<Node, bool>, s: seq<Node>, value: bool)
    ensures SetAll(m, s, value).Keys == m.Keys + Elements(s)
    ensures forall n :: n in SetAll(m, s, value) ==> SetAll(m, s, value)[n] == if n in s then value else m[n]
  {
    if s != [] {
      SetAllValues(m, s[..|s| - 1], value);
      assert s == s[..|s| - 1] + [s[|s| - 1]];
    }
  }

  /** The values of `arr` once the nodes from `from` on are set to `value`. */
  lemma AssignmentOfSetAll(arr: seq<Node>, from: nat, value: bool, m: map<Node, bool>)
    requires Distinct(arr) && from <= |arr|
    requires forall i :: 0 <= i < |arr| ==> arr[i] in m
    ensures forall i :: 0 <= i < |arr| ==> arr[i] in SetAll(m, arr[from..], value)
    ensures Assignment(SetAll(m, arr[from..], value), arr) == Assignment(m, arr)[..from] + seq(|arr| - from, _ => value)
  {
    SetAllValues(m, arr[from..], value);
    assert forall i :: from <= i < |arr| ==> arr[i] == arr[from..][i - from];
  }

  /** Turning the node at `i` ON and every later one OFF is the increment
      whose last OFF entry is at `i`. */
  lemma AssignmentAfterAdvance(arr: seq<Node>, i: nat, m: map<Node, bool>, m1: map<Node, bool>)
    requires Distinct(arr) && i < |arr|
    requires forall j :: 0 <= j < |arr| ==> arr[j] in m
    requires m1 == m[arr[i] := true]
    ensures forall j :: 0 <= j < |arr| ==> arr[j] in SetAll(m1, arr[i + 1..], false)
    ensures Assignment(SetAll(m1, arr[i + 1..], false), arr)
         == Assignment(m, arr)[..i] + [true] + seq(|arr| - i - 1, _ => false)
  {
    AssignmentOfSetAll(arr, i + 1, false, m1);
    assert Assignment(m1, arr)[..i + 1] == Assignment(m, arr)[..i] + [true];
  }

  /** The visited set `v` and the tuple `t` after the visiting loop of
      classifyImpl has visited the first `i` nodes of `level`, starting
      from `visited0` and `tuple0`; `nodeArray` holds the unforced ones. */
  ghost predicate VisitedValues(level: seq<Node>, i: nat, skip: set<Node>, nodeArray: seq<Node>,
                                visited0: set<Node>, tuple0: seq<Node>, v: set<Node>, t: seq<Node>)
  {
    i <= |level| &&
    visited0 <= v && (forall n :: n in v ==> n in visited0 || n in level[..i]) &&
    (forall j :: 0 <= j < i ==> level[j] in v) && |v| == |visited0| + i &&
    t == Fill(tuple0, |visited0|, level[..i]) &&
    nodeArray == Unforced(level[..i], skip)
  }

  /** Visiting the node at `i`, not visited before, advances the loop's
      state by one node. */
  lemma VisitedStep(level: seq<Node>, i: nat, skip: set<Node>, nodeArray: seq<Node>,
                    visited0: set<Node>, tuple0: seq<Node>, v: set<Node>, t: seq<Node>,
                    nodeArray': seq<Node>, v': set<Node>, t': seq<Node>)
    requires i < |level| && level[i] !in visited0 + Elements(level[..i])
    requires VisitedValues(level, i, skip, nodeArray, visited0, tuple0, v, t)
    requires nodeArray' == nodeArray + if level[i] in skip then [] else [level[i]]
    requires v' == v + {level[i]} && |v'| == |v| + 1
    requires t' == if |t| < |v'| then t + [level[i]] else t
    ensures VisitedValues(level, i + 1, skip, nodeArray', visited0, tuple0, v', t')
  {
    UnforcedSnoc(level, i, skip);
    FillSnoc(tuple0, |visited0|, level, i);
    assert level[..i + 1] == level[..i] + [level[i]];
    forall n | n in v'
      ensures n in visited0 || n in level[..i + 1]
    {
      if n != level[i] {
        assert n in visited0 || n in level[..i];
      }
    }
  }

  lemma ElementsSnoc(prefix: seq<Node>, level: seq<Node>, i: nat)
    requires i < |level|
    ensures level[..i + 1] == level[..i] + [level[i]]
    ensures prefix + level[..i] + [level[i]] == prefix + level[..i + 1]
    ensures Elements(level[..i + 1]) == Elements(level[..i]) + {level[i]}
  {
    assert level[..i + 1] == level[..i] + [level[i]];
  }

  lemma UnforcedSnoc(level: seq<Node>, i: nat, skip: set<Node>)
    requires i < |level|
    ensures Unforced(level[..i + 1], skip) == Unforced(level[..i], skip) + if level[i] in skip then [] else [level[i]]
  {
    assert level[..i + 1][..i] == level[..i];
  }

  lemma ChildrenSnoc(g: Arcs, level: seq<Node>, i: nat)
    requires i < |level|
    ensures Children(g, level[..i + 1]) == Children(g, level[..i]) + g.ChildrenOf(level[i])
  {
    assert level[..i + 1][..i] == level[..i];
  }

  lemma WeightStep(b: seq<bool>, ps: seq<real>, i: nat, p: real, factor: real)
    requires |b| == |ps| && i < |b|
    requires p == WeightUpTo(b, ps, i) && factor == Factor(b[i], ps[i])
    ensures p * factor == WeightUpTo(b, ps, i + 1)
  {
  }

}

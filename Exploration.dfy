/** The steps of classifyImpl (BayesNetworkClassifier.java) as functions
    on values: the forcing rules, the skip-set loop, the nodes the counter
    varies, what the visiting loop appends to the tuple, the weight of an
    assignment and the variable map a leaf records. */
module Exploration {
  import opened DirectedGraph
  import opened Probability
  import opened Utils
  import opened Combinations
  import opened States
  import opened SortedNodes
  import opened LevelOrder

  // ---------------------------------------------------------------------
  // Values of nodes and the forcing rules
  // ---------------------------------------------------------------------

  /** Every node has a probability, looked up by name. */
  predicate Weighted(nodes: set<Node>, probabilities: map<string, real>) {
    forall n :: n in nodes ==> n.name in probabilities && IsProbability(probabilities[n.name])
  }

  /** The values of `m` at the nodes of `arr`, in array order. */
  function Assignment(m: map<Node, bool>, arr: seq<Node>): seq<bool>
    requires forall i :: 0 <= i < |arr| ==> arr[i] in m
  {
    seq(|arr|, i requires 0 <= i < |arr| => m[arr[i]])
  }

  /** The probabilities of the nodes of `arr`, in array order. */
  function ProbabilitiesOf(probabilities: map<string, real>, arr: seq<Node>): seq<real>
    requires forall i :: 0 <= i < |arr| ==> arr[i].name in probabilities
  {
    seq(|arr|, i requires 0 <= i < |arr| => probabilities[arr[i].name])
  }

  /** Some parent of `n` is OFF in `m`. */
  ghost predicate OffParent(g: Arcs, n: Node, m: map<Node, bool>) {
    exists p :: p in g.ParentsOf(n) && p in m && !m[p]
  }

  predicate HasProbability(n: Node, probabilities: map<string, real>, p: real) {
    n.name in probabilities && probabilities[n.name] == p
  }

  /** `n` must be OFF: a parent is OFF or its probability is 0. */
  ghost predicate ForcedOff(g: Arcs, n: Node, m: map<Node, bool>, probabilities: map<string, real>) {
    OffParent(g, n, m) || HasProbability(n, probabilities, 0.0)
  }

  /** `n` cannot vary: it is forced OFF, or forced ON by a probability of 1. */
  ghost predicate Forced(g: Arcs, n: Node, m: map<Node, bool>, probabilities: map<string, real>) {
    ForcedOff(g, n, m, probabilities) || HasProbability(n, probabilities, 1.0)
  }

  // ---------------------------------------------------------------------
  // The steps of one call
  // ---------------------------------------------------------------------

  /** The skip-set loop's result: the values and the forced nodes. */
  datatype Decision = Decision(values: map<Node, bool>, skip: set<Node>)

  /** The skip-set loop, node by node in level order: a node forced by the
      values so far gets its forced value and joins the skip set. */
  ghost function Decide(g: Arcs, level: seq<Node>, m: map<Node, bool>, probabilities: map<string, real>): Decision
  {
    if level == [] then Decision(m, {})
    else
      var d := Decide(g, level[..|level| - 1], m, probabilities);
      var n := level[|level| - 1];
      if Forced(g, n, d.values, probabilities) then
        Decision(d.values[n := !ForcedOff(g, n, d.values, probabilities)], d.skip + {n})
      else d
  }

  /** The nodes of `level` outside `skip`, in order: the nodeArray whose
      values the counter enumerates. */
  ghost function Unforced(level: seq<Node>, skip: set<Node>): (arr: seq<Node>)
    ensures Elements(arr) == Elements(level) - skip
  {
    if level == [] then []
    else
      var last := level[|level| - 1];
      assert level == level[..|level| - 1] + [last];
      var front := Unforced(level[..|level| - 1], skip);
      if last in skip then front
      else
        assert Elements(front + [last]) == Elements(front) + {last};
        front + [last]
  }

  /** What the visiting loop does to the tuple when `count` nodes were
      visited before the level: once the k-th node of the level has joined
      the visited set, it is appended if the tuple is shorter than that
      set, which then has count + k elements. */
  function Fill(tuple: seq<Node>, count: nat, level: seq<Node>): seq<Node>
  {
    if level == [] then tuple
    else
      var t := Fill(tuple, count, level[..|level| - 1]);
      if |t| < count + |level| then t + [level[|level| - 1]] else t
  }

  /** The variable map a leaf records: the value of every node of the
      tuple. */
  function TupleValues(m: map<Node, bool>, tuple: seq<Node>): map<Node, bool>
    requires forall n :: n in tuple ==> n in m
  {
    map n | n in tuple :: m[n]
  }

  // ---------------------------------------------------------------------
  // Facts about the steps
  // ---------------------------------------------------------------------

  /** The skip-set loop changes only the values of forced nodes of the
      level, and skips only nodes of the level. */
  lemma {:induction false} DecideValues(g: Arcs, level: seq<Node>, m: map<Node, bool>, probabilities: map<string, real>)
    requires Elements(level) <= m.Keys
    ensures Decide(g, level, m, probabilities).values.Keys == m.Keys
    ensures Decide(g, level, m, probabilities).skip <= Elements(level)
    ensures forall n :: n in m && n !in level ==> Decide(g, level, m, probabilities).values[n] == m[n]
  {
    if level != [] {
      var front := level[..|level| - 1];
      assert level == front + [level[|level| - 1]];
      DecideValues(g, front, m, probabilities);
    }
  }

  /** The visiting loop's tuple after one more node of the level. */
  lemma FillSnoc(tuple: seq<Node>, count: nat, level: seq<Node>, i: nat)
    requires i < |level|
    ensures var t := Fill(tuple, count, level[..i]);
      Fill(tuple, count, level[..i + 1]) == if |t| < count + i + 1 then t + [level[i]] else t
  {
    assert level[..i + 1][..i] == level[..i];
  }

  /** The visiting loop appends only nodes of the level to the tuple. */
  lemma {:induction false} FillElements(tuple: seq<Node>, count: nat, level: seq<Node>)
    ensures Elements(Fill(tuple, count, level)) <= Elements(tuple) + Elements(level)
  {
    if level != [] {
      var front := level[..|level| - 1];
      assert level == front + [level[|level| - 1]];
      FillElements(tuple, count, front);
      var t := Fill(tuple, count, front);
      assert Elements(t + [level[|level| - 1]]) == Elements(t) + {level[|level| - 1]};
    }
  }

  /** `m'` gives the nodes of `decided` outside `arr` the values `m` gives
      them. */
  ghost predicate Keeps(m: map<Node, bool>, m': map<Node, bool>, decided: set<Node>, arr: seq<Node>) {
    forall n :: n in decided && n !in arr ==> n in m && n in m' && m'[n] == m[n]
  }

  lemma KeepsTrans(m0: map<Node, bool>, m1: map<Node, bool>, m2: map<Node, bool>,
                   decided0: set<Node>, decided1: set<Node>, arr: seq<Node>)
    requires Keeps(m0, m1, decided0, []) && Keeps(m1, m2, decided1, arr)
    requires decided0 <= decided1 && Elements(arr) !! decided0
    ensures Keeps(m0, m2, decided0, [])
  {
    forall n | n in decided0
      ensures n !in arr
    {
      assert n !in Elements(arr);
    }
  }

  /** Maps that agree on the array give it the same assignment. */
  lemma SameAssignment(m: map<Node, bool>, m': map<Node, bool>, arr: seq<Node>)
    requires forall i :: 0 <= i < |arr| ==> arr[i] in m && arr[i] in m' && m'[arr[i]] == m[arr[i]]
    ensures Assignment(m', arr) == Assignment(m, arr)
  {
  }

  lemma SortedIsDistinct(level: seq<Node>)
    requires StrictlySorted(level)
    ensures Distinct(level)
  {
    forall i, j | 0 <= i < j < |level|
      ensures level[i] != level[j]
    {
      SortedDistinct(level, i, j);
    }
  }

  /** A node of a sequence without repetitions does not occur before its
      position. */
  lemma FirstOccurrence(level: seq<Node>, i: nat, visited: set<Node>)
    requires Distinct(level) && i < |level| && Elements(level) !! visited
    ensures level[i] !in visited + Elements(level[..i])
  {
    assert level[i] in Elements(level);
  }

  /** The unforced nodes of a level without repetitions have none. */
  lemma {:induction false} UnforcedDistinct(level: seq<Node>, skip: set<Node>)
    requires Distinct(level)
    ensures Distinct(Unforced(level, skip))
    ensures forall n :: n in Unforced(level, skip) ==> n in level && n !in skip
  {
    if level != [] {
      var front := level[..|level| - 1];
      var last := level[|level| - 1];
      assert Distinct(front) by {
        forall i, j | 0 <= i < j < |front|
          ensures front[i] != front[j]
        {
          assert front[i] == level[i] && front[j] == level[j];
        }
      }
      UnforcedDistinct(front, skip);
      FirstOccurrence(level, |level| - 1, {});
      var u := Unforced(front, skip);
      if last !in skip {
        assert Unforced(level, skip) == u + [last];
        DistinctConcat(u, [last]);
      }
    }
  }
}

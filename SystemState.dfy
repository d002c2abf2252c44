/** One complete state of a Bayesian network together with its weight
    (SystemState.java). A state is an immutable value: the Java constructor
    copies the map and the list it is given, which a datatype does by
    construction, and getProbability is the `probability` field. */
module States {
  import opened DirectedGraph

  datatype SystemState = SystemState(assignment: map<Node, bool>, nodeList: seq<Node>, probability: real)
  {
    /** stateContainsSubstate: every literal (node, value) of `substate`
        holds in this state. A literal on a node the state does not assign
        fails, as the Java map lookup then yields null. */
    predicate ContainsSubstate(substate: map<Node, bool>) {
      forall k :: k in substate ==> k in assignment && assignment[k] == substate[k]
    }
  }

  /** The empty set of literals is contained in every state. */
  lemma EmptySubstateMatches(state: SystemState)
    ensures state.ContainsSubstate(map[])
  {
  }

  /** A literal on a node the state does not assign is never satisfied, and
      a literal whose value differs from the state's is not either. */
  lemma LiteralMismatchFails(state: SystemState, substate: map<Node, bool>, k: Node)
    requires k in substate
    requires k !in state.assignment || state.assignment[k] != substate[k]
    ensures !state.ContainsSubstate(substate)
  {
  }

  /** Matching is monotone: dropping literals keeps a match. */
  lemma FewerLiteralsMatch(state: SystemState, small: map<Node, bool>, large: map<Node, bool>)
    requires forall k :: k in small ==> k in large && large[k] == small[k]
    requires state.ContainsSubstate(large)
    ensures state.ContainsSubstate(small)
  {
  }

  /** The combined map of a query (the posteriori literals overwritten by
      the apriori ones, as putAll does) matches exactly when the apriori
      literals match and so do the posteriori literals on the other nodes;
      for disjoint literal sets, exactly when both halves match. */
  lemma CombinedMatches(state: SystemState, posteriori: map<Node, bool>, apriori: map<Node, bool>)
    ensures state.ContainsSubstate(posteriori + apriori) <==>
      && state.ContainsSubstate(apriori)
      && state.ContainsSubstate(posteriori - apriori.Keys)
    ensures posteriori.Keys !! apriori.Keys ==>
      (state.ContainsSubstate(posteriori + apriori) <==>
        state.ContainsSubstate(posteriori) && state.ContainsSubstate(apriori))
  {
    if posteriori.Keys !! apriori.Keys {
      assert posteriori - apriori.Keys == posteriori;
    }
  }
}

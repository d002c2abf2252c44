/** The weighted states a classification produces, and the conditional
    probability queries answered from them (ClassificationResult.java). */
module Results {
  import opened Wrappers
  import opened DirectedGraph
  import opened Probability
  import opened States

  // ---------------------------------------------------------------------
  // Masses of the states matching a set of literals
  // ---------------------------------------------------------------------

  /** The total weight of the states (getSumOfProbabilities). */
  function TotalMass(states: seq<SystemState>): real {
    if states == [] then 0.0
    else TotalMass(states[..|states| - 1]) + states[|states| - 1].probability
  }

  /** The weight of the states that contain the apriori literals. */
  function AprioriMass(states: seq<SystemState>, apriori: map<Node, bool>): real {
    if states == [] then 0.0
    else
      var last := states[|states| - 1];
      AprioriMass(states[..|states| - 1], apriori) + (if last.ContainsSubstate(apriori) then last.probability else 0.0)
  }

  /** The weight of the states that contain the apriori literals and, among
      those, the combined literals too: the two nested tests of query. */
  function PosterioriMass(states: seq<SystemState>, apriori: map<Node, bool>, combined: map<Node, bool>): real {
    if states == [] then 0.0
    else
      var last := states[|states| - 1];
      PosterioriMass(states[..|states| - 1], apriori, combined)
        + (if last.ContainsSubstate(apriori) && last.ContainsSubstate(combined) then last.probability else 0.0)
  }

  /** The value query returns for the two masses: exactly 0 when the
      numerator is 0 (whatever the denominator), otherwise the quotient; a
      zero denominator under a non-zero numerator is Java's signed infinity. */
  function Ratio(posteriori: real, apriori: real): (r: Double)
    ensures posteriori == 0.0 ==> r == Finite(0.0)
    ensures posteriori != 0.0 && apriori != 0.0 ==> r == Finite(posteriori / apriori)
    ensures r.Finite? <==> posteriori == 0.0 || apriori != 0.0
  {
    if posteriori == 0.0 then Finite(0.0)
    else if apriori == 0.0 then (if posteriori > 0.0 then PositiveInfinity else NegativeInfinity)
    else Finite(posteriori / apriori)
  }

  predicate NonNegativeWeights(states: seq<SystemState>) {
    forall i :: 0 <= i < |states| ==> states[i].probability >= 0.0
  }

  datatype QueryError = CommonVariable

  /** The answer query gives over `states`: an error when a node occurs on
      both sides of the bar, otherwise the ratio of the two masses. */
  function QueryAnswer(states: seq<SystemState>, posteriori: map<Node, bool>, apriori: map<Node, bool>): Result<Double, QueryError> {
    if !(posteriori.Keys !! apriori.Keys) then Failure(CommonVariable)
    else
      var combined := posteriori + apriori;
      Success(Ratio(PosterioriMass(states, apriori, combined), AprioriMass(states, apriori)))
  }

  // ---------------------------------------------------------------------
  // The result object
  // ---------------------------------------------------------------------

  class ClassificationResult {
    var systemStates: seq<SystemState>
    /** The list getNodeList hands out; the classifier appends to it in
        place, which the model writes as an update of this field. */
    var nodeList: seq<Node>

    constructor ()
      ensures systemStates == [] && nodeList == []
    {
      systemStates := [];
      nodeList := [];
    }

    /** query: refuses literal sets that share a node, then sums the weights
        of the apriori matches and, inside them, of the combined matches. */
    method Query(posteriori: map<Node, bool>, apriori: map<Node, bool>) returns (r: Result<Double, QueryError>)
      ensures r == QueryAnswer(systemStates, posteriori, apriori)
    {
      var common := MapKeyIntersect(posteriori, apriori);
      if common {
        return Failure(CommonVariable);
      }
      var combined := posteriori + apriori;
      var aprioriProbability, posterioriProbability := 0.0, 0.0;
      var i := 0;
      while i < |systemStates|
        invariant 0 <= i <= |systemStates|
        invariant aprioriProbability == AprioriMass(systemStates[..i], apriori)
        invariant posterioriProbability == PosterioriMass(systemStates[..i], apriori, combined)
      {
        var state := systemStates[i];
        assert systemStates[..i + 1][..i] == systemStates[..i];
        if state.ContainsSubstate(apriori) {
          aprioriProbability := aprioriProbability + state.probability;
          if state.ContainsSubstate(combined) {
            posterioriProbability := posterioriProbability + state.probability;
          }
        }
        i := i + 1;
      }
      assert systemStates[..i] == systemStates;
      r := Success(Ratio(posterioriProbability, aprioriProbability));
    }

    /** getSumOfProbabilities: the total weight of the recorded states. */
    method GetSumOfProbabilities() returns (probability: real)
      ensures probability == TotalMass(systemStates)
    {
      probability := 0.0;
      var i := 0;
      while i < |systemStates|
        invariant 0 <= i <= |systemStates|
        invariant probability == TotalMass(systemStates[..i])
      {
        assert systemStates[..i + 1][..i] == systemStates[..i];
        probability := probability + systemStates[i].probability;
        i := i + 1;
      }
      assert systemStates[..i] == systemStates;
    }

    /** addSystemState appends one state and changes nothing else. */
    method AddSystemState(state: SystemState)
      modifies this
      ensures systemStates == old(systemStates) + [state]
      ensures nodeList == old(nodeList)
    {
      systemStates := systemStates + [state];
    }
  }

  /** mapKeyIntersect: scans the keys of the smaller map for one the larger
      map contains. */
  method MapKeyIntersect<K, V>(map1: map<K, V>, map2: map<K, V>) returns (r: bool)
    ensures r <==> !(map1.Keys !! map2.Keys)
  {
    var smallerMap, largerMap;
    if |map1| < |map2| {
      smallerMap, largerMap := map1, map2;
    } else {
      smallerMap, largerMap := map2, map1;
    }
    var rest := smallerMap.Keys;
    while rest != {}
      invariant rest <= smallerMap.Keys
      invariant forall k :: k in smallerMap && k !in rest ==> k !in largerMap
    {
      var key :| key in rest;
      if key in largerMap {
        return true;
      }
      rest := rest - {key};
    }
    return false;
  }

  // ---------------------------------------------------------------------
  // Properties of the masses
  // ---------------------------------------------------------------------

  /** Testing the combined literals only inside the apriori matches loses
      nothing: the posteriori mass is the mass of the combined matches. */
  lemma {:induction false} PosterioriIsCombinedMass(states: seq<SystemState>, posteriori: map<Node, bool>, apriori: map<Node, bool>)
    ensures PosterioriMass(states, apriori, posteriori + apriori) == AprioriMass(states, posteriori + apriori)
  {
    if states != [] {
      PosterioriIsCombinedMass(states[..|states| - 1], posteriori, apriori);
      CombinedMatches(states[|states| - 1], posteriori, apriori);
    }
  }

  /** With non-negative weights the posteriori mass lies between 0 and the
      apriori mass. */
  lemma {:induction false} PosterioriAtMostApriori(states: seq<SystemState>, apriori: map<Node, bool>, combined: map<Node, bool>)
    requires NonNegativeWeights(states)
    ensures 0.0 <= PosterioriMass(states, apriori, combined) <= AprioriMass(states, apriori)
  {
    if states != [] {
      PosterioriAtMostApriori(states[..|states| - 1], apriori, combined);
      assert states[|states| - 1].probability >= 0.0;
    }
  }

  /** With non-negative weights query never fails on arithmetic: its answer
      for disjoint literal sets is a finite value between 0 and 1. */
  lemma QueryInUnitRange(states: seq<SystemState>, posteriori: map<Node, bool>, apriori: map<Node, bool>)
    requires NonNegativeWeights(states) && posteriori.Keys !! apriori.Keys
    ensures var r := QueryAnswer(states, posteriori, apriori);
      r.Success? && r.value.Finite? && 0.0 <= r.value.value <= 1.0
  {
    var combined := posteriori + apriori;
    var post, apri := PosterioriMass(states, apriori, combined), AprioriMass(states, apriori);
    PosterioriAtMostApriori(states, apriori, combined);
    if post != 0.0 {
      QuotientAtMostOne(post, apri);
    }
  }

  lemma QuotientAtMostOne(x: real, y: real)
    requires 0.0 < x <= y
    ensures 0.0 <= x / y <= 1.0
  {
    assert x / y * y == x;
  }

  /** When no apriori match satisfies the combined literals, the posteriori
      mass is 0, and query answers exactly 0 -- also when no state matches
      the apriori literals at all. */
  lemma {:induction false} NoCombinedMatchGivesZero(states: seq<SystemState>, apriori: map<Node, bool>, combined: map<Node, bool>)
    requires forall i :: 0 <= i < |states| && states[i].ContainsSubstate(apriori) ==> !states[i].ContainsSubstate(combined)
    ensures PosterioriMass(states, apriori, combined) == 0.0
    ensures Ratio(PosterioriMass(states, apriori, combined), AprioriMass(states, apriori)) == Finite(0.0)
  {
    if states != [] {
      var front := states[..|states| - 1];
      assert forall i :: 0 <= i < |front| ==> front[i] == states[i];
      NoCombinedMatchGivesZero(front, apriori, combined);
    }
  }

  /** Without apriori literals every state matches, so the apriori mass is
      what getSumOfProbabilities returns. */
  lemma {:induction false} EmptyAprioriIsTotal(states: seq<SystemState>)
    ensures AprioriMass(states, map[]) == TotalMass(states)
  {
    if states != [] {
      EmptyAprioriIsTotal(states[..|states| - 1]);
      EmptySubstateMatches(states[|states| - 1]);
    }
  }

  /** The masses of a list extended by one state. */
  lemma MassesOfAppend(states: seq<SystemState>, state: SystemState, apriori: map<Node, bool>)
    ensures TotalMass(states + [state]) == TotalMass(states) + state.probability
    ensures AprioriMass(states + [state], apriori)
         == AprioriMass(states, apriori) + (if state.ContainsSubstate(apriori) then state.probability else 0.0)
  {
    assert (states + [state])[..|states|] == states;
  }
}

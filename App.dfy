/** The console program (App.java) as far as it edits, compiles and
    queries a network. A command reaches a handler as the words its line
    splits into, a query as its line; what the program prints is not
    modelled, and every refusal it reports through error() is a
    CommandError. The program keeps one node per name, the probability of
    every node, a flag telling whether the network changed since it was
    last compiled, and the last classification result. */
module Application {
  import opened Wrappers
  import opened DirectedGraph
  import opened Probability
  import opened Utils
  import opened SortedNodes
  import opened States
  import opened Results
  import opened Classifier
  import opened Text

  /** Why a command is refused: the messages App.error prints. */
  datatype CommandError =
    | MissingTokens
    | BadCommentFormat
    | FormatError
    | BadIdentifier(name: string)
    | BadProbability(text: string, parseError: ParseError)
    | NoSuchNode(name: string)
    | SelfLoop
    | NoNodes
    | NotConnected
    | ClassificationFailed(classifierError: ClassifierError)
    | NoNetworkYet
    | NoTrailingParenthesis
    | NoSingleBar
    | QueryFailed(queryError: QueryError)

  /** What handleQuery does with a line: not a query (the line goes on to
      the next handler), an answer, or a refusal. */
  datatype QueryOutcome = NotAQuery | Answered(value: Double) | Refused(error: CommandError)

  /** Every two nodes are joined by a walk along arcs taken as undirected. */
  ghost predicate ConnectedGraph(nodes: set<Node>)
    reads nodes
  {
    forall a, b :: a in nodes && b in nodes ==> Connected(a, b, nodes)
  }

  ghost predicate HasCycle(nodes: set<Node>)
    reads nodes
  {
    exists p :: IsCycle(p, nodes)
  }

  /** Every key of a node map is the name of its node. */
  predicate NamedByKeys(nodeMap: map<string, Node>) {
    forall k :: k in nodeMap ==> nodeMap[k].name == k
  }

  /** The nodes of a name map whose keys are the names of their nodes have
      unique names, and the map is one-to-one. */
  lemma NamesOfMap(nodeMap: map<string, Node>)
    requires NamedByKeys(nodeMap)
    ensures forall n :: n in nodeMap.Values ==> n.name in nodeMap && nodeMap[n.name] == n
    ensures UniqueNames(nodeMap.Values)
  {
    forall n | n in nodeMap.Values
      ensures n.name in nodeMap && nodeMap[n.name] == n
    {
      var k :| k in nodeMap && nodeMap[k] == n;
    }
  }

  // ---------------------------------------------------------------------
  // The checks the handlers make before they change anything
  // ---------------------------------------------------------------------

  /** The checks of handleNew on `new <name> <probability> [#comment]`,
      in the order the source makes them. */
  function NewCheck(words: seq<string>, parseDouble: string -> Option<Double>): (o: Outcome<CommandError>)
    ensures o.Pass? <==>
      && |words| >= 3 && (|words| >= 4 ==> "#" <= words[3])
      && ValidIdentifier(words[1]) && ParseProbability(words[2], parseDouble).Success?
    ensures o == Fail(MissingTokens) <==> |words| < 3
    ensures o == Fail(BadCommentFormat) <==> |words| >= 4 && !("#" <= words[3])
    ensures o.Fail? && o.error.BadProbability? ==>
      |words| >= 3 && o.error.text == words[2] && ParseProbability(words[2], parseDouble) == Failure(o.error.parseError)
  {
    if |words| < 3 then Fail(MissingTokens)
    else if |words| >= 4 && !("#" <= words[3]) then Fail(BadCommentFormat)
    else if !ValidIdentifier(words[1]) then Fail(BadIdentifier(words[1]))
    else
      match ParseProbability(words[2], parseDouble)
      case Failure(e) => Fail(BadProbability(words[2], e))
      case Success(_) => Pass
  }

  /** The checks of handleDel on `del <name>`. */
  function DelCheck(words: seq<string>): (o: Outcome<CommandError>)
    ensures o.Pass? <==> |words| >= 2 && ValidIdentifier(words[1])
    ensures o == Fail(MissingTokens) <==> |words| < 2
  {
    if |words| < 2 then Fail(MissingTokens)
    else if !ValidIdentifier(words[1]) then Fail(BadIdentifier(words[1]))
    else Pass
  }

  /** The checks shared by handleConnect and handleDisconnect on
      `<command> <tail> <keyword> <head>`, in the order the source makes
      them. */
  function ArcCheck(words: seq<string>, keyword: string, names: set<string>): (o: Outcome<CommandError>)
    ensures o.Pass? <==>
      && |words| >= 4 && words[2] == keyword
      && ValidIdentifier(words[1]) && ValidIdentifier(words[3])
      && words[1] in names && words[3] in names
    ensures o.Fail? && o.error.NoSuchNode? ==> o.error.name !in names
  {
    if |words| < 4 then Fail(MissingTokens)
    else if words[2] != keyword then Fail(FormatError)
    else if !ValidIdentifier(words[1]) then Fail(BadIdentifier(words[1]))
    else if !ValidIdentifier(words[3]) then Fail(BadIdentifier(words[3]))
    else if words[1] !in names then Fail(NoSuchNode(words[1]))
    else if words[3] !in names then Fail(NoSuchNode(words[3]))
    else Pass
  }

  class App {
    /** Each node name mapped to its node. */
    var nodeMap: map<string, Node>
    /** The probability of each node, by name: DirectedGraphNode equality
        and hash code are those of the name. */
    const probabilityMap: ProbabilityMap<string>
    /** The network changed since it was last compiled. */
    var stateModified: bool
    /** The last classification result, kept for queries. */
    var result: Option<ClassificationResult>

    /** The network the handlers keep: names are keys, the arcs stay
        inside the network with both ends agreeing and no self-loop, and
        exactly the nodes have probabilities. */
    ghost predicate Valid()
      reads this`nodeMap, probabilityMap, nodeMap.Values
    {
      && NamedByKeys(nodeMap)
      && WellFormed(nodeMap.Values)
      && probabilityMap.Valid()
      && probabilityMap.entries.Keys == nodeMap.Keys
    }

    ghost function ResultObject(): set<ClassificationResult>
      reads this`result
    {
      if result.Some? then {result.value} else {}
    }

    /** The states of the cached result, if there is one. */
    ghost function CachedStates(): Option<seq<SystemState>>
      reads this`result, ResultObject()
    {
      if result.Some? then Some(result.value.systemStates) else None
    }

    /** The cache is consistent: a network unchanged since compilation has
        a result, and a result has weights adding up to 1 with none
        negative. */
    ghost predicate Cached()
      reads this`stateModified, this`result, ResultObject()
    {
      && (!stateModified ==> result.Some?)
      && (result.Some? ==>
            TotalMass(result.value.systemStates) == 1.0 && NonNegativeWeights(result.value.systemStates))
    }

    /** A new program: no nodes, nothing compiled. */
    constructor ()
      ensures Valid() && Cached()
      ensures nodeMap == map[] && probabilityMap.entries == map[]
      ensures stateModified && result == None
    {
      nodeMap := map[];
      probabilityMap := new ProbabilityMap<string>();
      stateModified := true;
      result := None;
    }

    // -------------------------------------------------------------------
    // new
    // -------------------------------------------------------------------

    /** `name` now has `probability`; a name that was new now maps to a new
        node without arcs, and every other name keeps its node. */
    twostate predicate Defines(name: string, probability: real)
      reads this`nodeMap, probabilityMap, nodeMap.Values
    {
      && nodeMap.Keys == old(nodeMap.Keys) + {name}
      && (forall k :: k in old(nodeMap) ==> nodeMap[k] == old(nodeMap[k]))
      && (name !in old(nodeMap) ==>
            fresh(nodeMap[name]) && nodeMap[name].children == {} && nodeMap[name].parents == {})
      && probabilityMap.entries == old(probabilityMap.entries)[name := probability]
    }

    /** handleNew, with the node of a name already in use kept (see
        HandleNewAsWritten): a valid command gives the node its
        probability, creating it when the name is new, and the network
        counts as changed. A refusal leaves everything as it was. */
    method HandleNew(words: seq<string>, parseDouble: string -> Option<Double>) returns (outcome: Outcome<CommandError>)
      requires Valid()
      modifies this`nodeMap, this`stateModified, probabilityMap
      ensures Valid()
      ensures outcome == NewCheck(words, parseDouble)
      ensures outcome.Fail? ==>
        nodeMap == old(nodeMap) && probabilityMap.entries == old(probabilityMap.entries) && stateModified == old(stateModified)
      ensures outcome.Pass? ==> stateModified && Defines(words[1], ParseProbability(words[2], parseDouble).value)
      ensures old(Cached()) ==> Cached()
    {
      outcome := CheckNew(words, parseDouble);
      if outcome.Fail? {
        return;
      }
      assert ResultObject() !! {probabilityMap};
      stateModified := true;
      Define(words[1], ParseProbability(words[2], parseDouble).value);
      assert unchanged(ResultObject());
    }

    /** The checks of handleNew, in the order the source makes them. */
    static method CheckNew(words: seq<string>, parseDouble: string -> Option<Double>) returns (outcome: Outcome<CommandError>)
      ensures outcome == NewCheck(words, parseDouble)
    {
      if |words| < 3 {
        return Fail(MissingTokens);
      }
      if |words| >= 4 && !("#" <= words[3]) {
        return Fail(BadCommentFormat);
      }
      var nodeName, probabilityString := words[1], words[2];
      var valid := IsValidIdentifier(nodeName);
      if !valid {
        return Fail(BadIdentifier(nodeName));
      }
      var probability := ParseProbability(probabilityString, parseDouble);
      if probability.Failure? {
        return Fail(BadProbability(probabilityString, probability.error));
      }
      return Pass;
    }

    /** Gives `name` its probability, creating its node when it has none. */
    method Define(name: string, probability: real)
      requires Valid() && IsProbability(probability)
      modifies this`nodeMap, probabilityMap
      ensures Valid() && Defines(name, probability)
    {
      if name !in nodeMap {
        var newnode := new Node(name);
        AddIsolated(nodeMap, newnode);
        nodeMap := nodeMap[name := newnode];
      }
      var put := probabilityMap.Put(name, Finite(probability));
    }

    /** handleNew as written: the name is mapped to a new node without
        arcs even when it names a node already, so the neighbours of the
        old node keep arcs to a node outside the network. */
    method HandleNewAsWritten(words: seq<string>, parseDouble: string -> Option<Double>) returns (outcome: Outcome<CommandError>)
      requires Valid()
      modifies this`nodeMap, this`stateModified, probabilityMap
      ensures outcome == NewCheck(words, parseDouble)
      ensures outcome.Fail? ==>
        nodeMap == old(nodeMap) && probabilityMap.entries == old(probabilityMap.entries) && stateModified == old(stateModified)
      ensures outcome.Pass? ==>
        && words[1] in nodeMap && fresh(nodeMap[words[1]]) && nodeMap == old(nodeMap)[words[1] := nodeMap[words[1]]]
        && nodeMap[words[1]].children == {} && nodeMap[words[1]].parents == {}
        && probabilityMap.entries == old(probabilityMap.entries)[words[1] := ParseProbability(words[2], parseDouble).value]
        && stateModified
      ensures outcome.Pass? && words[1] in old(nodeMap) && old(nodeMap[words[1]].children + nodeMap[words[1]].parents) != {} ==>
        !Valid()
    {
      outcome := CheckNew(words, parseDouble);
      if outcome.Fail? {
        return;
      }
      ReplaceNode(words[1]);
      var put := probabilityMap.Put(words[1], Finite(ParseProbability(words[2], parseDouble).value));
      stateModified := true;
    }

    /** The two lines of handleNew that map the name to a new node. */
    method ReplaceNode(name: string)
      requires NamedByKeys(nodeMap) && WellFormed(nodeMap.Values)
      modifies this`nodeMap
      ensures name in nodeMap && fresh(nodeMap[name]) && nodeMap == old(nodeMap)[name := nodeMap[name]]
      ensures nodeMap[name].children == {} && nodeMap[name].parents == {}
      ensures name in old(nodeMap) && old(nodeMap[name].children + nodeMap[name].parents) != {} ==>
        !Closed(nodeMap.Values)
    {
      ghost var before := nodeMap;
      var newnode := new Node(name);
      nodeMap := nodeMap[name := newnode];
      if name in before && before[name].children + before[name].parents != {} {
        ReplacedNodeDangles(before, nodeMap, name);
      }
    }

    // -------------------------------------------------------------------
    // del
    // -------------------------------------------------------------------

    /** `name` and its node are gone, with its probability and every arc
        at it. */
    twostate predicate Deletes(name: string)
      reads this`nodeMap, probabilityMap, nodeMap.Values
    {
      && name in old(nodeMap)
      && nodeMap == old(nodeMap) - {name}
      && probabilityMap.entries == old(probabilityMap.entries) - {name}
      && forall n :: n in nodeMap.Values ==>
           n.children == old(n.children) - {old(nodeMap[name])}
           && n.parents == old(n.parents) - {old(nodeMap[name])}
    }

    /** handleDel: a valid command removes the node of that name, its arcs
        at both ends and its probability, and the network counts as
        changed; an unknown name changes nothing. */
    method HandleDel(words: seq<string>) returns (outcome: Outcome<CommandError>)
      requires Valid()
      modifies this`nodeMap, this`stateModified, probabilityMap, nodeMap.Values
      ensures Valid()
      ensures outcome == DelCheck(words)
      ensures outcome.Fail? || words[1] !in old(nodeMap) ==>
        && nodeMap == old(nodeMap) && probabilityMap.entries == old(probabilityMap.entries)
        && stateModified == old(stateModified)
        && forall n :: n in nodeMap.Values ==> unchanged(n)
      ensures outcome.Pass? && words[1] in old(nodeMap) ==> stateModified && Deletes(words[1])
      ensures old(Cached()) ==> Cached()
    {
      outcome := CheckDel(words);
      if outcome.Fail? {
        return;
      }
      if words[1] in nodeMap {
        assert ResultObject() !! nodeMap.Values;
        stateModified := true;
        Delete(words[1]);
        assert unchanged(ResultObject());
      }
    }

    /** The checks of handleDel. */
    static method CheckDel(words: seq<string>) returns (outcome: Outcome<CommandError>)
      ensures outcome == DelCheck(words)
    {
      if |words| < 2 {
        return Fail(MissingTokens);
      }
      var nodeName := words[1];
      var valid := IsValidIdentifier(nodeName);
      if !valid {
        return Fail(BadIdentifier(nodeName));
      }
      return Pass;
    }

    /** Removes `name`, its node's arcs and its probability. */
    method Delete(name: string)
      requires Valid() && name in nodeMap
      modifies this`nodeMap, probabilityMap, nodeMap.Values
      ensures Valid() && Deletes(name)
    {
      var removed := nodeMap[name];
      ghost var nodes := nodeMap.Values;
      NamesOfMap(nodeMap);
      ValuesRemove(nodeMap, name);
      nodeMap := nodeMap - {name};
      Clear(removed, nodes);
      WellFormedWithout(nodes, removed);
      probabilityMap.Remove(name);
    }

    // -------------------------------------------------------------------
    // connect, disconnect
    // -------------------------------------------------------------------

    /** The arc from the node named `t` to the node named `h` is there now,
        and no other arc changed. */
    twostate predicate Connects(t: string, h: string)
      reads this`nodeMap, nodeMap.Values
    {
      && t in nodeMap && h in nodeMap && nodeMap == old(nodeMap)
      && nodeMap[t].children == old(nodeMap[t].children) + {nodeMap[h]}
      && nodeMap[t].parents == old(nodeMap[t].parents)
      && nodeMap[h].parents == old(nodeMap[h].parents) + {nodeMap[t]}
      && nodeMap[h].children == old(nodeMap[h].children)
      && forall n :: n in nodeMap.Values && n != nodeMap[t] && n != nodeMap[h] ==> unchanged(n)
    }

    /** The arc from the node named `t` to the node named `h` is gone now,
        and no other arc changed. */
    twostate predicate Disconnects(t: string, h: string)
      reads this`nodeMap, nodeMap.Values
    {
      && t in nodeMap && h in nodeMap && nodeMap == old(nodeMap)
      && nodeMap[t].children == old(nodeMap[t].children) - {nodeMap[h]}
      && nodeMap[t].parents == old(nodeMap[t].parents)
      && nodeMap[h].parents == old(nodeMap[h].parents) - {nodeMap[t]}
      && nodeMap[h].children == old(nodeMap[h].children)
      && forall n :: n in nodeMap.Values && n != nodeMap[t] && n != nodeMap[h] ==> unchanged(n)
    }

    /** The arc from the node named `t` to the node named `h` was there
        before. */
    twostate predicate HadArc(t: string, h: string)
      reads this`nodeMap
    {
      t in old(nodeMap) && h in old(nodeMap) && old(nodeMap[h]) in old(nodeMap[t].children)
    }

    /** handleConnect: a valid command on two distinct known names adds the
        arc, and the network counts as changed only when the arc is new. */
    method HandleConnect(words: seq<string>) returns (outcome: Outcome<CommandError>)
      requires Valid()
      modifies this`stateModified, nodeMap.Values
      ensures Valid()
      ensures ArcCheck(words, "to", nodeMap.Keys).Fail? ==> outcome == ArcCheck(words, "to", nodeMap.Keys)
      ensures ArcCheck(words, "to", nodeMap.Keys).Pass? ==>
        outcome == if words[1] == words[3] then Fail(SelfLoop) else Pass
      ensures outcome.Fail? ==>
        stateModified == old(stateModified) && forall n :: n in nodeMap.Values ==> unchanged(n)
      ensures outcome.Pass? ==>
        Connects(words[1], words[3]) && stateModified == (old(stateModified) || !HadArc(words[1], words[3]))
      ensures old(Cached()) ==> Cached()
    {
      outcome := CheckArc(words, "to");
      if outcome.Fail? {
        return;
      }
      var tailName, headName := words[1], words[3];
      if tailName == headName {
        return Fail(SelfLoop);
      }
      var tail, head := nodeMap[tailName], nodeMap[headName];
      if !tail.HasChild(head) {
        assert ResultObject() !! {tail, head};
        stateModified := true;
        AddArc(tail, head);
        assert unchanged(ResultObject());
      }
    }

    /** handleDisconnect: a valid command on two known names removes the
        arc, and the network counts as changed only when the arc was
        there; the same name twice does nothing. */
    method HandleDisconnect(words: seq<string>) returns (outcome: Outcome<CommandError>)
      requires Valid()
      modifies this`stateModified, nodeMap.Values
      ensures Valid()
      ensures outcome == ArcCheck(words, "from", nodeMap.Keys)
      ensures outcome.Fail? || words[1] == words[3] ==>
        stateModified == old(stateModified) && forall n :: n in nodeMap.Values ==> unchanged(n)
      ensures outcome.Pass? && words[1] != words[3] ==>
        Disconnects(words[1], words[3]) && stateModified == (old(stateModified) || HadArc(words[1], words[3]))
      ensures old(Cached()) ==> Cached()
    {
      outcome := CheckArc(words, "from");
      if outcome.Fail? {
        return;
      }
      var tailName, headName := words[1], words[3];
      if tailName == headName {
        return;
      }
      var tail, head := nodeMap[tailName], nodeMap[headName];
      if tail.HasChild(head) {
        assert ResultObject() !! {tail, head};
        stateModified := true;
        RemoveArc(tail, head);
        assert unchanged(ResultObject());
      }
    }

    /** The checks handleConnect and handleDisconnect make before the names
        are compared. */
    method CheckArc(words: seq<string>, keyword: string) returns (outcome: Outcome<CommandError>)
      ensures outcome == ArcCheck(words, keyword, nodeMap.Keys)
    {
      if |words| < 4 {
        return Fail(MissingTokens);
      }
      if words[2] != keyword {
        return Fail(FormatError);
      }
      var tailName, headName := words[1], words[3];
      var valid := IsValidIdentifier(tailName);
      if !valid {
        return Fail(BadIdentifier(tailName));
      }
      valid := IsValidIdentifier(headName);
      if !valid {
        return Fail(BadIdentifier(headName));
      }
      if tailName !in nodeMap {
        return Fail(NoSuchNode(tailName));
      }
      if headName !in nodeMap {
        return Fail(NoSuchNode(headName));
      }
      return Pass;
    }

    /** addChild between two distinct nodes of the network keeps it valid. */
    method AddArc(tail: Node, head: Node)
      requires Valid() && tail in nodeMap.Values && head in nodeMap.Values && tail != head
      modifies tail, head
      ensures Valid()
      ensures tail.children == old(tail.children) + {head} && tail.parents == old(tail.parents)
      ensures head.parents == old(head.parents) + {tail} && head.children == old(head.children)
    {
      tail.AddChild(head);
    }

    /** removeChild between two distinct nodes of the network keeps it
        valid. */
    method RemoveArc(tail: Node, head: Node)
      requires Valid() && tail in nodeMap.Values && head in nodeMap.Values && tail != head
      requires head in tail.children
      modifies tail, head
      ensures Valid()
      ensures tail.children == old(tail.children) - {head} && tail.parents == old(tail.parents)
      ensures head.parents == old(head.parents) - {tail} && head.children == old(head.children)
    {
      tail.RemoveChild(head);
    }

    // -------------------------------------------------------------------
    // list
    // -------------------------------------------------------------------

    /** handleList: compiles the network when it changed, then fails when
        there is still no result. A failed compilation leaves the flag set
        and the old result in place. */
    method HandleList() returns (outcome: Outcome<CommandError>)
      requires Valid()
      modifies this`result, this`stateModified
      ensures Valid()
      ensures old(stateModified) ==> (outcome.Pass? <==> !stateModified)
      ensures stateModified ==> result == old(result)
      ensures !old(stateModified) ==> result == old(result)
      ensures !old(stateModified) ==>
        !stateModified && outcome == if result.Some? then Pass else Fail(NoNetworkYet)
      ensures old(stateModified) && nodeMap.Values == {} ==> outcome == Fail(NoNodes)
      ensures old(stateModified) && nodeMap.Values != {} ==>
        (outcome == Fail(NotConnected) <==> !ConnectedGraph(nodeMap.Values))
      ensures old(stateModified) && nodeMap.Values != {} && ConnectedGraph(nodeMap.Values) ==>
        (outcome == Fail(ClassificationFailed(CyclicNetwork)) <==> HasCycle(nodeMap.Values))
      ensures old(stateModified) && outcome.Pass? ==>
        && nodeMap.Values != {} && ConnectedGraph(nodeMap.Values) && !HasCycle(nodeMap.Values)
        && result.Some? && fresh(result.value)
      ensures old(Cached()) ==> Cached()
      ensures old(stateModified) && outcome.Pass? ==> Cached()
      ensures old(stateModified) ==>
        (outcome.Pass? <==> nodeMap.Values != {} && ConnectedGraph(nodeMap.Values) && !HasCycle(nodeMap.Values))
    {
      if stateModified {
        outcome := Compile();
        if outcome.Fail? {
          return;
        }
      }
      if result.None? {
        return Fail(NoNetworkYet);
      }
      return Pass;
    }

    /** The compilation handleList makes of a changed network: it must have
        nodes and be connected, and the classifier must accept it; the
        result then replaces the cached one and the flag is cleared. */
    method Compile() returns (outcome: Outcome<CommandError>)
      requires Valid()
      modifies this`result, this`stateModified
      ensures outcome.Fail? ==> result == old(result) && stateModified == old(stateModified)
      ensures nodeMap.Values == {} ==> outcome == Fail(NoNodes)
      ensures nodeMap.Values != {} ==> (outcome == Fail(NotConnected) <==> !ConnectedGraph(nodeMap.Values))
      ensures nodeMap.Values != {} && ConnectedGraph(nodeMap.Values) ==>
        (outcome == Fail(ClassificationFailed(CyclicNetwork)) <==> HasCycle(nodeMap.Values))
      ensures outcome.Pass? <==> nodeMap.Values != {} && ConnectedGraph(nodeMap.Values) && !HasCycle(nodeMap.Values)
      ensures outcome.Fail? ==>
        outcome.error in {NoNodes, NotConnected, ClassificationFailed(CyclicNetwork)}
      ensures outcome.Pass? ==>
        && nodeMap.Values != {} && ConnectedGraph(nodeMap.Values) && !HasCycle(nodeMap.Values)
        && !stateModified && result.Some? && fresh(result.value)
        && TotalMass(result.value.systemStates) == 1.0 && NonNegativeWeights(result.value.systemStates)
    {
      NamesOfMap(nodeMap);
      var compiled := CompileNetwork(nodeMap.Values, probabilityMap);
      if compiled.Failure? {
        return Fail(compiled.error);
      }
      result := Some(compiled.value);
      stateModified := false;
      return Pass;
    }

    // -------------------------------------------------------------------
    // queries
    // -------------------------------------------------------------------

    /** handleQuery: a line `p(...)` is a query; a changed network is
        compiled first, and a failed compilation ends the query. The answer
        is then the one Answer gives for the line, the names and the
        cached result. */
    method HandleQuery(line: string) returns (q: QueryOutcome)
      requires Valid()
      modifies this`result, this`stateModified
      ensures Valid()
      ensures q == NotAQuery <==> !("p(" <= line)
      ensures q == NotAQuery ==> result == old(result) && stateModified == old(stateModified)
      ensures "p(" <= line && stateModified ==> q.Refused? && result == old(result)
      ensures !old(stateModified) ==> result == old(result) && !stateModified
      ensures old(stateModified) && "p(" <= line ==>
        (!stateModified <==> nodeMap.Values != {} && ConnectedGraph(nodeMap.Values) && !HasCycle(nodeMap.Values))
      ensures "p(" <= line && !stateModified ==> q == Answer(line, nodeMap, CachedStates())
      ensures old(Cached()) ==> Cached()
      ensures old(Cached()) && q.Answered? ==> q.value.Finite? && 0.0 <= q.value.value <= 1.0
    {
      if !("p(" <= line) {
        return NotAQuery;
      }
      if stateModified {
        var listed := HandleList();
        if stateModified {
          return Refused(listed.error);
        }
      }
      var variables := ReadQuery(line);
      if variables.Failure? {
        return Refused(variables.error);
      }
      if result.None? {
        return Refused(NoNetworkYet);
      }
      var answer := result.value.Query(variables.value.0, variables.value.1);
      if Cached() {
        AnswerInUnitRange(line, nodeMap, CachedStates());
      }
      if answer.Failure? {
        return Refused(QueryFailed(answer.error));
      }
      return Answered(answer.value);
    }

    /** The parsing part of handleQuery: the line is split and both
        literal lists are read. */
    method ReadQuery(line: string) returns (r: Result<(map<Node, bool>, map<Node, bool>), CommandError>)
      requires "p(" <= line
      ensures r == ParsedQuery(line, nodeMap)
    {
      var texts := QueryLine(line);
      if texts.Failure? {
        return Failure(texts.error);
      }
      var posteriori := ReadLiterals(texts.value.0);
      if posteriori.Failure? {
        return Failure(posteriori.error);
      }
      var apriori := ReadLiterals(texts.value.1);
      if apriori.Failure? {
        return Failure(apriori.error);
      }
      return Success((posteriori.value, apriori.value));
    }

    /** The literal loop of handleQuery over `texts`. */
    method ReadLiterals(texts: seq<string>) returns (r: Result<map<Node, bool>, CommandError>)
      ensures r == LiteralMap(Literals(texts), nodeMap, map[])
    {
      var variables: map<Node, bool> := map[];
      var i := 0;
      while i < |texts|
        invariant 0 <= i <= |texts|
        invariant LiteralMap(Literals(texts)[i..], nodeMap, variables) == LiteralMap(Literals(texts), nodeMap, map[])
      {
        var literal := ParseLiteral(texts[i]);
        if literal.name !in nodeMap {
          return Failure(NoSuchNode(literal.name));
        }
        variables := variables[nodeMap[literal.name] := literal.value];
        i := i + 1;
      }
      return Success(variables);
    }
  }

  // ---------------------------------------------------------------------
  // Query lines
  // ---------------------------------------------------------------------

  /** A literal of a query: `X` asks for X on, `not X` for X off. */
  datatype Literal = Literal(name: string, value: bool)

  /** How handleQuery reads one literal: trimmed, then a leading "not "
      negates it. */
  function ParseLiteral(text: string): (l: Literal)
    ensures l.value <==> !("not " <= Trim(text))
    ensures l.value ==> l.name == Trim(text)
    ensures !l.value ==> "not " + l.name == Trim(text)
  {
    var t := Trim(text);
    if "not " <= t then
      assert t == "not " + t[4..];
      Literal(t[4..], false)
    else Literal(t, true)
  }

  /** How a literal is written in a query. */
  function LiteralText(l: Literal): string {
    if l.value then l.name else "not " + l.name
  }

  /** A name a query can mention: a valid identifier that does not end in
      a character trim removes (an identifier may end in an
      identifier-ignorable control character). */
  predicate QueryName(name: string) {
    ValidIdentifier(name) && !Blank(name[|name| - 1])
  }

  /** Reading a written literal gives it back. */
  lemma LiteralRoundTrip(l: Literal)
    requires QueryName(l.name)
    ensures ParseLiteral(LiteralText(l)) == l
  {
    IdentifierHasNoSeparator(l.name);
    var t := LiteralText(l);
    TrimmedIsFixed(t);
    if l.value && |l.name| >= 4 {
      assert l.name[3] != ' ';
    }
  }

  /** A written literal with a query name is not empty, has no blank at
      either end and holds neither separator of a query line. */
  lemma LiteralTextShape(l: Literal)
    requires QueryName(l.name)
    ensures LiteralText(l) != [] && !Blank(LiteralText(l)[0]) && !Blank(LiteralText(l)[|LiteralText(l)| - 1])
    ensures ',' !in LiteralText(l) && '|' !in LiteralText(l)
  {
    IdentifierHasNoSeparator(l.name);
    var t := LiteralText(l);
    if !l.value {
      assert t == "not " + l.name;
      forall i | 0 <= i < |t|
        ensures t[i] != ',' && t[i] != '|'
      {
        if i >= 4 {
          assert t[i] == l.name[i - 4];
        }
      }
    }
  }

  /** The literals written one after another. */
  function Texts(ls: seq<Literal>): (t: seq<string>)
    ensures |t| == |ls| && forall i :: 0 <= i < |ls| ==> t[i] == LiteralText(ls[i])
  {
    if ls == [] then [] else [LiteralText(ls[0])] + Texts(ls[1..])
  }

  /** A query line as it is typed: `p(` the posteriori literals separated
      by commas, a bar, the apriori literals, `)`. */
  function QueryText(posteriori: seq<Literal>, apriori: seq<Literal>): string
    requires posteriori != [] && apriori != []
  {
    "p(" + Join(Texts(posteriori), ',') + "|" + Join(Texts(apriori), ',') + ")"
  }

  /** The comma-joined literals of a list of query names: no bar, no blank
      at either end, and split at the commas they read back as the
      literals. */
  lemma JoinedLiterals(ls: seq<Literal>)
    requires ls != [] && forall i :: 0 <= i < |ls| ==> QueryName(ls[i].name)
    ensures var s := Join(Texts(ls), ',');
      && s != [] && !Blank(s[0]) && !Blank(s[|s| - 1]) && '|' !in s
      && Split(s, ',') == Texts(ls)
      && Literals(Texts(ls)) == ls
  {
    var t := Texts(ls);
    forall i | 0 <= i < |ls|
      ensures t[i] != [] && ',' !in t[i] && '|' !in t[i]
    {
      LiteralTextShape(ls[i]);
    }
    LiteralTextShape(ls[0]);
    LiteralTextShape(ls[|ls| - 1]);
    JoinedTexts(t);
    LiteralsOfTexts(ls);
  }

  /** Reading back written literals with query names gives them back. */
  lemma LiteralsOfTexts(ls: seq<Literal>)
    requires forall i :: 0 <= i < |ls| ==> QueryName(ls[i].name)
    ensures Literals(Texts(ls)) == ls
  {
    var r := Literals(Texts(ls));
    forall i | 0 <= i < |ls|
      ensures r[i] == ls[i]
    {
      LiteralRoundTrip(ls[i]);
    }
  }

  /** Comma-joined texts without commas or bars, the first not starting
      and the last not ending with a blank, split back into themselves. */
  lemma JoinedTexts(t: seq<string>)
    requires t != [] && forall i :: 0 <= i < |t| ==> t[i] != [] && ',' !in t[i] && '|' !in t[i]
    requires !Blank(t[0][0]) && !Blank(t[|t| - 1][|t[|t| - 1]| - 1])
    ensures var s := Join(t, ',');
      && s != [] && !Blank(s[0]) && !Blank(s[|s| - 1]) && '|' !in s
      && Split(s, ',') == t
  {
    var s := Join(t, ',');
    JoinEnds(t, ',');
    assert s[0] == t[0][0];
    assert s[|s| - 1] == t[|t| - 1][|t[|t| - 1]| - 1];
    JoinAvoids(t, ',', '|');
    JoinSplit(t, ',');
  }

  /** Reading a query line typed from literals with query names gives the
      two literal lists back. */
  lemma QueryRoundTrip(posteriori: seq<Literal>, apriori: seq<Literal>)
    requires posteriori != [] && apriori != []
    requires forall i :: 0 <= i < |posteriori| ==> QueryName(posteriori[i].name)
    requires forall i :: 0 <= i < |apriori| ==> QueryName(apriori[i].name)
    ensures "p(" <= QueryText(posteriori, apriori)
    ensures QueryLine(QueryText(posteriori, apriori)) == Success((Texts(posteriori), Texts(apriori)))
    ensures Literals(Texts(posteriori)) == posteriori && Literals(Texts(apriori)) == apriori
  {
    JoinedLiterals(posteriori);
    JoinedLiterals(apriori);
    BarQuery(Join(Texts(posteriori), ','), Join(Texts(apriori), ','));
  }

  /** A query line whose two bar-free sides have no blank at their outer
      ends reads as those two sides split at the commas. */
  lemma BarQuery(front: string, back: string)
    requires front != [] && back != [] && !Blank(front[0]) && !Blank(back[|back| - 1])
    requires '|' !in front && '|' !in back
    ensures "p(" <= "p(" + front + "|" + back + ")"
    ensures QueryLine("p(" + front + "|" + back + ")") == Success((Split(front, ','), Split(back, ',')))
  {
    var line := "p(" + front + "|" + back + ")";
    assert line[2..|line| - 1] == front + "|" + back;
    BarSplit(front, back);
  }

  /** Two bar-free parts without blanks at the outer ends, joined by a
      bar, trim to themselves and split back at the bar. */
  lemma BarSplit(front: string, back: string)
    requires front != [] && back != [] && !Blank(front[0]) && !Blank(back[|back| - 1])
    requires '|' !in front && '|' !in back
    ensures Split(Trim(front + "|" + back), '|') == [front, back]
  {
    var inner := front + "|" + back;
    assert inner[0] == front[0] && inner[|inner| - 1] == back[|back| - 1];
    TrimmedIsFixed(inner);
    assert Join([front, back], '|') == inner by {
      assert [front, back][..1] == [front];
    }
    JoinSplit([front, back], '|');
  }

  /** The two literal lists of `p(<posteriori>|<apriori>)`, as handleQuery
      splits the line: the text between "p(" and the closing parenthesis is
      trimmed and split at '|' into exactly two parts, each then split at
      ','. */
  function QueryLine(line: string): (r: Result<(seq<string>, seq<string>), CommandError>)
    requires "p(" <= line
    ensures r == Failure(NoTrailingParenthesis) <==> line[|line| - 1] != ')'
    ensures r.Success? ==>
      (forall i :: 0 <= i < |r.value.0| ==> ',' !in r.value.0[i])
      && (forall i :: 0 <= i < |r.value.1| ==> ',' !in r.value.1[i])
  {
    if line[|line| - 1] != ')' then Failure(NoTrailingParenthesis)
    else
      var parts := Split(Trim(line[2..|line| - 1]), '|');
      if |parts| != 2 then Failure(NoSingleBar)
      else Success((Split(parts[0], ','), Split(parts[1], ',')))
  }

  /** Each text read as a literal. */
  function Literals(texts: seq<string>): (ls: seq<Literal>)
    ensures |ls| == |texts| && forall i :: 0 <= i < |texts| ==> ls[i] == ParseLiteral(texts[i])
  {
    if texts == [] then [] else [ParseLiteral(texts[0])] + Literals(texts[1..])
  }

  /** The literal loop of handleQuery from the variables `m`: the first
      literal naming no node stops it, and a later literal on a node
      overrides an earlier one. */
  function LiteralMap(ls: seq<Literal>, nodeMap: map<string, Node>, m: map<Node, bool>): Result<map<Node, bool>, CommandError>
  {
    if ls == [] then Success(m)
    else if ls[0].name !in nodeMap then Failure(NoSuchNode(ls[0].name))
    else LiteralMap(ls[1..], nodeMap, m[nodeMap[ls[0].name] := ls[0].value])
  }

  /** The node `n` is what the literal at `i` names. */
  ghost predicate Names(ls: seq<Literal>, nodeMap: map<string, Node>, i: int, n: Node)
    requires 0 <= i < |ls|
  {
    ls[i].name in nodeMap && nodeMap[ls[i].name] == n
  }

  /** No literal after the one at `i` has the same name. */
  ghost predicate LastOfItsName(ls: seq<Literal>, i: int)
    requires 0 <= i < |ls|
  {
    forall j :: i < j < |ls| ==> ls[j].name != ls[i].name
  }

  /** The literal at `i` names no node and every literal before it
      does. */
  ghost predicate FirstUnknown(ls: seq<Literal>, nodeMap: map<string, Node>, i: int)
    requires 0 <= i < |ls|
  {
    ls[i].name !in nodeMap && forall j :: 0 <= j < i ==> ls[j].name in nodeMap
  }

  /** The literal loop fails just when a literal names no node, and then
      on the first such literal. */
  lemma {:induction false} LiteralMapFailure(ls: seq<Literal>, nodeMap: map<string, Node>, m: map<Node, bool>)
    ensures LiteralMap(ls, nodeMap, m).Success? <==> forall i :: 0 <= i < |ls| ==> ls[i].name in nodeMap
    ensures LiteralMap(ls, nodeMap, m).Failure? ==>
      exists i :: 0 <= i < |ls| && FirstUnknown(ls, nodeMap, i)
        && LiteralMap(ls, nodeMap, m).error == NoSuchNode(ls[i].name)
  {
    if ls != [] {
      if ls[0].name !in nodeMap {
        assert FirstUnknown(ls, nodeMap, 0);
      } else {
        var rest := ls[1..];
        var m' := m[nodeMap[ls[0].name] := ls[0].value];
        LiteralMapFailure(rest, nodeMap, m');
        if LiteralMap(ls, nodeMap, m).Failure? {
          var i :| 0 <= i < |rest| && FirstUnknown(rest, nodeMap, i)
            && LiteralMap(rest, nodeMap, m').error == NoSuchNode(rest[i].name);
          assert FirstUnknown(ls, nodeMap, i + 1);
        }
      }
    }
  }

  /** The literal loop gives each node named by a literal the value of the
      last literal with its name. */
  lemma {:induction false} LastLiteralWins(ls: seq<Literal>, nodeMap: map<string, Node>, m: map<Node, bool>, i: int)
    requires NamedByKeys(nodeMap)
    requires LiteralMap(ls, nodeMap, m).Success?
    requires 0 <= i < |ls| && LastOfItsName(ls, i)
    ensures ls[i].name in nodeMap
    ensures nodeMap[ls[i].name] in LiteralMap(ls, nodeMap, m).value
    ensures LiteralMap(ls, nodeMap, m).value[nodeMap[ls[i].name]] == ls[i].value
  {
    var n0 := nodeMap[ls[0].name];
    var m' := m[n0 := ls[0].value];
    var rest := ls[1..];
    if i == 0 {
      forall j | 0 <= j < |rest|
        ensures !Names(rest, nodeMap, j, n0)
      {
        assert rest[j] == ls[j + 1];
      }
      UnnamedKept(rest, nodeMap, m', n0);
    } else {
      assert LastOfItsName(rest, i - 1) by {
        forall j | i - 1 < j < |rest|
          ensures rest[j].name != rest[i - 1].name
        {
          assert rest[j] == ls[j + 1];
        }
      }
      LastLiteralWins(rest, nodeMap, m', i - 1);
    }
  }

  /** A node of `m` no literal names keeps its value through the literal
      loop. */
  lemma {:induction false} UnnamedKept(ls: seq<Literal>, nodeMap: map<string, Node>, m: map<Node, bool>, n: Node)
    requires LiteralMap(ls, nodeMap, m).Success?
    requires n in m && forall i :: 0 <= i < |ls| ==> !Names(ls, nodeMap, i, n)
    ensures n in LiteralMap(ls, nodeMap, m).value && LiteralMap(ls, nodeMap, m).value[n] == m[n]
  {
    if ls != [] {
      var rest := ls[1..];
      assert !Names(ls, nodeMap, 0, n);
      forall j | 0 <= j < |rest|
        ensures !Names(rest, nodeMap, j, n)
      {
        assert !Names(ls, nodeMap, j + 1, n);
      }
      UnnamedKept(rest, nodeMap, m[nodeMap[ls[0].name] := ls[0].value], n);
    }
  }

  /** The literal loop adds to `m` only nodes some literal names. */
  lemma {:induction false} OnlyNamedAdded(ls: seq<Literal>, nodeMap: map<string, Node>, m: map<Node, bool>, n: Node)
    requires LiteralMap(ls, nodeMap, m).Success?
    requires n in LiteralMap(ls, nodeMap, m).value
    ensures n in m || exists i :: 0 <= i < |ls| && Names(ls, nodeMap, i, n)
  {
    if ls != [] {
      var n0 := nodeMap[ls[0].name];
      var rest := ls[1..];
      OnlyNamedAdded(rest, nodeMap, m[n0 := ls[0].value], n);
      if n == n0 {
        assert Names(ls, nodeMap, 0, n);
      } else if n !in m {
        var j :| 0 <= j < |rest| && Names(rest, nodeMap, j, n);
        assert Names(ls, nodeMap, j + 1, n);
      }
    }
  }

  /** The posteriori and apriori variables of a query line, or why it is
      refused. */
  function ParsedQuery(line: string, nodeMap: map<string, Node>): Result<(map<Node, bool>, map<Node, bool>), CommandError>
    requires "p(" <= line
  {
    match QueryLine(line)
    case Failure(e) => Failure(e)
    case Success(texts) =>
      match LiteralMap(Literals(texts.0), nodeMap, map[])
      case Failure(e) => Failure(e)
      case Success(posteriori) =>
        match LiteralMap(Literals(texts.1), nodeMap, map[])
        case Failure(e) => Failure(e)
        case Success(apriori) => Success((posteriori, apriori))
  }

  /** What a query line asks of the cached states, or why it is refused,
      once the network is compiled. */
  function Answer(line: string, nodeMap: map<string, Node>, states: Option<seq<SystemState>>): QueryOutcome
    requires "p(" <= line
  {
    match ParsedQuery(line, nodeMap)
    case Failure(e) => Refused(e)
    case Success(variables) =>
      if states.None? then Refused(NoNetworkYet)
      else
        match QueryAnswer(states.value, variables.0, variables.1)
        case Failure(e) => Refused(QueryFailed(e))
        case Success(v) => Answered(v)
  }

  /** Over states with no negative weight every answer is a probability. */
  lemma AnswerInUnitRange(line: string, nodeMap: map<string, Node>, states: Option<seq<SystemState>>)
    requires "p(" <= line
    requires states.Some? ==> NonNegativeWeights(states.value)
    ensures Answer(line, nodeMap, states).Answered? ==>
      Answer(line, nodeMap, states).value.Finite? && 0.0 <= Answer(line, nodeMap, states).value.value <= 1.0
  {
    var q := Answer(line, nodeMap, states);
    if q.Answered? {
      var variables := ParsedQuery(line, nodeMap).value;
      QueryInUnitRange(states.value, variables.0, variables.1);
    }
  }

  // ---------------------------------------------------------------------
  // Compilation
  // ---------------------------------------------------------------------

  /** The checks and the classify call of handleList on the nodes of the
      network: there must be nodes, they must be connected, and the
      classifier must accept them. */
  method CompileNetwork(nodes: set<Node>, probabilityMap: ProbabilityMap<string>)
      returns (r: Result<ClassificationResult, CommandError>)
    requires WellFormed(nodes) && UniqueNames(nodes)
    requires probabilityMap.Valid() && forall n :: n in nodes ==> probabilityMap.Contains(n.name)
    ensures r == Failure(NoNodes) <==> nodes == {}
    ensures nodes != {} ==> (r == Failure(NotConnected) <==> !ConnectedGraph(nodes))
    ensures nodes != {} && ConnectedGraph(nodes) ==> (r == Failure(ClassificationFailed(CyclicNetwork)) <==> HasCycle(nodes))
    ensures r.Failure? ==> r.error in {NoNodes, NotConnected, ClassificationFailed(CyclicNetwork)}
    ensures r.Success? ==>
      && nodes != {} && ConnectedGraph(nodes) && !HasCycle(nodes)
      && fresh(r.value) && TotalMass(r.value.systemStates) == 1.0 && NonNegativeWeights(r.value.systemStates)
  {
    var network := ListOf(nodes);
    if network == [] {
      return Failure(NoNodes);
    }
    var connected := IsConnected(network, nodes);
    if !connected {
      return Failure(NotConnected);
    }
    var classified := ClassifyNetwork(network, probabilityMap, nodes);
    if classified.Failure? {
      return Failure(ClassificationFailed(classified.error));
    }
    return Success(classified.value);
  }

  /** The connectivity test of handleList: the component findEntireGraph
      lists from the first node must be as large as the network. */
  method IsConnected(network: seq<Node>, ghost nodes: set<Node>) returns (connected: bool)
    requires network != [] && Distinct(network) && |network| == |nodes|
    requires forall x :: x in network <==> x in nodes
    requires Closed(nodes) && Symmetric(nodes) && UniqueNames(nodes)
    ensures connected <==> ConnectedGraph(nodes)
  {
    var component := FindComponent(network[0], nodes);
    ComponentSize(component, network, network[0], nodes);
    connected := !(|component| < |network|);
  }

  /** The classify call of handleList on a connected network whose every
      node has a probability: it fails just when the network has a
      cycle. */
  method ClassifyNetwork(network: seq<Node>, probabilityMap: ProbabilityMap<string>, ghost nodes: set<Node>)
      returns (r: Result<ClassificationResult, ClassifierError>)
    requires network != [] && forall x :: x in network <==> x in nodes
    requires WellFormed(nodes) && UniqueNames(nodes) && ConnectedGraph(nodes)
    requires probabilityMap.Valid() && forall n :: n in nodes ==> probabilityMap.Contains(n.name)
    ensures r.Failure? <==> HasCycle(nodes)
    ensures r.Failure? ==> r.error == CyclicNetwork
    ensures r.Success? ==>
      fresh(r.value) && TotalMass(r.value.systemStates) == 1.0 && NonNegativeWeights(r.value.systemStates)
  {
    AllMapped(network[0], nodes, probabilityMap);
    CycleAnywhere(network[0], nodes);
    r := Classify(network, probabilityMap, nodes);
  }

  /** The clear() that handleDel calls on the removed node, which
      DirectedGraphNode does not define, taken as the removal of every arc
      at `node`, one removeChild at a time. */
  method Clear(node: Node, ghost nodes: set<Node>)
    requires node in nodes && WellFormed(nodes)
    modifies nodes
    ensures WellFormed(nodes) && node.children == {} && node.parents == {}
    ensures forall n :: n in nodes && n != node ==>
      n.children == old(n.children) - {node} && n.parents == old(n.parents) - {node}
  {
    ClearChildren(node, nodes);
    ClearParents(node, nodes);
  }

  /** The arcs from `node` removed, one removeChild at a time. */
  method ClearChildren(node: Node, ghost nodes: set<Node>)
    requires node in nodes && WellFormed(nodes)
    modifies nodes
    ensures WellFormed(nodes) && node.children == {} && node.parents == old(node.parents)
    ensures forall n :: n in nodes && n != node ==>
      n.children == old(n.children) && n.parents == old(n.parents) - {node}
  {
    while node.children != {}
      invariant WellFormed(nodes) && node.parents == old(node.parents)
      invariant forall n :: n in nodes && n != node ==>
        n.children == old(n.children) && n.parents - {node} == old(n.parents) - {node}
      decreases node.children
    {
      var c :| c in node.children;
      node.RemoveChild(c);
    }
  }

  /** The arcs into `node` removed, one removeChild at a time. */
  method ClearParents(node: Node, ghost nodes: set<Node>)
    requires node in nodes && WellFormed(nodes) && node.children == {}
    modifies nodes
    ensures WellFormed(nodes) && node.children == {} && node.parents == {}
    ensures forall n :: n in nodes && n != node ==>
      n.children == old(n.children) - {node} && n.parents == old(n.parents)
  {
    while node.parents != {}
      invariant WellFormed(nodes) && node.children == {}
      invariant forall n :: n in nodes && n != node ==>
        n.children - {node} == old(n.children) - {node} && n.parents == old(n.parents)
      decreases node.parents
    {
      var p :| p in node.parents;
      p.RemoveChild(node);
    }
  }

  /** Every node a walk from `start` reaches has a probability when every
      node of the network has one. */
  lemma AllMapped(start: Node, nodes: set<Node>, probabilityMap: ProbabilityMap<string>)
    requires forall n :: n in nodes ==> probabilityMap.Contains(n.name)
    ensures forall n :: Connected(start, n, nodes) ==> probabilityMap.Contains(n.name)
  {
    forall n | Connected(start, n, nodes)
      ensures probabilityMap.Contains(n.name)
    {
      var w :| WalkFrom(start, w, n, nodes);
      assert w[|w| - 1] in nodes;
    }
  }

  /** A new node without arcs can join a well-formed network under its
      own name. */
  lemma AddIsolated(nodeMap: map<string, Node>, node: Node)
    requires NamedByKeys(nodeMap)
    requires WellFormed(nodeMap.Values)
    requires node !in nodeMap.Values && node.name !in nodeMap
    requires node.children == {} && node.parents == {}
    ensures NamedByKeys(nodeMap[node.name := node])
    ensures WellFormed(nodeMap[node.name := node].Values)
  {
    ValuesAdd(nodeMap, node.name, node);
  }

  lemma ValuesAdd<K, V>(m: map<K, V>, k: K, v: V)
    requires k !in m
    ensures m[k := v].Values == m.Values + {v}
  {
    forall x | x in m[k := v].Values
      ensures x in m.Values + {v}
    {
      var j :| j in m[k := v] && m[k := v][j] == x;
      if j != k {
        assert m[j] == x;
      }
    }
    forall x | x in m.Values
      ensures x in m[k := v].Values
    {
      var j :| j in m && m[j] == x;
      assert m[k := v][j] == x;
    }
    assert m[k := v][k] == v;
  }

  lemma ValuesRemove<K, V>(m: map<K, V>, k: K)
    requires k in m
    requires forall a, b :: a in m && b in m && m[a] == m[b] ==> a == b
    ensures (m - {k}).Values == m.Values - {m[k]}
  {
    forall x | x in m.Values - {m[k]}
      ensures x in (m - {k}).Values
    {
      var j :| j in m && m[j] == x;
      assert (m - {k})[j] == x;
    }
  }

  /** A node no other node has arcs to can leave a well-formed graph. */
  lemma WellFormedWithout(nodes: set<Node>, node: Node)
    requires WellFormed(nodes)
    requires forall n :: n in nodes && n != node ==> node !in n.children && node !in n.parents
    ensures WellFormed(nodes - {node})
  {
  }

  /** The finding of handleNew: when the replaced node had an arc, its
      neighbour, still in the network, has an arc to a node outside it. */
  lemma ReplacedNodeDangles(before: map<string, Node>, after: map<string, Node>, name: string)
    requires NamedByKeys(before)
    requires WellFormed(before.Values)
    requires name in before && before[name].children + before[name].parents != {}
    requires name in after && after[name] != before[name]
    requires forall k :: k in before && k != name ==> k in after && after[k] == before[k]
    requires forall k :: k in after ==> k in before || k == name
    ensures !Closed(after.Values)
  {
    NamesOfMap(before);
    var old0 := before[name];
    var n :| n in old0.children + old0.parents;
    assert n in before.Values && n != old0;
    assert n.name != name;
    assert n in after.Values by {
      assert after[n.name] == n;
    }
    assert old0 !in after.Values;
    assert old0 in n.children + n.parents;
  }

  /** The component findEntireGraph lists is smaller than the network
      exactly when the network is not connected. */
  lemma ComponentSize(component: seq<Node>, network: seq<Node>, start: Node, nodes: set<Node>)
    requires Symmetric(nodes) && start in nodes
    requires Distinct(component) && Distinct(network) && |network| == |nodes|
    requires forall x :: x in network <==> x in nodes
    requires forall n :: n in component <==> Connected(start, n, nodes)
    ensures |component| < |network| <==> !ConnectedGraph(nodes)
  {
    var inside := set x | x in component;
    DistinctCardinality(component);
    assert inside <= nodes by {
      forall n | n in inside
        ensures n in nodes
      {
        var w :| WalkFrom(start, w, n, nodes);
      }
    }
    if ConnectedGraph(nodes) {
      assert inside == nodes;
    } else {
      if inside == nodes {
        ConnectedFromOne(start, nodes);
      }
      StrictSubsetCardinality(inside, nodes);
    }
  }

  /** A network whose every node is joined to one node is connected. */
  lemma ConnectedFromOne(start: Node, nodes: set<Node>)
    requires Symmetric(nodes) && start in nodes
    requires forall n :: n in nodes ==> Connected(start, n, nodes)
    ensures ConnectedGraph(nodes)
  {
    forall a, b | a in nodes && b in nodes
      ensures Connected(a, b, nodes)
    {
      var u :| WalkFrom(start, u, a, nodes);
      var v :| WalkFrom(start, v, b, nodes);
      ReverseWalk(u, nodes);
      JoinWalks(a, Reversed(u), start, v, b, nodes);
    }
  }

  /** In a connected network a cycle can be reached from any node just
      when there is one. */
  lemma CycleAnywhere(start: Node, nodes: set<Node>)
    requires start in nodes
    ensures ConnectedGraph(nodes) ==> (CycleReachable(start, nodes) <==> HasCycle(nodes))
    ensures CycleReachable(start, nodes) ==> HasCycle(nodes)
  {
    if ConnectedGraph(nodes) && HasCycle(nodes) {
      var p :| IsCycle(p, nodes);
      assert Connected(start, p[0], nodes);
    }
  }
}

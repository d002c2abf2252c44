# BayesianNetworkQuery in Dafny

A model of the core of BayesianNetworkQuery, a console program for Bayesian
networks of boolean variables. The user defines nodes, each with the
probability of being ON, and connects them with arcs. The program then
compiles the network into the list of all its system states with their
probabilities, and answers queries of the form
`p(a, not b | c)`.

The model covers these parts of the program:

- **The graph** (`DirectedGraphNode.dfy`). A `Node` class has a name and
  its sets of children and parents. Arcs are added and removed at both
  ends, and self-loops are refused. Comparison, equality and the 32-bit
  string hash are modelled by name.
- **The probability map** (`ProbabilityMap.dfy`). It checks its argument:
  NaN, a value below 0 and a value above 1 are each refused with their
  own error. Java doubles are modelled by a `Double` datatype: NaN, the
  two infinities, and finite reals.
- **Graph utilities** (`Utils.dfy`):
  - the breadth-first search for the weakly connected component
    (`FindEntireGraph`);
  - the three-colour depth-first cycle search (`Dfs`, `GraphIsAcyclic`);
  - the identifier check and the probability parser.
- **The classifier** (`BayesNetworkClassifier.dfy`, with `LevelOrder.dfy`,
  `Exploration.dfy`, `Combinations.dfy` and `SortedNodes.dfy`). The
  constructor checks the network: it must not be empty, must be acyclic,
  and must map every node to a probability. `classifyImpl` then walks the
  network level by level from the roots. On each level it:
  - prunes the level to the nodes whose parents are all decided;
  - forces OFF every node with an OFF parent, and every node of
    probability 0 (a node of probability 1 is forced ON);
  - enumerates the remaining nodes' ON/OFF combinations with a binary
    counter, recursing once per combination;
  - records one system state per complete assignment.

  The proofs show the following:
  - the counter visits the assignments 0 .. 2^k-1 in order;
  - the weights of all assignments sum to 1;
  - the recursion leaves the network, the values already decided and the
    visited set as it found them;
  - every level is pruned as `Prune` says;
  - the recorded states have non-negative weights that add up to exactly 1.
- **The classification result** (`ClassificationResult.dfy`,
  `SystemState.dfy`). The result is the list of states. A query is answered
  as the ratio of the mass of the states that match both sides of the bar
  to the mass of the states that match the right-hand side. The proofs
  show that every answer lies in [0, 1].
- **The console commands** (`App.dfy`, with the string operations of
  `Text.dfy`). The model covers `new`, `del`, `connect`, `disconnect`,
  `list` (compilation) and queries, on an `App` object that holds the node
  map, the probability map, the modification flag and the cached result.
  Every command keeps the graph well formed (handleNew as written does
  not; see Findings): arcs are symmetric, there are no self-loops, and the
  nodes are closed under their arcs. The query
  parser is proved to read back the literals of a query it is given as
  text.

The whole model lives in one module per source file, plus `Wrappers.dfy`
(Option, Result and Outcome), `Text.dfy` (`String.trim` and
`String.split`) and the helper modules named above.

## Model

| member | source | states |
|---|---|---|
| DirectedGraph.Node.constructor | src/main/java/net/coderodde/ai/bayesiannetwork/DirectedGraphNode.java:20-23 | a new node has the given name and no children or parents |
| DirectedGraph.Node.AddChild | src/main/java/net/coderodde/ai/bayesiannetwork/DirectedGraphNode.java:25-34 | a self-loop changes nothing; otherwise the child joins the children and this node joins the child's parents, nothing else changes, and an arc that is already there stays as it was |
| DirectedGraph.Node.RemoveChild | src/main/java/net/coderodde/ai/bayesiannetwork/DirectedGraphNode.java:40-45 | a missing arc changes nothing; otherwise the arc is removed at both ends and the other sets are untouched |
| DirectedGraph.CompareNamesZero | src/main/java/net/coderodde/ai/bayesiannetwork/DirectedGraphNode.java:64-67 | String.compareTo on names is 0 exactly when the names are equal |
| DirectedGraph.CompareNamesAntisymmetric | src/main/java/net/coderodde/ai/bayesiannetwork/DirectedGraphNode.java:64-67 | comparing the other way round negates the result |
| DirectedGraph.CompareNamesTransitive | src/main/java/net/coderodde/ai/bayesiannetwork/DirectedGraphNode.java:64-67 | the name order is transitive |
| DirectedGraph.NameLessTotal | src/main/java/net/coderodde/ai/bayesiannetwork/DirectedGraphNode.java:64-67 | any two names are equal or ordered one way or the other |
| DirectedGraph.CompareTo | src/main/java/net/coderodde/ai/bayesiannetwork/DirectedGraphNode.java:64-67 | compareTo is 0 exactly when equals holds, and it is antisymmetric |
| DirectedGraph.ToInt32 | src/main/java/net/coderodde/ai/bayesiannetwork/DirectedGraphNode.java:69-72 | the hash arithmetic wraps to a signed 32-bit value congruent to the exact value modulo 2^32 |
| DirectedGraph.EqualsConsistent | src/main/java/net/coderodde/ai/bayesiannetwork/DirectedGraphNode.java:64-81 | equal nodes have equal hash codes and compare as 0 |
| Probability.CheckProbability | src/main/java/net/coderodde/ai/bayesiannetwork/ProbabilityMap.java:43-57 | a value passes exactly when it is a finite number in [0, 1]; NaN, a value below 0 (or minus infinity) and a value above 1 (or plus infinity) each fail with their own error |
| Probability.ProbabilityMap.constructor | src/main/java/net/coderodde/ai/bayesiannetwork/ProbabilityMap.java:16 | the map starts empty |
| Probability.ProbabilityMap.Put | src/main/java/net/coderodde/ai/bayesiannetwork/ProbabilityMap.java:18-22 | the outcome is the probability check; on success only the key's entry changes, and on failure the map is untouched |
| Probability.ProbabilityMap.Get | src/main/java/net/coderodde/ai/bayesiannetwork/ProbabilityMap.java:24-33 | a value is returned exactly for a key in the map, and it is a probability |
| Probability.ProbabilityMap.Remove | src/main/java/net/coderodde/ai/bayesiannetwork/ProbabilityMap.java:39-41 | the key's entry is gone and every other entry stays |
| States.EmptySubstateMatches | src/main/java/net/coderodde/ai/bayesiannetwork/SystemState.java:29-39 | every state contains the empty substate |
| States.LiteralMismatchFails | src/main/java/net/coderodde/ai/bayesiannetwork/SystemState.java:29-39 | one literal whose node is missing or has the other value makes the substate test fail |
| States.FewerLiteralsMatch | src/main/java/net/coderodde/ai/bayesiannetwork/SystemState.java:29-39 | a state that contains a substate contains every part of it |
| States.CombinedMatches | src/main/java/net/coderodde/ai/bayesiannetwork/ClassificationResult.java:33-46 | the combined map of a query matches exactly when the apriori literals match and the posteriori literals on the other nodes match; for disjoint key sets, when both sides match |
| Results.Ratio | src/main/java/net/coderodde/ai/bayesiannetwork/ClassificationResult.java:51-52 | a zero numerator gives exactly 0, a non-zero numerator over a non-zero denominator gives the quotient, and the result is finite unless only the denominator is 0 |
| Results.ClassificationResult.constructor | src/main/java/net/coderodde/ai/bayesiannetwork/ClassificationResult.java:17-18 | a new result has no states and an empty node list |
| Results.ClassificationResult.Query | src/main/java/net/coderodde/ai/bayesiannetwork/ClassificationResult.java:20-53 | the answer is an error when the two maps share a node, and otherwise the ratio of the combined mass to the apriori mass |
| Results.ClassificationResult.GetSumOfProbabilities | src/main/java/net/coderodde/ai/bayesiannetwork/ClassificationResult.java:61-69 | the sum is the total mass of the states |
| Results.ClassificationResult.AddSystemState | src/main/java/net/coderodde/ai/bayesiannetwork/ClassificationResult.java:95-97 | the state is appended and the node list is untouched |
| Results.MapKeyIntersect | src/main/java/net/coderodde/ai/bayesiannetwork/ClassificationResult.java:112-132 | true exactly when the two maps share a key |
| Results.PosterioriIsCombinedMass | src/main/java/net/coderodde/ai/bayesiannetwork/ClassificationResult.java:41-49 | the mass the loop counts as posteriori is the mass of the states matching the combined map |
| Results.PosterioriAtMostApriori | src/main/java/net/coderodde/ai/bayesiannetwork/ClassificationResult.java:41-49 | over non-negative weights the posteriori mass is between 0 and the apriori mass |
| Results.QueryInUnitRange | src/main/java/net/coderodde/ai/bayesiannetwork/ClassificationResult.java:20-53 | over non-negative weights a query with disjoint sides succeeds with a finite value in [0, 1] |
| Results.NoCombinedMatchGivesZero | src/main/java/net/coderodde/ai/bayesiannetwork/ClassificationResult.java:51-52 | when no state matching the apriori side matches the combined map, the answer is exactly 0, even over an apriori mass of 0 |
| Results.EmptyAprioriIsTotal | src/main/java/net/coderodde/ai/bayesiannetwork/ClassificationResult.java:41-69 | with no apriori literals, the apriori mass is the sum getSumOfProbabilities returns |
| Results.MassesOfAppend | src/main/java/net/coderodde/ai/bayesiannetwork/ClassificationResult.java:95-97 | appending a state adds its probability to the total mass, and to the apriori mass exactly when it matches |
| Utils.ListOf | src/main/java/net/coderodde/ai/bayesiannetwork/Utils.java:61 | the list holds each element of the set exactly once |
| Utils.EnqueueUnvisited | src/main/java/net/coderodde/ai/bayesiannetwork/Utils.java:40-58 | the unvisited neighbours are marked visited and queued once each, and each gets a walk from the start |
| Utils.VisitNeighbours | src/main/java/net/coderodde/ai/bayesiannetwork/Utils.java:38-58 | after one node is expanded, its children and parents are visited, the queue keeps its old entries, and every newly visited node is queued |
| Utils.FindEntireGraph | src/main/java/net/coderodde/ai/bayesiannetwork/Utils.java:29-62 | the list holds the start, has no duplicates, is closed under arcs in both directions, and holds exactly the nodes that some undirected walk from the start reaches |
| Utils.SearchFindsComponent | src/main/java/net/coderodde/ai/bayesiannetwork/Utils.java:37-59 | once the queue is empty, the visited set is closed under arcs and holds the end of every walk from the start |
| Utils.Dfs | src/main/java/net/coderodde/ai/bayesiannetwork/Utils.java:99-119 | a reported cycle is a directed cycle of the graph; otherwise the node is BLACK and the BLACK nodes are ranked so that every arc goes to a lower rank |
| Utils.SearchChild | src/main/java/net/coderodde/ai/bayesiannetwork/Utils.java:103-115 | one turn of the child loop either finds a cycle or leaves the child BLACK with the search's invariant kept |
| Utils.DfsEach | src/main/java/net/coderodde/ai/bayesiannetwork/Utils.java:74-80 | with every node WHITE first, a reported cycle is real; otherwise every node ends BLACK and ranked |
| Utils.DfsFrom | src/main/java/net/coderodde/ai/bayesiannetwork/Utils.java:78 | the search from the node at index i either finds a real cycle or leaves nodes 0..i BLACK |
| Utils.CycleThroughPath | src/main/java/net/coderodde/ai/bayesiannetwork/Utils.java:111-114 | meeting a GRAY child closes a directed cycle |
| Utils.NoReachableCycle | src/main/java/net/coderodde/ai/bayesiannetwork/Utils.java:78-82 | once every node of the component is BLACK and ranked, no cycle is reachable from the start |
| Utils.GraphIsAcyclic | src/main/java/net/coderodde/ai/bayesiannetwork/Utils.java:70-83 | true exactly when no directed cycle is reachable from the start by an undirected walk |
| Utils.CycleReachableFromAny | src/main/java/net/coderodde/ai/bayesiannetwork/Utils.java:70-83 | the answer is the same from any node of the component |
| Utils.ReverseWalk | src/main/java/net/coderodde/ai/bayesiannetwork/Utils.java:37-59 | an undirected walk reversed is a walk back |
| Utils.JoinWalks | src/main/java/net/coderodde/ai/bayesiannetwork/Utils.java:37-59 | two walks that meet compose |
| Utils.IsValidIdentifier | src/main/java/net/coderodde/ai/bayesiannetwork/Utils.java:131-147 | valid exactly when the name is non-empty, starts with an identifier-start character and continues with identifier-part characters |
| Utils.IdentifierHasNoSeparator | src/main/java/net/coderodde/ai/bayesiannetwork/Utils.java:131-147 | a valid identifier holds none of the separators of the command syntax |
| Utils.ParseProbability | src/main/java/net/coderodde/ai/bayesiannetwork/Utils.java:149-178 | parsing succeeds exactly when the text parses as a double that passes the probability check, which is then the value; text that is not a number fails as such, and a bad number fails with the check's error |
| Combinations.ValueOfBitsOf | src/main/java/net/coderodde/ai/bayesiannetwork/BayesNetworkClassifier.java:193-216 | reading the counter's bits back gives the assignment number |
| Combinations.BitsOfValueOf | src/main/java/net/coderodde/ai/bayesiannetwork/BayesNetworkClassifier.java:193-216 | every ON/OFF vector is the bit pattern of exactly one number below 2^k |
| Combinations.BitsOfZero | src/main/java/net/coderodde/ai/bayesiannetwork/BayesNetworkClassifier.java:195-201 | assignment number 0 is all OFF |
| Combinations.IncrementCounts | src/main/java/net/coderodde/ai/bayesiannetwork/BayesNetworkClassifier.java:203-215 | the increment takes assignment m to assignment m + 1, and reports exhaustion after 2^k - 1 |
| Combinations.IncrementAllOn | src/main/java/net/coderodde/ai/bayesiannetwork/BayesNetworkClassifier.java:213-215 | a counter that is all ON has no next combination |
| Combinations.IncrementAt | src/main/java/net/coderodde/ai/bayesiannetwork/BayesNetworkClassifier.java:203-212 | turning on the last OFF node and turning off the nodes after it is the increment |
| Combinations.PartialSumStep | src/main/java/net/coderodde/ai/bayesiannetwork/BayesNetworkClassifier.java:161-171 | one turn of the enumeration adds the weight of the current assignment to the partial sum |
| Combinations.WeightInRange | src/main/java/net/coderodde/ai/bayesiannetwork/BayesNetworkClassifier.java:179-191 | every assignment's weight is a probability when every factor is |
| Combinations.PairWeight | src/main/java/net/coderodde/ai/bayesiannetwork/BayesNetworkClassifier.java:179-191 | two assignments that differ only in the last node weigh together what their common prefix weighs |
| Combinations.PairedSum | src/main/java/net/coderodde/ai/bayesiannetwork/BayesNetworkClassifier.java:179-191 | the first 2n assignments of k nodes weigh what the first n of k - 1 nodes weigh |
| Combinations.WeightsSumToOne | src/main/java/net/coderodde/ai/bayesiannetwork/BayesNetworkClassifier.java:161-191 | the weights of all 2^k assignments of k nodes sum to 1 |
| Combinations.WeightOfBits | src/main/java/net/coderodde/ai/bayesiannetwork/BayesNetworkClassifier.java:179-191 | the weight of assignment number m read off its bits is its numeric weight |
| SortedNodes.Insert | src/main/java/net/coderodde/ai/bayesiannetwork/BayesNetworkClassifier.java:157 | adding to the name-sorted level set keeps it strictly sorted, ignores a name already there, and otherwise adds exactly the node |
| SortedNodes.SortedUnique | src/main/java/net/coderodde/ai/bayesiannetwork/BayesNetworkClassifier.java:152-159 | two strictly sorted sequences with the same elements are equal |
| SortedNodes.SortedByName | src/main/java/net/coderodde/ai/bayesiannetwork/BayesNetworkClassifier.java:152-159 | a set of nodes with unique names has a strictly sorted listing with exactly its elements |
| LevelOrder.Prune | src/main/java/net/coderodde/ai/bayesiannetwork/BayesNetworkClassifier.java:103-115 | the pruned level is no longer than the level and holds exactly its nodes whose parents are all visited |
| LevelOrder.PrunedLevel | src/main/java/net/coderodde/ai/bayesiannetwork/BayesNetworkClassifier.java:103-115 | pruning keeps a level a level, and pruning again changes nothing |
| LevelOrder.PruneSorted | src/main/java/net/coderodde/ai/bayesiannetwork/BayesNetworkClassifier.java:103-115 | pruning a sorted level keeps it sorted |
| LevelOrder.PruneTwice | src/main/java/net/coderodde/ai/bayesiannetwork/BayesNetworkClassifier.java:103-115 | pruning is idempotent |
| LevelOrder.ChildrenMember | src/main/java/net/coderodde/ai/bayesiannetwork/BayesNetworkClassifier.java:152-159 | a node is in the next level set exactly when it is a child of a node of the level |
| LevelOrder.NextLevel | src/main/java/net/coderodde/ai/bayesiannetwork/BayesNetworkClassifier.java:152-159 | the next level, sorted by name, is a level over the visited nodes, and an empty level has no next level |
| LevelOrder.ChildrenUndecided | src/main/java/net/coderodde/ai/bayesiannetwork/BayesNetworkClassifier.java:152-159 | the children of a pruned level are network nodes that are not yet visited |
| LevelOrder.ReachIsTopological | src/main/java/net/coderodde/ai/bayesiannetwork/BayesNetworkClassifier.java:103-159 | the level-by-level order has no repeats, stays outside the visited set, and puts every node after all its parents |
| LevelOrder.ReachStep | src/main/java/net/coderodde/ai/bayesiannetwork/BayesNetworkClassifier.java:103-159 | one level of the order is the pruned level followed by the order from the sorted children, which shrinks the unvisited set |
| Exploration.Unforced | src/main/java/net/coderodde/ai/bayesiannetwork/BayesNetworkClassifier.java:130-139 | the node array holds exactly the level's nodes outside the skip set |
| Exploration.UnforcedDistinct | src/main/java/net/coderodde/ai/bayesiannetwork/BayesNetworkClassifier.java:130-139 | the node array has no repeats and only unforced nodes of the level |
| Exploration.DecideValues | src/main/java/net/coderodde/ai/bayesiannetwork/BayesNetworkClassifier.java:117-128 | the skip-set loop decides only level nodes, adds no node to the map, and leaves every other node's value alone |
| Exploration.FillElements | src/main/java/net/coderodde/ai/bayesiannetwork/BayesNetworkClassifier.java:140-145 | the tuple grows only by nodes of the level |
| Classifier.BayesNetworkClassifier.constructor | src/main/java/net/coderodde/ai/bayesiannetwork/BayesNetworkClassifier.java:224-243 | the classifier holds the network and its probabilities, every node starts OFF, and nothing is visited |
| Classifier.BayesNetworkClassifier.NodeHasOffParent | src/main/java/net/coderodde/ai/bayesiannetwork/BayesNetworkClassifier.java:73-81 | true exactly when some parent is OFF |
| Classifier.BayesNetworkClassifier.AllParentsVisited | src/main/java/net/coderodde/ai/bayesiannetwork/BayesNetworkClassifier.java:107-113 | true exactly when every parent is visited |
| Classifier.BayesNetworkClassifier.PruneLevel | src/main/java/net/coderodde/ai/bayesiannetwork/BayesNetworkClassifier.java:103-115 | the loop's result is the pruned level |
| Classifier.BayesNetworkClassifier.DecideForced | src/main/java/net/coderodde/ai/bayesiannetwork/BayesNetworkClassifier.java:117-128 | the values and skip set after the loop are those of the sequential forcing rule |
| Classifier.BayesNetworkClassifier.DecideNode | src/main/java/net/coderodde/ai/bayesiannetwork/BayesNetworkClassifier.java:120-127 | a node is skipped exactly when it is forced, and then gets OFF when a parent is OFF or its probability is 0, and ON otherwise |
| Classifier.BayesNetworkClassifier.VisitLevel | src/main/java/net/coderodde/ai/bayesiannetwork/BayesNetworkClassifier.java:130-150 | the level joins the visited set, the tuple grows as the size test says, and the node array is the unforced nodes in level order |
| Classifier.BayesNetworkClassifier.VisitNode | src/main/java/net/coderodde/ai/bayesiannetwork/BayesNetworkClassifier.java:136-149 | the node is visited, and appended to the tuple exactly when the tuple is shorter than the visited set |
| Classifier.BayesNetworkClassifier.NextLevel | src/main/java/net/coderodde/ai/bayesiannetwork/BayesNetworkClassifier.java:152-159 | the next level is the children of the level, sorted by name |
| Classifier.BayesNetworkClassifier.AddChildren | src/main/java/net/coderodde/ai/bayesiannetwork/BayesNetworkClassifier.java:155-158 | the sorted set gains exactly the node's children |
| Classifier.BayesNetworkClassifier.GetRootSet | src/main/java/net/coderodde/ai/bayesiannetwork/BayesNetworkClassifier.java:61-71 | the root set is the independent nodes, sorted by name |
| Classifier.BayesNetworkClassifier.Classify | src/main/java/net/coderodde/ai/bayesiannetwork/BayesNetworkClassifier.java:49-59 | the states recorded from the roots have non-negative weights summing to exactly 1, and the visited set is empty again |
| Classifier.BayesNetworkClassifier.GetNextCombination | src/main/java/net/coderodde/ai/bayesiannetwork/BayesNetworkClassifier.java:193-216 | with doInit every array node turns OFF; otherwise the array's assignment advances by one, and "no more" is reported exactly when it was all ON; nodes outside the array keep their values |
| Classifier.BayesNetworkClassifier.Advance | src/main/java/net/coderodde/ai/bayesiannetwork/BayesNetworkClassifier.java:204-211 | turning on the last OFF node and turning off the nodes after it is the increment of the assignment |
| Classifier.BayesNetworkClassifier.SetFrom | src/main/java/net/coderodde/ai/bayesiannetwork/BayesNetworkClassifier.java:207-209 | the nodes from the index on get the value, one after the other |
| Classifier.BayesNetworkClassifier.ComputeProbability | src/main/java/net/coderodde/ai/bayesiannetwork/BayesNetworkClassifier.java:179-191 | the product is the weight of the current assignment: p for an ON node, 1 - p for an OFF one |
| Classifier.BayesNetworkClassifier.TupleAssignment | src/main/java/net/coderodde/ai/bayesiannetwork/BayesNetworkClassifier.java:91-95 | the recorded map gives each tuple node its current value |
| Classifier.BayesNetworkClassifier.RecordTuple | src/main/java/net/coderodde/ai/bayesiannetwork/BayesNetworkClassifier.java:88-101 | at a leaf exactly one state is appended: the tuple's values, the tuple and the path's probability |
| Classifier.BayesNetworkClassifier.Unvisit | src/main/java/net/coderodde/ai/bayesiannetwork/BayesNetworkClassifier.java:173-176 | the level leaves the visited set |
| Classifier.BayesNetworkClassifier.ClassifyImpl | src/main/java/net/coderodde/ai/bayesiannetwork/BayesNetworkClassifier.java:83-177 | the recursion prunes the level as Prune says, restores the visited set, keeps the values of visited nodes, keeps the recorded prefix, and records states of total weight exactly the path's probability, never a negative one |
| Classifier.BayesNetworkClassifier.ClassifyLevel | src/main/java/net/coderodde/ai/bayesiannetwork/BayesNetworkClassifier.java:103-176 | the same guarantees as ClassifyImpl for a level that is not empty |
| Classifier.BayesNetworkClassifier.EnterLevel | src/main/java/net/coderodde/ai/bayesiannetwork/BayesNetworkClassifier.java:103-159 | the level is pruned, its pruned nodes become visited, the next level is a level over them, and the unvisited set shrinks unless the pruned level is empty |
| Classifier.BayesNetworkClassifier.Descend | src/main/java/net/coderodde/ai/bayesiannetwork/BayesNetworkClassifier.java:117-159 | a pruned level is forced, visited and followed by its next level, and the values of already visited nodes stay |
| Classifier.BayesNetworkClassifier.LeaveLevel | src/main/java/net/coderodde/ai/bayesiannetwork/BayesNetworkClassifier.java:173-176 | after the clean-up the visited set is what it was before the level |
| Classifier.BayesNetworkClassifier.EnumerateCombinations | src/main/java/net/coderodde/ai/bayesiannetwork/BayesNetworkClassifier.java:161-171 | the loop runs through all 2^k assignments and records states of total weight exactly the path's probability, never a negative one |
| Classifier.BayesNetworkClassifier.StartCounter | src/main/java/net/coderodde/ai/bayesiannetwork/BayesNetworkClassifier.java:161-163 | the counter starts at assignment 0 |
| Classifier.BayesNetworkClassifier.CombinationStep | src/main/java/net/coderodde/ai/bayesiannetwork/BayesNetworkClassifier.java:163-171 | one turn explores assignment c and moves the counter to c + 1, adding the path's probability times c's weight to the recorded mass |
| Classifier.BayesNetworkClassifier.ExploreAssignment | src/main/java/net/coderodde/ai/bayesiannetwork/BayesNetworkClassifier.java:165-170 | the recursive call under assignment c records states of total weight probability times c's weight, and leaves the assignment as it was |
| Classifier.BayesNetworkClassifier.AdvanceCounter | src/main/java/net/coderodde/ai/bayesiannetwork/BayesNetworkClassifier.java:170 | the counter moves from assignment c to c + 1, or reports the end after the last |
| Classifier.Classify | src/main/java/net/coderodde/ai/bayesiannetwork/BayesNetworkClassifier.java:34-42 | an empty network fails as empty, a network with a reachable cycle fails as cyclic, a node without a probability fails by its name, and otherwise the states' weights are non-negative and sum to exactly 1 |
| Classifier.ClassifyComponent | src/main/java/net/coderodde/ai/bayesiannetwork/BayesNetworkClassifier.java:233-243 | on an acyclic component, an unmapped node fails by name; otherwise the states' weights are non-negative and sum to 1 |
| Classifier.FindComponent | src/main/java/net/coderodde/ai/bayesiannetwork/BayesNetworkClassifier.java:232 | the component is exactly the nodes connected to the start, and a cycle is reachable from its first node exactly when one is reachable from the start |
| Classifier.CheckProbabilityMap | src/main/java/net/coderodde/ai/bayesiannetwork/BayesNetworkClassifier.java:258-267 | passes exactly when every node has a probability; otherwise it names the first node in list order that has none |
| Classifier.RecordedTrans | src/main/java/net/coderodde/ai/bayesiannetwork/BayesNetworkClassifier.java:163-171 | states of weight a followed by states of weight b weigh a + b |
| Classifier.MassStep | src/main/java/net/coderodde/ai/bayesiannetwork/BayesNetworkClassifier.java:163-171 | the states recorded for the first c + 1 assignments weigh the probability times their partial sum |
| Application.NewCheck | src/main/java/net/coderodde/ai/bayesiannetwork/App.java:189-231 | a `new` command passes exactly when it has at least three words, an optional fourth word starting with '#', a valid identifier and a parsable probability; each failure has its own error |
| Application.DelCheck | src/main/java/net/coderodde/ai/bayesiannetwork/App.java:240-251 | a `del` command passes exactly when it has a second word that is a valid identifier |
| Application.ArcCheck | src/main/java/net/coderodde/ai/bayesiannetwork/App.java:262-294 | a `connect`/`disconnect` command passes exactly when it has at least four words, the right keyword and two valid, existing names; a missing node is named |
| Application.App.constructor | src/main/java/net/coderodde/ai/bayesiannetwork/App.java:26-43 | the program starts with no nodes, no probabilities, the modified flag set and no result |
| Application.App.HandleNew | src/main/java/net/coderodde/ai/bayesiannetwork/App.java:189-238 | the outcome is the command check; on success the name is defined with the probability, a new name maps to a new node without arcs, and the graph stays well formed |
| Application.App.Define | src/main/java/net/coderodde/ai/bayesiannetwork/App.java:233-237 | the name has the probability; a new name gets a fresh isolated node and every other name keeps its node |
| Application.App.HandleNewAsWritten | src/main/java/net/coderodde/ai/bayesiannetwork/App.java:233-237 | the outcome is the command check, and a refused command changes neither map nor the flag; on success the name maps to a fresh node without arcs, its probability is stored, the flag is set, every other name keeps its node, and when the old node had arcs the graph is no longer well formed |
| Application.App.ReplaceNode | src/main/java/net/coderodde/ai/bayesiannetwork/App.java:234-235 | the name maps to a fresh node without arcs and every other name keeps its node; an old node with arcs leaves the graph unclosed |
| Application.ReplacedNodeDangles | src/main/java/net/coderodde/ai/bayesiannetwork/App.java:233-237 | replacing a node that has arcs leaves a neighbour pointing at a node outside the map |
| Application.App.HandleDel | src/main/java/net/coderodde/ai/bayesiannetwork/App.java:240-260 | the outcome is the command check; an unknown name changes nothing; otherwise the node and its probability are removed, every other node loses its arcs to it, and the flag is set |
| Application.App.Delete | src/main/java/net/coderodde/ai/bayesiannetwork/App.java:253-259 | the node, its probability and its arcs are gone and the graph stays well formed |
| Application.App.HandleConnect | src/main/java/net/coderodde/ai/bayesiannetwork/App.java:262-308 | the outcome is the command check, or a self-loop error; on success exactly the named arc is added, and the flag is set unless the arc was already there |
| Application.App.HandleDisconnect | src/main/java/net/coderodde/ai/bayesiannetwork/App.java:310-355 | the outcome is the command check; on distinct names exactly the named arc is removed, and the flag is set if the arc was there |
| Application.App.CheckArc | src/main/java/net/coderodde/ai/bayesiannetwork/App.java:262-294 | the checks of connect and disconnect, in source order |
| Application.App.AddArc | src/main/java/net/coderodde/ai/bayesiannetwork/App.java:304-307 | the arc is added at both ends and the graph stays well formed |
| Application.App.RemoveArc | src/main/java/net/coderodde/ai/bayesiannetwork/App.java:351-354 | the arc is removed at both ends and the graph stays well formed |
| Application.App.HandleList | src/main/java/net/coderodde/ai/bayesiannetwork/App.java:394-438 | with the flag set, compiles: no nodes, a disconnected graph and a cyclic graph each fail, it succeeds exactly when the network is non-empty, connected and acyclic, and success clears the flag and caches a result whose weights sum to 1; without the flag, the cached result and the flag are kept unchanged |
| Application.App.Compile | src/main/java/net/coderodde/ai/bayesiannetwork/App.java:395-431 | compilation fails for no nodes, for a disconnected graph and for a cyclic one, and succeeds exactly when the network is non-empty, connected and acyclic, then caching states of total mass 1 and clearing the flag |
| Application.CompileNetwork | src/main/java/net/coderodde/ai/bayesiannetwork/App.java:395-413 | the three failures hold exactly in their cases, and success gives states of non-negative weight and total mass 1 |
| Application.IsConnected | src/main/java/net/coderodde/ai/bayesiannetwork/App.java:403-408 | the component is smaller than the node list exactly when the graph is not connected |
| Application.ClassifyNetwork | src/main/java/net/coderodde/ai/bayesiannetwork/App.java:410-413 | classifying a connected graph fails exactly when it has a cycle |
| Application.ComponentSize | src/main/java/net/coderodde/ai/bayesiannetwork/App.java:403-408 | the component found from one node is smaller than the network exactly when the graph is not connected |
| Application.CycleAnywhere | src/main/java/net/coderodde/ai/bayesiannetwork/App.java:410-413 | in a connected graph, a cycle reachable from one node is a cycle anywhere |
| Application.Clear | src/main/java/net/coderodde/ai/bayesiannetwork/App.java:256 | the removed node loses all its arcs, at both ends, and the graph stays well formed |
| Application.App.HandleQuery | src/main/java/net/coderodde/ai/bayesiannetwork/App.java:445-542 | a line is a query exactly when it starts with "p("; a query on a changed network compiles it first and is refused exactly when the network is empty, disconnected or cyclic; with the flag clear, the cache and the flag are kept and the answer is the parsed query over the cached states the query found, and any answer is a probability in [0, 1] |
| Application.App.ReadQuery | src/main/java/net/coderodde/ai/bayesiannetwork/App.java:460-518 | the loops yield the parsed query: its trailing-parenthesis, bar and unknown-node errors, or the two literal maps |
| Application.App.ReadLiterals | src/main/java/net/coderodde/ai/bayesiannetwork/App.java:476-498 | the literal loop builds the map of the literals in order, or fails on the first unknown name |
| Application.ParseLiteral | src/main/java/net/coderodde/ai/bayesiannetwork/App.java:481-490 | a literal is negated exactly when its trimmed text starts with "not ", and the name is the rest of that text |
| Application.LiteralRoundTrip | src/main/java/net/coderodde/ai/bayesiannetwork/App.java:481-490 | parsing the text of a literal gives the literal back |
| Application.QueryLine | src/main/java/net/coderodde/ai/bayesiannetwork/App.java:460-477 | a line not ending in ')' fails as such, and every piece of a successful split holds no comma (QueryRoundTrip states what the pieces are) |
| Application.QueryRoundTrip | src/main/java/net/coderodde/ai/bayesiannetwork/App.java:460-498 | a query written out from two lists of literals parses back to the same two lists |
| Application.JoinedLiterals | src/main/java/net/coderodde/ai/bayesiannetwork/App.java:476-498 | the comma-joined texts of literals split and parse back to the literals |
| Application.LiteralMapFailure | src/main/java/net/coderodde/ai/bayesiannetwork/App.java:492-495 | building a literal map succeeds exactly when every name is known, and otherwise fails on the first unknown name |
| Application.LastLiteralWins | src/main/java/net/coderodde/ai/bayesiannetwork/App.java:497 | when a node is named twice, the later literal's value is the one kept |
| Application.UnnamedKept | src/main/java/net/coderodde/ai/bayesiannetwork/App.java:497 | a node that no literal names keeps its value |
| Application.OnlyNamedAdded | src/main/java/net/coderodde/ai/bayesiannetwork/App.java:497 | the map gains only nodes that some literal names |
| Application.AnswerInUnitRange | src/main/java/net/coderodde/ai/bayesiannetwork/App.java:534-535 | every answered query over non-negative weights is a probability in [0, 1] |

Members without an `ensures` clause need no row. `Node.HasChild` is
membership in the child set, and `Node.IsIndependent` means "no parents".
`ProbabilityMap.Contains` is membership. `SystemState` is a datatype
value: the copy its constructor makes is implied, and its `probability`
field is what `getProbability` returns.

Defining a node under a name already in use is one place where the code
and its own comments differ:

- `handleNew` replaces the node by a new one without arcs
  (App.java:233-237). The model keeps this behaviour in
  `HandleNewAsWritten` and records its consequence under "## Findings".
- The comment above those lines speaks of reassociating the node with
  its probability, and the `new` command class
  (commands/CreateNewNodeExecutableCommand.java:61-70) keeps the existing
  node and only updates its probability. The rest of the model uses
  `HandleNew`, which does the same.

The doc comment of `graphIsAcyclic` says it returns true for a
graph with cycles, while its code returns true for an acyclic one. The
model follows the code.

## Left out

- Console and file plumbing is not modelled, because it is I/O and text formatting:
  - `App.loop` and its Scanner/FileReader handling;
  - the prompt, `main`, `hasHelpFlag` and `error`;
  - `handleEcho`, `handleHelp` and `handlePrintNode`;
  - `handleIs`, which only prints whether an arc exists;
  - the `showList` toggle and every `toString`.
- The command handlers take the words of a command line as a `seq<string>`. The tokenizer in `App.loop` and `AbstractExecutableCommand.splitToTokens` is a regular-expression split and is not modelled.
- `App.gen` is not modelled: it generates random command scripts from `Random` and the clock.
- The timing in `handleList` (`System.currentTimeMillis`) is not modelled.
- Probabilities are modelled as `real`, so double rounding is not modelled. `Double` keeps NaN and the two infinities only where the probability check sees them. The starting weight `1.0f` of classification is the real 1.
- `Double.parseDouble` is a parameter `parseDouble: string -> Option<Double>` of `Utils.ParseProbability`, `Application.NewCheck` and `Application.App.HandleNew`, where `None` stands for the NumberFormatException.
- Application.App.HandleList: the check at App.java:419-423 is not modelled. That check rejects a result whose sum of probabilities is more than 1e-4 from 1. Over reals the sum is proved to be exactly 1 (`Application.CompileNetwork`), so the check cannot fire.
- Application.App.HandleQuery: the second classification block at App.java:520-532 is not modelled. It is unreachable, because by then `stateModified` is false or the query has already returned.
- Application.Clear: App.java:256 calls `clear()` on the removed node, but DirectedGraphNode.java does not define that method. The model takes it to remove every arc of the node, at both ends.
- Application.App.HandleNew: the handlers set `stateModified` just before the graph update rather than just after it. Nothing can observe that order.
- Classifier.BayesNetworkClassifier.ClassifyImpl:
  - The recursion is not proved equal to one functional model of the whole enumeration.
  - `LevelOrder.Reach` gives the level order as a function and is proved topological. The recursion is proved to prune every level as `Prune` says, and to keep its visited set closed under parents.
  - The tuple is not proved to be `Reach`.
  - Each recorded state's variable map is described only as the current value of every tuple node.
- Classifier.Classify: hash-set iteration order is not modelled. `findEntireGraph` returns the component in some order, so a network with several unmapped nodes fails on one of them, not on a predictable one.
- Utils.IsValidIdentifier: `Character.isJavaIdentifierStart` and `isJavaIdentifierPart` are modelled on the Latin-1 range only:
  - letters, `$` and `_` may start a name;
  - digits and the identifier-ignorable controls may continue one.
  - Characters above U+00FF are rejected.
- DirectedGraph.CompareNames: `String.compareTo` and `String.hashCode` work on UTF-16 code units. The model works on characters, which differ only for characters outside the Basic Multilingual Plane.
- Application.QueryRoundTrip: the round trip is stated for names that do not end in a character that `trim` removes. A valid identifier can end in one of the identifier-ignorable controls, and the query parser trims it away.
- The classes under commands/ are not modelled. They repeat the `App` handlers, and they call members that App.java and DirectedGraphNode.java do not define (`App.getNodeMap`, `setModificationState`, `DirectedGraphNode.clear`, `getName`, a two-argument node constructor). Of their differences from `App`:
  - `QueryArcExecutableCommand` removes the arc it is asked about (commands/QueryArcExecutableCommand.java:64-67);
  - `CreateNewNodeExecutableCommand` never marks the network modified.

## Findings

| source | as written | input that shows it | evidently intended | confidence | as-written member | corrected member |
|---|---|---|---|---|---|---|
| src/main/java/net/coderodde/ai/bayesiannetwork/App.java:233-237 | `new` on a name already in use puts a fresh node without arcs in the node map, while the neighbours of the old node keep their arcs to the old object | `new a 0.5`, `new b 0.5`, `connect a to b`, `new a 0.3`: the node map's `a` now has no child, yet `b` still lists the old `a` among its parents; `list` then starts its component search at the new `a` (the first of the two names in hash order), reaches only that node and reports that the graph is not connected | redefining a name updates its probability and keeps its node and arcs, as the comment "associate (or reassociate)" and the `new` command class do | not executed | Application.App.HandleNewAsWritten (with Application.ReplacedNodeDangles) | Application.App.HandleNew (with Application.App.Define) |

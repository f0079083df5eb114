# Graph-automaton runs, modelled in Dafny

This project models the core of a prototype for graph automata. The system
works bottom-up over a graph whose edges go from a parent node to an ordered
tuple of children. It builds a *run*, a write-once labelling of each node with
a state and some data (variables, forgotten variables and jump labels). It
then checks two conditions on that run:

- the *connect* condition: a variable introduced at a node must be forgotten
  before any non-leaf below it introduces the same variable again;
- the *jump* condition: every jump label `x+`/`x-` must be matched by its
  reverse label on a node below it. A node can be the target of one match
  only. Matched pairs that carry the same label are then checked not to
  cross.

The modules follow the program's structure:

| module | what it holds |
|---|---|
| `Base` | `Option`, `Result` and the `Failure` kinds that stand for the source's exceptions and assertion failures |
| `GraphTypes` | `Graph` (edge list plus registered nodes), `root()`, and the write-once `Run` |
| `Automaton` | the transition table, positional child-state matching, `transition_to_run`, jump reversal |
| `Traversal` | successors, the generic frontier search `_verify_condition_from_node`, and `_find_path` |
| `Connects` | the connect condition and `_process_node_connects` |
| `Jumps` | the jump condition, the recording of matched pairs, and `_process_node_jumps` |
| `Crossing` | `_jump_final_check`, as written and corrected |
| `CrossingExample` | a concrete graph on which the two versions of the crossing check disagree |
| `Semantics` | `_run_graph_traversal` for both passes and `check_run_graph_semantics` |
| `GraphRun` | `automaton_run`: the fixpoint construction of a run, then the semantic checks |

The model makes these abstractions and choices:

- Exceptions and Python `assert`s become `Err` values of `Result`.
  - `Unmapped` stands for a node the search meets that the run does not map.
  - `JumpTargetShared` stands for a node that already lies in two pairs.
  - `TraversalIncomplete` stands for a traversal whose visited nodes differ from the registered ones.
  - `RunIncomplete` stands for a registered node left unmapped at the end.
- `_get_reverse_jump` asserts a trailing sign. The model states this as the
  precondition `IsJump` on `ReverseJump`. The passes instead require every
  label of the run (or of the automaton) to be well formed:
  `RunJumpsWellFormed` and `JumpsWellFormed`.
- The `False` sentinel for an unmapped child in a transition's child tuple is
  `None` of `Option<State>`.
- `random.choice` becomes an arbitrary choice among the candidates (`:|`).
  Set iteration order in `root()` and in the worklists is left open. Every
  contract holds for whichever order is taken.
- `Graph.add_edge` registers only the parent. `union` returns a new set that
  the source discards, so children are not registered. The model keeps that
  behaviour (`GraphTypes.AddEdgeLeavesChildrenUnregistered`). The check that
  the traversal visited exactly the registered nodes then fails for such
  graphs unless `add_node` registered the children.
- `list(graph.root())` turns a root name of several characters into a list
  of characters. The model starts the traversal from the single root node.
- `_find_path` keeps no visited set and can loop on a cyclic graph. The model
  explores each node once, records the predecessor that discovered it first,
  and stops when the target is taken from the frontier. For any graph, the
  result is a genuine parent-to-child path, or `None` exactly when the target
  is unreachable.
- `_map_node_to_trans` in graph_run.py calls `Run.map` with five arguments,
  which no longer matches `map(node, state, data)`. The model writes through
  `transition_to_run` and `map(node, state, data)`.
- The crossing check `_jump_final_check` has a bug (see "## Findings"). Every
  pass, `check_run_graph_semantics` and `automaton_run` therefore take a
  `Mode`. `AsWritten` is the program's own check, and it is the faithful
  mode. `Corrected` is the check the code evidently intends.
  `Crossing.AsWrittenPassesIff` shows that acceptance as written implies
  acceptance corrected.
- graph_run.py's `automaton_run` still calls the older verifiers at
  graph_run.py:133-242. The model checks the constructed run with
  `check_run_graph_semantics` from graph_automaton.py instead.

## Model

| member | source | states |
|---|---|---|
| `GraphTypes.AddEdge` | graph_types.py:17-20 | the new edge is appended after the old ones, which are kept; the node set gains exactly the parent |
| `GraphTypes.AddEdgeLeavesChildrenUnregistered` | graph_types.py:17-20 | a child that is new and not the parent is a child of the graph but stays unregistered |
| `GraphTypes.AddNode` | graph_types.py:22-23 | the node is registered, nothing else is added, the edges are unchanged |
| `GraphTypes.Root` | graph_types.py:33-38 | a returned root is registered and in no edge's children; the error occurs exactly when every registered node is some edge's child |
| `GraphTypes.At` | graph_types.py:70-71 | lookup succeeds exactly for mapped nodes and returns their labelling |
| `GraphTypes.GetState` | graph_types.py:79-83 | an unmapped node raises; a mapped one yields its state |
| `GraphTypes.MapNode` | graph_types.py:73-77 | mapping fails exactly when the node is already mapped; otherwise the node reads back the given state and data and every other node is unchanged |
| `GraphTypes.MapTwiceFails` | graph_types.py:73-75 | a second mapping of the same node fails whatever payloads the two calls carry |
| `Automaton.AddTransition` | graph_automaton.py:225-226 | the transition is appended after the existing table |
| `Automaton.Applicable` | graph_automaton.py:228-233 | a transition is applicable exactly when it is in the table and agrees with the edge on symbol, arity and positional child states |
| `Automaton.MatchesPositionally` | graph_automaton.py:232-233 | a matching transition names a state exactly where the child is mapped, with that child's state, and the sentinel exactly where it is unmapped |
| `Automaton.ApplicableInAppend` | graph_automaton.py:229-233 | the filter keeps table order: filtering a concatenation concatenates the filtered parts |
| `Automaton.ApplicableAfterAdd` | graph_automaton.py:225-233 | adding a transition appends it to every applicable list it matches and changes nothing else |
| `Automaton.TransitionToRun` | graph_automaton.py:235-237 | the written state is the transition's parent state and the data is its variables, forgotten variables and jumps |
| `Automaton.ReverseJump` | graph_automaton.py:20-22 | the reversed label keeps the prefix, flips the sign, and differs from the original |
| `Automaton.ReverseInvolution` | graph_automaton.py:20-22 | reversing twice gives the original label back |
| `Traversal.Successors` | graph_automaton.py:14-17 | the successors of `n` are exactly the children of the edges whose parent is `n` |
| `Traversal.SuccessorsInAppend` | graph_run.py:127-130 | successors are listed in edge order and then child order |
| `Traversal.SuccessorsAfterAddEdge` | graph_types.py:17-20 | a new edge appends its children to its parent's successors only |
| `Traversal.SearchFrom` | graph_automaton.py:117-142 | a stop is a final verdict at a node the search could reach; the search runs out exactly when no node it could reach has a final verdict |
| `Traversal.FindPath` | graph_automaton.py:145-172 | a returned path starts at `a`, ends at `b` and steps parent to child; `None` comes back exactly when `b` is unreachable from `a` |
| `Traversal.ExhaustedSeesAllWalks` | graph_automaton.py:122-142 | when no node cuts a branch, a search that runs out has seen every node on a walk from the top |
| `Traversal.EvaluableReaches` | graph_automaton.py:119-139 | every node the search looks at is reachable from the top |
| `Connects.ConnectCondition` | graph_automaton.py:83-92 | forgetting the variable cuts the branch; a non-leaf reintroducing it fails; an unmapped node is the search's assertion failure |
| `Connects.VerifyConnect` | graph_automaton.py:83-92 | the connect search succeeds exactly when every node it reaches is mapped and no violator; False means a violator was reached |
| `Connects.ConnectViolatedIffPath` | graph_automaton.py:117-142 | the connect search fails exactly when some path from the top, avoiding the top and every node forgetting the variable, ends at a violator, whatever the order |
| `Connects.ProcessNodeConnects` | graph_automaton.py:100-107 | on success every variable of the node is clean and recorded; False names a violated variable; the recorded set only grows, and only by the node's variables |
| `Jumps.CountWith` | graph_automaton.py:26-30 | the count of pairs containing `n` is zero exactly when no pair contains `n` |
| `Jumps.JumpCondition` | graph_automaton.py:25-34 | success exactly at a mapped node carrying the reverse label and in no pair; a node already in two pairs is the assertion failure |
| `Jumps.VerifyJump` | graph_automaton.py:117-142 | True appends exactly one pair `(top, n)` with `n` reachable, carrying the reverse label and in no earlier pair; False appends nothing and means no such node is reachable |
| `Jumps.ProcessNodeJumps` | graph_automaton.py:42-49 | every new pair starts at the node and is a fresh, reachable match; on success each label has its pair and the label and its reverse are recorded; False names an unmatchable label |
| `Semantics.ShouldProcessIff` | graph_automaton.py:37-39 | a node is processed exactly when one of its items is not yet recorded |
| `Semantics.VisitNode` | graph_automaton.py:183-186 | a node with nothing new is skipped and changes nothing; otherwise the pass's verdict comes with its witness |
| `Semantics.RunGraphTraversal` | graph_automaton.py:175-196 | success means all registered nodes are mapped and reachable from a root, and every item is covered; for jumps the recorded pairs pass the crossing check of the given mode (`AsWritten` is the program's); False comes with a violation, an unmatchable label, or pairs that check rejects |
| `Semantics.CheckRunGraphSemantics` | graph_automaton.py:239-249 | success means all registered nodes are mapped, the connect condition holds, and the jump condition holds with the crossing check of the given mode; a connect failure shows a violation; a jump failure comes after the connect pass held and shows an unmatchable label or rejected pairs |
| `Semantics.AsWrittenJumpsHoldCorrected` | graph_automaton.py:246-247 | a run that meets the jump condition with the program's crossing check also meets it with the corrected one |
| `Crossing.FinalCheck` | graph_automaton.py:52-72 | the check returns True exactly when no iteration stops it; otherwise its result is the result of some iteration |
| `Crossing.Judge` | graph_automaton.py:57-70 | an iteration fails or looks for paths only for a distinct pair that carries the reverse label on its other node; a pair with equal endpoints raises |
| `Crossing.ComparePaths` | graph_automaton.py:54-69 | a path comparison raises exactly when a needed path is missing |
| `Crossing.OnePairPasses` | graph_automaton.py:62-63 | with a single recorded pair the check returns True in either version |
| `Crossing.AsWrittenRejectsCompared` | graph_automaton.py:67-70 | as written, any compared iteration with a reachable pair returns False |
| `Crossing.AsWrittenNeverPassesComparison` | graph_automaton.py:67-69 | as written, a path comparison never comes out clean, for any graph and any two pairs |
| `Crossing.AsWrittenPassesIff` | graph_automaton.py:52-72 | as written, the check passes exactly when no iteration compares paths and no other pair has equal ends; acceptance as written implies acceptance corrected |
| `Crossing.CorrectedFailsOnlyOnCrossing` | graph_automaton.py:67-70 | corrected, an iteration returns False only when the two pairs' paths share a node |
| `Crossing.CorrectedAcceptsSeparated` | graph_automaton.py:52-72 | corrected, the check passes when every pair is reachable with distinct ends and pairs sharing a label have disjoint paths |
| `CrossingExample.ExampleBuilt` | graph_types.py:17-23 | the example graph is what `add_edge` and `add_node` build from the empty graph, with the root's edge listing `c` before `a` |
| `CrossingExample.ExampleForcedPairs` | graph_automaton.py:25-34 | in the example, each recorded pair's target is the only reachable node carrying the reverse label, so the jump pass has no other choice once its origin is processed |
| `CrossingExample.CrossingCounterexample` | graph_automaton.py:52-72 | on the example graph, three valid pairs whose targets are forced, as the jump pass records them when it handles `a` before `c`; rejected as written and accepted corrected |
| `GraphRun.ChooseTransition` | graph_run.py:122-124 | `None` exactly when there is no candidate; otherwise one of the candidates |
| `GraphRun.MapNodeToTrans` | graph_run.py:109-111 | writing a transition fails exactly on a mapped parent; otherwise the parent gets the transition's state and data |
| `GraphRun.FirstIndex` | graph_run.py:260 | the position of the first occurrence of an edge: it holds the edge and no earlier position does |
| `GraphRun.RemoveFirst` | graph_run.py:260 | `list.remove` drops exactly the first occurrence of the edge and keeps the other edges in their order; one element fewer, same multiset otherwise |
| `GraphRun.CommitStep` | graph_run.py:254-259 | committing a candidate to an unmapped parent keeps every mapping traceable to a candidate against the run of its moment |
| `GraphRun.ScanPass` | graph_run.py:254-260 | a pass moves edges from the remaining list to the processed list and keeps the run built; it removes nothing exactly when no remaining edge had a candidate at its start |
| `GraphRun.ParentsBound` | graph_run.py:258 | edges with pairwise distinct parents are exactly as many as their parents |
| `GraphRun.SharedParent` | graph_run.py:258 | a refused write means two edges of the graph share a parent |
| `GraphRun.ConstructRun` | graph_run.py:246-264 | on success the processed edges are a permutation of the graph's edges and every mapping came from a candidate; a shared parent always fails; "Run failed" comes with a stuck state |
| `GraphRun.BuiltJumpsWellFormed` | graph_run.py:258 | a run built from transitions with well-formed labels has well-formed labels |
| `GraphRun.AutomatonRun` | graph_run.py:245-274 | on success every registered node is mapped, the run maps exactly the parents of the edges, it was built by candidates, and the connect and jump conditions hold with the crossing check of the given mode |

## Left out

- Printing, `__str__` and `__iter__` are left out. `GraphAutomaton.__str__` unpacks six-field transitions as triples and cannot run.
- The obsolete block at graph_run.py:9-99 and the older verifiers at graph_run.py:133-242 are left out. The verifiers in graph_automaton.py supersede them.
- `add_create_transition` is left out. It is `add_transition` with a prebuilt tuple.
- The exact list-mutation order of the Python worklists is left out. This includes removing from a list while iterating over it, and the depth-first `pop`. The searches use an unordered frontier, and the traversal may visit nodes in any order. The order is not harmless: it decides which reachable node becomes a jump target, and which nodes are processed at all, because a node whose items are already recorded is skipped (graph_automaton.py:183). So the order decides which pairs are recorded and the crossing check's verdict. The contracts hold for every order, but they do not single out the program's order.
- Semantics.RunGraphTraversal does not model the string-to-characters behaviour of `list(graph.root())`. It starts from the root node itself, as the traversal evidently intends.
- Traversal.FindPath does not model non-termination of `_find_path` on cyclic graphs. It explores each node once, and on an acyclic graph it returns a path just as the source does. Which of several paths it returns can differ from the source's.
- GraphRun.ConstructRun does not prove that "Run failed" occurs whenever a pass starts stuck. It proves the direction that matters to callers: "Run failed" implies a stuck pass. `ScanPass` states both directions for a single pass.
- GraphRun.ScanPass follows the positional `for` loop that skips the element after a removed one. It does not state which edges a pass commits, only that every commit is a candidate.
- CrossingCounterexample does not derive the program's order of visits. Its pairs are the ones recorded when `a` is handled before `c`, which the stack `pop` yields when the root's edge lists `c` before `a`. The model leaves the pop order open, so that order is stated in the example, not proved from a modelled stack.
- Randomness is not modelled as a distribution. `random.choice` is an arbitrary choice.

## Findings

| source | as written | input that shows it | evidently intended | confidence | as-written member | corrected member |
|---|---|---|---|---|---|---|
| graph_automaton.py:67-68 | the path of the inspected pair is intersected with a second call on the same pair, so the intersection always contains the pair's origin | the root's edge lists `c` before `a` (`r`→[`c`,`a`]); `a`→`b`; `c`→`d`,`e`. The stack `pop` handles `a` first, records `(a,b)`, and still processes `c`, whose `k+` is new. Labels: `a`:`j+`, `b`:`j-`, `c`:`j+`,`k+`, `d`:`j-`, `e`:`k-`. Recorded pairs: `(a,b)`, `(c,d)`, `(c,e)`. The pairs `(a,b)` and `(c,d)` carry the same label and have disjoint paths, yet the check returns False | intersect the inspected pair's path with the path of the similar pair | not executed | `Crossing.AsWrittenRejectsCompared`, `Crossing.AsWrittenNeverPassesComparison`, `CrossingExample.CrossingCounterexample` | `Crossing.CorrectedAcceptsSeparated` |

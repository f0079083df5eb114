/** The graph and run containers: edges with ordered children, a set of
    registered nodes, and the write-once node labelling. */
module GraphTypes {
  import opened Base

  type Node = string
  type Symbol = string
  type State = string
  type Var = string
  type Jump = string

  datatype Edge = Edge(parent: Node, symbol: Symbol, children: seq<Node>)

  /** `nodes` holds only what `AddEdge`/`AddNode` registered, not every child. */
  datatype Graph = Graph(nodes: set<Node>, edges: seq<Edge>)

  const EmptyGraph: Graph := Graph({}, [])

  /** Appends the edge and registers its parent; the children are NOT
      registered, because the source discards the result of `union`. */
  function AddEdge(g: Graph, parent: Node, sym: Symbol, children: seq<Node>): (r: Graph)
    ensures |r.edges| == |g.edges| + 1
    ensures r.edges[..|g.edges|] == g.edges
    ensures r.edges[|g.edges|] == Edge(parent, sym, children)
    ensures parent in r.nodes
    ensures forall n :: n in r.nodes <==> n in g.nodes || n == parent
  {
    Graph(g.nodes + {parent}, g.edges + [Edge(parent, sym, children)])
  }

  /** A child that was neither registered before nor the new parent stays
      unregistered after `AddEdge`. */
  lemma AddEdgeLeavesChildrenUnregistered(g: Graph, parent: Node, sym: Symbol, children: seq<Node>, c: Node)
    requires c in children && c !in g.nodes && c != parent
    ensures c !in AddEdge(g, parent, sym, children).nodes
    ensures IsChild(AddEdge(g, parent, sym, children), c)
  {
    var r := AddEdge(g, parent, sym, children);
    assert c in r.edges[|g.edges|].children;
  }

  function AddNode(g: Graph, node: Node): (r: Graph)
    ensures r.edges == g.edges
    ensures node in r.nodes && g.nodes <= r.nodes
    ensures r.nodes - g.nodes <= {node}
  {
    Graph(g.nodes + {node}, g.edges)
  }

  /** `n` occurs in the children list of some edge. */
  predicate IsChild(g: Graph, n: Node) {
    exists i :: 0 <= i < |g.edges| && n in g.edges[i].children
  }

  /** The registered nodes that `root()` may return. */
  function RootCandidates(g: Graph): set<Node> {
    set n | n in g.nodes && !IsChild(g, n)
  }

  /** `root()`: some registered node that is nobody's child, in whatever
      order the set iterates; raises when there is none. */
  method Root(g: Graph) returns (r: Result<Node>)
    ensures r.Ok? ==> r.value in g.nodes && !IsChild(g, r.value)
    ensures r.Err? <==> forall n :: n in g.nodes ==> IsChild(g, n)
    ensures r.Err? ==> r.error == NoRootFound
    ensures RootCandidates(g) == {} <==> r.Err?
  {
    if c :| c in g.nodes && !IsChild(g, c) {
      assert c in RootCandidates(g);
      return Ok(c);
    }
    return Err(NoRootFound);
  }

  /** Every parent and child mentioned by the edges of `es`. */
  function EdgeNodes(es: seq<Edge>): (r: set<Node>)
    ensures forall i :: 0 <= i < |es| ==> es[i].parent in r && (forall m :: m in es[i].children ==> m in r)
  {
    if es == [] then {}
    else
      var rest := EdgeNodes(es[1..]);
      assert forall i :: 1 <= i < |es| ==> es[i] == es[1..][i - 1];
      {es[0].parent} + (set m | m in es[0].children) + rest
  }

  /** Every node of the graph: registered ones and every parent and child. */
  function NodesOf(g: Graph): (r: set<Node>)
    ensures g.nodes <= r
    ensures forall i :: 0 <= i < |g.edges| ==> g.edges[i].parent in r && (forall m :: m in g.edges[i].children ==> m in r)
  {
    g.nodes + EdgeNodes(g.edges)
  }

  /** What `Run.map` stores besides the state. */
  datatype Data = Data(vars: set<Var>, forget: set<Var>, jumps: set<Jump>)

  datatype Labelling = Labelling(state: State, data: Data)

  /** The run's mapping; `n in run` is the source's `__contains__`. */
  type Run = map<Node, Labelling>

  const EmptyRun: Run := map[]

  /** `at(node)` / `run[node]`. */
  function At(run: Run, n: Node): (r: Result<Labelling>)
    ensures r.Ok? <==> n in run
    ensures r.Ok? ==> r.value == run[n]
    ensures r.Err? ==> r.error == Unmapped
  {
    if n in run then Ok(run[n]) else Err(Unmapped)
  }

  /** `get_state(node)`. */
  function GetState(run: Run, n: Node): (r: Result<State>)
    ensures r.Ok? <==> n in run
    ensures r.Ok? ==> r.value == run[n].state
    ensures r.Err? ==> r.error == Unmapped
  {
    if n in run then Ok(run[n].state) else Err(Unmapped)
  }

  /** `map(node, state, data)`: write-once; a mapped node is refused
      whatever state and data are offered. */
  function MapNode(run: Run, n: Node, s: State, d: Data): (r: Result<Run>)
    ensures r.Err? <==> n in run
    ensures r.Err? ==> r.error == AlreadyMapped
    ensures r.Ok? ==> r.value.Keys == run.Keys + {n}
    ensures r.Ok? ==> At(r.value, n) == Ok(Labelling(s, d)) && GetState(r.value, n) == Ok(s)
    ensures r.Ok? ==> forall m :: m != n ==> At(r.value, m) == At(run, m)
  {
    if n in run then Err(AlreadyMapped) else Ok(run[n := Labelling(s, d)])
  }

  /** Mapping the same node twice fails, whatever the two payloads are. */
  lemma MapTwiceFails(run: Run, n: Node, s1: State, d1: Data, s2: State, d2: Data)
    requires n !in run
    ensures MapNode(run, n, s1, d1).Ok?
    ensures MapNode(MapNode(run, n, s1, d1).value, n, s2, d2) == Err(AlreadyMapped)
  {
  }
}

/** Successor lookup, the generic frontier search shared by the connect and
    jump checks, and breadth-first path finding. */
module Traversal {
  import opened Base
  import opened GraphTypes

  /** Children of the edges of `es` whose parent is `n`, in edge order then child order. */
  function SuccessorsIn(es: seq<Edge>, n: Node): (r: seq<Node>)
    ensures forall m :: m in r <==> exists i :: 0 <= i < |es| && es[i].parent == n && m in es[i].children
  {
    if es == [] then []
    else
      var rest := SuccessorsIn(es[1..], n);
      assert forall i :: 1 <= i < |es| ==> es[i] == es[1..][i - 1];
      (if es[0].parent == n then es[0].children else []) + rest
  }

  /** Some edge with parent `n` lists `m` among its children. */
  ghost predicate IsChildOf(g: Graph, n: Node, m: Node) {
    exists i :: 0 <= i < |g.edges| && g.edges[i].parent == n && m in g.edges[i].children
  }

  /** `_get_successor(graph, node)`. */
  function Successors(g: Graph, n: Node): (r: seq<Node>)
    ensures forall m :: m in r <==> IsChildOf(g, n, m)
  {
    SuccessorsIn(g.edges, n)
  }

  /** Successors never leave the nodes of the graph. */
  lemma SuccessorsInGraph(g: Graph, n: Node)
    ensures forall m :: m in Successors(g, n) ==> m in NodesOf(g)
  {
    forall m | m in Successors(g, n)
      ensures m in NodesOf(g)
    {
      assert IsChildOf(g, n, m);
      var i :| 0 <= i < |g.edges| && g.edges[i].parent == n && m in g.edges[i].children;
    }
  }

  /** The successor list of a concatenation of edge lists is the concatenation
      of their successor lists: edge order first, then child order. */
  lemma {:induction false} SuccessorsInAppend(es1: seq<Edge>, es2: seq<Edge>, n: Node)
    ensures SuccessorsIn(es1 + es2, n) == SuccessorsIn(es1, n) + SuccessorsIn(es2, n)
    decreases |es1|
  {
    if es1 == [] {
      assert es1 + es2 == es2;
    } else {
      assert (es1 + es2)[0] == es1[0];
      assert (es1 + es2)[1..] == es1[1..] + es2;
      SuccessorsInAppend(es1[1..], es2, n);
    }
  }

  /** A new edge appends its children to its parent's successors and leaves
      every other node's successors alone. */
  lemma SuccessorsAfterAddEdge(g: Graph, p: Node, s: Symbol, cs: seq<Node>, n: Node)
    ensures Successors(AddEdge(g, p, s, cs), n)
         == Successors(g, n) + (if n == p then cs else [])
  {
    SuccessorsInAppend(g.edges, [Edge(p, s, cs)], n);
    assert AddEdge(g, p, s, cs).edges == g.edges + [Edge(p, s, cs)];
    assert SuccessorsIn([Edge(p, s, cs)], n) == (if n == p then cs else []) + SuccessorsIn([], n);
  }

  /** What a node test tells the frontier search (`ConditionResults`), plus
      the two assertions that can stop it: an unmapped node, and a node that
      already lies in two recorded pairs. */
  datatype Verdict = Continue | Success | Fail | Nothing | Missing | Conflict

  /** Verdicts that end the search at once. */
  predicate IsStop(v: Verdict) {
    !v.Continue? && !v.Nothing?
  }

  /** One step of a chain: the search passes on from `x` (verdict `Nothing`)
      to its successor `y`, which is not `top`. */
  ghost predicate ChainStep(g: Graph, top: Node, cond: Node -> Verdict, p: seq<Node>, i: int)
    requires 0 <= i < |p| - 1
  {
    cond(p[i]) == Nothing && p[i + 1] in Successors(g, p[i]) && p[i + 1] != top
  }

  /** A sequence of nodes the search from `top` visits one after another:
      it starts at a successor of `top`, each later node is a successor of
      the previous one, never `top` again, and every node it passes on from
      had verdict `Nothing` (a `Continue` node cuts the branch). */
  ghost predicate IsChain(g: Graph, top: Node, cond: Node -> Verdict, p: seq<Node>) {
    && |p| >= 1
    && p[0] in Successors(g, top)
    && forall i :: 0 <= i < |p| - 1 ==> ChainStep(g, top, cond, p, i)
  }

  /** The nodes the search from `top` evaluates, whatever its order. */
  ghost predicate Evaluable(g: Graph, top: Node, cond: Node -> Verdict, n: Node) {
    exists p :: IsChain(g, top, cond, p) && p[|p| - 1] == n
  }

  lemma ChainExtend(g: Graph, top: Node, cond: Node -> Verdict, p: seq<Node>, m: Node)
    requires IsChain(g, top, cond, p)
    requires cond(p[|p| - 1]) == Nothing && m in Successors(g, p[|p| - 1]) && m != top
    ensures IsChain(g, top, cond, p + [m])
  {
    var q := p + [m];
    forall i | 0 <= i < |q| - 1
      ensures ChainStep(g, top, cond, q, i)
    {
      if i < |p| - 1 {
        assert ChainStep(g, top, cond, p, i);
        assert q[i] == p[i] && q[i + 1] == p[i + 1];
      }
    }
  }

  /** A set that holds the successors of `top` and is closed under expanding
      its `Nothing` nodes holds the end of every chain. */
  lemma {:induction false} ChainEndsInClosedSet(g: Graph, top: Node, cond: Node -> Verdict, s: set<Node>, p: seq<Node>)
    requires forall m :: m in Successors(g, top) ==> m in s
    requires forall x, m :: x in s && cond(x) == Nothing && m in Successors(g, x) && m != top ==> m in s
    requires IsChain(g, top, cond, p)
    ensures p[|p| - 1] in s
    decreases |p|
  {
    if |p| > 1 {
      var q := p[..|p| - 1];
      assert IsChain(g, top, cond, q) by {
        forall i | 0 <= i < |q| - 1
          ensures ChainStep(g, top, cond, q, i)
        {
          assert ChainStep(g, top, cond, p, i);
          assert q[i] == p[i] && q[i + 1] == p[i + 1];
        }
      }
      ChainEndsInClosedSet(g, top, cond, s, q);
      assert p[|p| - 2] == q[|q| - 1];
      assert ChainStep(g, top, cond, p, |p| - 2);
    }
  }

  /** The search passes on from an evaluable `Nothing` node to each of its
      successors other than `top`. */
  lemma EvaluableExtend(g: Graph, top: Node, cond: Node -> Verdict, n: Node, m: Node)
    requires Evaluable(g, top, cond, n)
    requires cond(n) == Nothing && m in Successors(g, n) && m != top
    ensures Evaluable(g, top, cond, m)
  {
    var p :| IsChain(g, top, cond, p) && p[|p| - 1] == n;
    ChainExtend(g, top, cond, p, m);
    assert (p + [m])[|p + [m]| - 1] == m;
  }

  lemma EvaluableStart(g: Graph, top: Node, cond: Node -> Verdict, m: Node)
    requires m in Successors(g, top)
    ensures Evaluable(g, top, cond, m)
  {
    assert IsChain(g, top, cond, [m]);
  }

  /** Whatever the search must still look at from `done` is in `done` or `pending`. */
  ghost predicate Covered(g: Graph, top: Node, cond: Node -> Verdict, done: set<Node>, pending: set<Node>) {
    && (forall m :: m in Successors(g, top) ==> m in pending || m in done)
    && (forall x, m :: x in done && cond(x) == Nothing && m in Successors(g, x) && m != top ==>
          m in pending || m in done)
  }

  /** The successors of `n` the search has not seen yet (`processed` is
      `evaluated + {top}` in the source). */
  function Unseen(g: Graph, top: Node, n: Node, evaluated: set<Node>): (r: set<Node>)
    ensures forall m :: m in r <==> m in Successors(g, n) && m !in evaluated && m != top
  {
    set m | m in Successors(g, n) && m !in evaluated && m != top
  }

  /** The frontier after evaluating `n` with verdict `v`. */
  function NextFrontier(g: Graph, top: Node, n: Node, v: Verdict, frontier: set<Node>, evaluated: set<Node>): set<Node> {
    (frontier - {n}) + (if v == Nothing then Unseen(g, top, n, evaluated + {n}) else {})
  }

  /** The loop invariant of the search. */
  ghost predicate SearchInv(g: Graph, top: Node, cond: Node -> Verdict, frontier: set<Node>, evaluated: set<Node>) {
    && frontier <= NodesOf(g) + {top}
    && evaluated <= NodesOf(g) + {top}
    && (forall m :: m in frontier ==> m !in evaluated)
    && (forall m :: m in frontier ==> Evaluable(g, top, cond, m))
    && (forall m :: m in evaluated ==> Evaluable(g, top, cond, m) && !IsStop(cond(m)))
    && Covered(g, top, cond, evaluated, frontier)
  }

  lemma SearchInvInit(g: Graph, top: Node, cond: Node -> Verdict)
    ensures SearchInv(g, top, cond, set m | m in Successors(g, top), {})
  {
    SuccessorsInGraph(g, top);
    forall m | m in Successors(g, top)
      ensures Evaluable(g, top, cond, m)
    {
      EvaluableStart(g, top, cond, m);
    }
  }

  lemma UnseenEvaluable(g: Graph, top: Node, cond: Node -> Verdict, n: Node, e: set<Node>)
    requires Evaluable(g, top, cond, n) && cond(n) == Nothing
    ensures forall m :: m in Unseen(g, top, n, e) ==> Evaluable(g, top, cond, m)
  {
    forall m | m in Unseen(g, top, n, e)
      ensures Evaluable(g, top, cond, m)
    {
      EvaluableExtend(g, top, cond, n, m);
    }
  }

  /** The new frontier stays inside the graph, apart from what is evaluated,
      and evaluable. */
  lemma FrontierStep(g: Graph, top: Node, cond: Node -> Verdict, frontier: set<Node>, evaluated: set<Node>, n: Node)
    requires SearchInv(g, top, cond, frontier, evaluated)
    requires n in frontier && !IsStop(cond(n))
    ensures var f' := NextFrontier(g, top, n, cond(n), frontier, evaluated);
            && f' <= NodesOf(g) + {top}
            && (forall m :: m in f' ==> m !in evaluated + {n})
            && (forall m :: m in f' ==> Evaluable(g, top, cond, m))
  {
    SuccessorsInGraph(g, n);
    if cond(n) == Nothing {
      UnseenEvaluable(g, top, cond, n, evaluated + {n});
    }
  }

  lemma CoveredStep(g: Graph, top: Node, cond: Node -> Verdict, frontier: set<Node>, evaluated: set<Node>, n: Node)
    requires Covered(g, top, cond, evaluated, frontier)
    requires n in frontier
    ensures Covered(g, top, cond, evaluated + {n}, NextFrontier(g, top, n, cond(n), frontier, evaluated))
  {
  }

  lemma SearchInvStep(g: Graph, top: Node, cond: Node -> Verdict, frontier: set<Node>, evaluated: set<Node>, n: Node)
    requires SearchInv(g, top, cond, frontier, evaluated)
    requires n in frontier && !IsStop(cond(n))
    ensures SearchInv(g, top, cond, NextFrontier(g, top, n, cond(n), frontier, evaluated), evaluated + {n})
    ensures |(NodesOf(g) + {top}) - (evaluated + {n})| < |(NodesOf(g) + {top}) - evaluated|
  {
    var universe := NodesOf(g) + {top};
    FrontierStep(g, top, cond, frontier, evaluated, n);
    CoveredStep(g, top, cond, frontier, evaluated, n);
    assert universe - (evaluated + {n}) < universe - evaluated;
  }

  /** Once the frontier is empty, every evaluable node has been evaluated. */
  lemma SearchInvExhausted(g: Graph, top: Node, cond: Node -> Verdict, evaluated: set<Node>)
    requires SearchInv(g, top, cond, {}, evaluated)
    ensures forall n :: Evaluable(g, top, cond, n) ==> !IsStop(cond(n))
  {
    forall n | Evaluable(g, top, cond, n)
      ensures !IsStop(cond(n))
    {
      var p :| IsChain(g, top, cond, p) && p[|p| - 1] == n;
      ChainEndsInClosedSet(g, top, cond, evaluated, p);
    }
  }

  datatype SearchResult = Stopped(at: Node, verdict: Verdict) | Exhausted

  /** `_verify_condition_from_node`: explores the successors of `top`
      without revisiting a node, stops at the first node whose verdict is
      final, does not expand past a `Continue` node, and otherwise reports
      that the frontier ran out. */
  method SearchFrom(g: Graph, top: Node, cond: Node -> Verdict) returns (r: SearchResult)
    ensures r.Stopped? ==> IsStop(r.verdict) && cond(r.at) == r.verdict && Evaluable(g, top, cond, r.at)
    ensures r.Exhausted? <==> forall n :: Evaluable(g, top, cond, n) ==> !IsStop(cond(n))
  {
    var frontier: set<Node> := set m | m in Successors(g, top);
    var evaluated: set<Node> := {};
    SearchInvInit(g, top, cond);
    while frontier != {}
      invariant SearchInv(g, top, cond, frontier, evaluated)
      decreases |(NodesOf(g) + {top}) - evaluated|
    {
      var n :| n in frontier;
      var v := cond(n);
      if IsStop(v) {
        return Stopped(n, v);
      }
      SearchInvStep(g, top, cond, frontier, evaluated, n);
      frontier := NextFrontier(g, top, n, v, frontier, evaluated);
      evaluated := evaluated + {n};
    }
    SearchInvExhausted(g, top, cond, evaluated);
    return Exhausted;
  }

  /** One step of a path: `p[i + 1]` is a successor of `p[i]`. */
  ghost predicate PathStep(g: Graph, p: seq<Node>, i: int)
    requires 0 <= i < |p| - 1
  {
    p[i + 1] in Successors(g, p[i])
  }

  /** `p` walks from `a` to `b` in at least one parent-to-child step. */
  ghost predicate IsPath(g: Graph, p: seq<Node>, a: Node, b: Node) {
    && |p| >= 2
    && p[0] == a
    && p[|p| - 1] == b
    && forall i :: 0 <= i < |p| - 1 ==> PathStep(g, p, i)
  }

  ghost predicate Reaches(g: Graph, a: Node, b: Node) {
    exists p :: IsPath(g, p, a, b)
  }

  lemma PathExtend(g: Graph, p: seq<Node>, a: Node, n: Node, m: Node)
    requires IsPath(g, p, a, n) && m in Successors(g, n)
    ensures IsPath(g, p + [m], a, m)
  {
    var q := p + [m];
    forall i | 0 <= i < |q| - 1
      ensures PathStep(g, q, i)
    {
      if i < |p| - 1 {
        assert PathStep(g, p, i);
        assert q[i] == p[i] && q[i + 1] == p[i + 1];
      }
    }
  }

  /** A set holding the successors of `a` and closed under successors holds
      the end of every path from `a`. */
  lemma {:induction false} PathEndsInClosedSet(g: Graph, s: set<Node>, p: seq<Node>, a: Node, b: Node)
    requires forall m :: m in Successors(g, a) ==> m in s
    requires forall x, m :: x in s && m in Successors(g, x) ==> m in s
    requires IsPath(g, p, a, b)
    ensures b in s
    decreases |p|
  {
    if |p| == 2 {
      assert PathStep(g, p, 0);
    } else {
      var q := p[..|p| - 1];
      assert IsPath(g, q, a, q[|q| - 1]) by {
        forall i | 0 <= i < |q| - 1
          ensures PathStep(g, q, i)
        {
          assert PathStep(g, p, i);
          assert q[i] == p[i] && q[i + 1] == p[i + 1];
        }
      }
      PathEndsInClosedSet(g, s, q, a, q[|q| - 1]);
      assert PathStep(g, p, |p| - 2);
    }
  }

  /** The elements of `xs` not yet in `seen`, in order. */
  function Undiscovered(xs: seq<Node>, seen: set<Node>): (r: seq<Node>)
    ensures forall m :: m in r <==> m in xs && m !in seen
  {
    if xs == [] then []
    else (if xs[0] in seen then [] else [xs[0]]) + Undiscovered(xs[1..], seen)
  }

  /** Every recorded path is a path from `a` to its key. */
  ghost predicate PathsValid(g: Graph, a: Node, paths: map<Node, seq<Node>>) {
    forall x :: x in paths ==> IsPath(g, paths[x], a, x)
  }

  /** Every discovered node is still queued or has all its successors discovered. */
  ghost predicate ExpandedOrQueued(g: Graph, frontier: seq<Node>, paths: map<Node, seq<Node>>) {
    forall x, m :: x in paths && x !in frontier && m in Successors(g, x) ==> m in paths
  }

  ghost predicate ExploreInv(g: Graph, a: Node, frontier: seq<Node>, paths: map<Node, seq<Node>>) {
    && (forall x :: x in frontier ==> x in paths)
    && paths.Keys <= NodesOf(g)
    && PathsValid(g, a, paths)
    && ExpandedOrQueued(g, frontier, paths)
  }

  /** Discovering a new node of `u` leaves fewer undiscovered ones. */
  lemma FewerLeft(u: set<Node>, before: set<Node>, after: set<Node>, k: Node)
    requires before <= after && k in after && k !in before && k in u
    ensures |u - after| < |u - before|
  {
    var x, y := u - after, u - before;
    assert x <= y && k in y - x;
    assert y == x + (y - x) && x * (y - x) == {};
    assert |y - x| >= 1 by {
      assert {k} <= y - x;
      assert y - x == {k} + ((y - x) - {k});
    }
  }

  /** Records, for each newly discovered successor `m` of `n`, the path to
      `n` extended by `m`. */
  function Discover(paths: map<Node, seq<Node>>, n: Node, news: seq<Node>): (r: map<Node, seq<Node>>)
    requires n in paths
    requires forall m :: m in news ==> m !in paths
    ensures r.Keys == paths.Keys + set m | m in news
    ensures forall x :: x in paths ==> r[x] == paths[x]
    ensures forall x :: x in r && x !in paths ==> x in news && r[x] == paths[n] + [x]
  {
    paths + map m | m in news :: paths[n] + [m]
  }

  lemma DiscoverValid(g: Graph, a: Node, paths: map<Node, seq<Node>>, n: Node)
    requires n in paths && PathsValid(g, a, paths)
    ensures PathsValid(g, a, Discover(paths, n, Undiscovered(Successors(g, n), paths.Keys)))
  {
    var news := Undiscovered(Successors(g, n), paths.Keys);
    var r := Discover(paths, n, news);
    forall x | x in r
      ensures IsPath(g, r[x], a, x)
    {
      if x !in paths {
        PathExtend(g, paths[n], a, n, x);
      }
    }
  }

  lemma DiscoverExpands(g: Graph, frontier: seq<Node>, paths: map<Node, seq<Node>>)
    requires frontier != [] && frontier[0] in paths
    requires ExpandedOrQueued(g, frontier, paths)
    ensures var n := frontier[0];
            var news := Undiscovered(Successors(g, n), paths.Keys);
            ExpandedOrQueued(g, frontier[1..] + news, Discover(paths, n, news))
  {
    var n := frontier[0];
    var news := Undiscovered(Successors(g, n), paths.Keys);
    var r := Discover(paths, n, news);
    var f' := frontier[1..] + news;
    forall x, m | x in r && x !in f' && m in Successors(g, x)
      ensures m in r
    {
      if x != n {
        assert x !in news;
        assert x in paths;
        assert frontier == [n] + frontier[1..];
        assert x !in frontier;
      }
    }
  }

  lemma ExploreStep(g: Graph, a: Node, frontier: seq<Node>, paths: map<Node, seq<Node>>)
    requires ExploreInv(g, a, frontier, paths) && frontier != []
    ensures var n := frontier[0];
            var news := Undiscovered(Successors(g, n), paths.Keys);
            var paths' := Discover(paths, n, news);
            && ExploreInv(g, a, frontier[1..] + news, paths')
            && paths.Keys <= paths'.Keys
            && (news != [] ==> |NodesOf(g) - paths'.Keys| < |NodesOf(g) - paths.Keys|)
            && (news == [] ==> paths'.Keys == paths.Keys)
  {
    var n := frontier[0];
    var news := Undiscovered(Successors(g, n), paths.Keys);
    var paths' := Discover(paths, n, news);
    SuccessorsInGraph(g, n);
    DiscoverValid(g, a, paths, n);
    DiscoverExpands(g, frontier, paths);
    assert forall x :: x in frontier[1..] + news ==> x in paths';
    ExploreShrinks(g, paths, n);
  }

  /** Discovering the unseen successors of `n` stays inside the graph and,
      when there are any, leaves fewer nodes undiscovered. */
  lemma ExploreShrinks(g: Graph, paths: map<Node, seq<Node>>, n: Node)
    requires n in paths && paths.Keys <= NodesOf(g)
    ensures var news := Undiscovered(Successors(g, n), paths.Keys);
            var paths' := Discover(paths, n, news);
            && paths.Keys <= paths'.Keys <= NodesOf(g)
            && (news != [] ==> |NodesOf(g) - paths'.Keys| < |NodesOf(g) - paths.Keys|)
            && (news == [] ==> paths'.Keys == paths.Keys)
  {
    var news := Undiscovered(Successors(g, n), paths.Keys);
    var paths' := Discover(paths, n, news);
    SuccessorsInGraph(g, n);
    if news != [] {
      var k := news[0];
      assert k in paths'.Keys && k !in paths.Keys && k in NodesOf(g);
      FewerLeft(NodesOf(g), paths.Keys, paths'.Keys, k);
    }
  }

  /** The breadth-first exploration of `_find_path`, recording for each node
      the path by which it was first discovered; it stops once `b` is taken
      from the queue. */
  function Explore(g: Graph, a: Node, b: Node, frontier: seq<Node>, paths: map<Node, seq<Node>>): (r: map<Node, seq<Node>>)
    requires ExploreInv(g, a, frontier, paths)
    ensures PathsValid(g, a, r)
    ensures paths.Keys <= r.Keys
    ensures b !in r ==> forall x, m :: x in r && m in Successors(g, x) ==> m in r
    decreases |NodesOf(g) - paths.Keys|, |frontier|
  {
    if frontier == [] then paths
    else if frontier[0] == b then paths
    else
      ExploreStep(g, a, frontier, paths);
      var n := frontier[0];
      var news := Undiscovered(Successors(g, n), paths.Keys);
      Explore(g, a, b, frontier[1..] + news, Discover(paths, n, news))
  }

  /** `_find_path(graph, a, b)`: a parent-to-child path from `a` to `b`, or
      `None` exactly when `b` cannot be reached from `a`. */
  function FindPath(g: Graph, a: Node, b: Node): (r: Option<seq<Node>>)
    ensures r.Some? ==> IsPath(g, r.value, a, b)
    ensures r.None? <==> !Reaches(g, a, b)
  {
    var start := Successors(g, a);
    var paths0 := map m | m in start :: [a, m];
    SuccessorsInGraph(g, a);
    assert PathsValid(g, a, paths0) by {
      forall x | x in paths0
        ensures IsPath(g, paths0[x], a, x)
      {
        assert PathStep(g, [a, x], 0);
      }
    }
    var explored := Explore(g, a, b, start, paths0);
    if b in explored then
      Some(explored[b])
    else
      assert !Reaches(g, a, b) by {
        if p :| IsPath(g, p, a, b) {
          PathEndsInClosedSet(g, explored.Keys, p, a, b);
        }
      }
      None
  }

  /** The verdict that never stops nor cuts: chains under it are plain walks. */
  function NothingVerdict(n: Node): Verdict {
    Nothing
  }

  /** `n` lies on a walk from `top` that does not come back to `top`. */
  ghost predicate ReachableAvoiding(g: Graph, top: Node, n: Node) {
    Evaluable(g, top, NothingVerdict, n)
  }

  /** When a condition never cuts a branch and the search ran out, the search
      has evaluated every node reachable from `top`. */
  lemma {:induction false} ExhaustedSeesAllWalks(g: Graph, top: Node, cond: Node -> Verdict, p: seq<Node>)
    requires forall n :: Evaluable(g, top, cond, n) ==> !IsStop(cond(n)) && cond(n) != Continue
    requires IsChain(g, top, NothingVerdict, p)
    ensures Evaluable(g, top, cond, p[|p| - 1])
    decreases |p|
  {
    if |p| == 1 {
      EvaluableStart(g, top, cond, p[0]);
    } else {
      var q := p[..|p| - 1];
      assert IsChain(g, top, NothingVerdict, q) by {
        forall i | 0 <= i < |q| - 1
          ensures ChainStep(g, top, NothingVerdict, q, i)
        {
          assert ChainStep(g, top, NothingVerdict, p, i);
          assert q[i] == p[i] && q[i + 1] == p[i + 1];
        }
      }
      ExhaustedSeesAllWalks(g, top, cond, q);
      assert ChainStep(g, top, NothingVerdict, p, |p| - 2);
      assert q[|q| - 1] == p[|p| - 2];
      EvaluableExtend(g, top, cond, q[|q| - 1], p[|p| - 1]);
    }
  }

  /** Whatever the search from `top` evaluates is reachable from `top`. */
  lemma EvaluableReaches(g: Graph, top: Node, cond: Node -> Verdict, n: Node)
    requires Evaluable(g, top, cond, n)
    ensures Reaches(g, top, n)
  {
    var p :| IsChain(g, top, cond, p) && p[|p| - 1] == n;
    var q := [top] + p;
    forall i | 0 <= i < |q| - 1
      ensures PathStep(g, q, i)
    {
      if i > 0 {
        assert ChainStep(g, top, cond, p, i - 1);
      }
    }
    assert IsPath(g, q, top, n);
  }
}

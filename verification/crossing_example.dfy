/** A run on which the crossing check as written fails although the two
    pairs that share a label lie on disjoint paths. */
module CrossingExample {
  import opened Base
  import opened GraphTypes
  import opened Automaton
  import opened Traversal
  import opened Jumps
  import opened Crossing

  /** r -> [c, a], a -> [b], c -> [d, e], every node registered. The
      traversal pops its worklist from the end, so after the root it takes
      `a` before `c`. */
  const ExampleGraph: Graph := Graph({"r", "a", "b", "c", "d", "e"},
    [Edge("r", "f", ["c", "a"]), Edge("a", "g", ["b"]), Edge("c", "h", ["d", "e"])])

  /** The example is what `add_edge` and `add_node` build from an empty
      graph: the children need `add_node`, since `add_edge` leaves them out. */
  lemma ExampleBuilt()
    ensures ExampleGraph ==
      AddNode(AddNode(AddNode(
        AddEdge(AddEdge(AddEdge(EmptyGraph, "r", "f", ["c", "a"]), "a", "g", ["b"]), "c", "h", ["d", "e"]),
        "b"), "d"), "e")
    ensures AddEdge(AddEdge(AddEdge(EmptyGraph, "r", "f", ["c", "a"]), "a", "g", ["b"]), "c", "h", ["d", "e"]).nodes
            == {"r", "a", "c"}
  {
    var built := AddEdge(AddEdge(AddEdge(EmptyGraph, "r", "f", ["c", "a"]), "a", "g", ["b"]), "c", "h", ["d", "e"]);
    assert built.edges == ExampleGraph.edges;
    assert built.nodes == {"r", "a", "c"};
  }

  function Carrying(js: set<Jump>): Labelling {
    Labelling("q", Data({}, {}, js))
  }

  /** `a` and `c` open `j`, `b` and `d` close it; `c` also opens `k`, which `e` closes. */
  const ExampleRun: Run := map[
    "r" := Carrying({}), "a" := Carrying({"j+"}), "b" := Carrying({"j-"}),
    "c" := Carrying({"j+", "k+"}), "d" := Carrying({"j-"}), "e" := Carrying({"k-"})]

  /** What the jump pass records when it handles `a` before `c`, as the
      traversal of this graph does: `r` carries no label, `a` is popped next
      and matches `j+` at `b`; `c` still has `k+` unrecorded, so it is
      processed too and matches `j+` at `d` and `k+` at `e`. */
  const ExamplePairs: seq<Pair> := [("a", "b"), ("c", "d"), ("c", "e")]

  lemma ExampleSuccessors()
    ensures Successors(ExampleGraph, "a") == ["b"]
    ensures Successors(ExampleGraph, "b") == []
    ensures Successors(ExampleGraph, "c") == ["d", "e"]
    ensures Successors(ExampleGraph, "d") == []
    ensures Successors(ExampleGraph, "e") == []
  {
  }

  /** Every node of a path from `a` lies in any set that holds `a` and is
      closed under successors. */
  lemma {:induction false} PathWithin(g: Graph, s: set<Node>, p: seq<Node>, a: Node, b: Node, i: int)
    requires a in s
    requires forall x, m :: x in s && m in Successors(g, x) ==> m in s
    requires IsPath(g, p, a, b) && 0 <= i < |p|
    ensures p[i] in s
    decreases i
  {
    if i > 0 {
      PathWithin(g, s, p, a, b, i - 1);
      assert PathStep(g, p, i - 1);
    }
  }

  lemma OnPathWithin(g: Graph, s: set<Node>, p: Pair, x: Node)
    requires p.0 in s
    requires forall y, m :: y in s && m in Successors(g, y) ==> m in s
    requires OnPath(g, p, x)
    ensures x in s
  {
    var path :| IsPath(g, path, p.0, p.1) && x in path;
    var i :| 0 <= i < |path| && path[i] == x;
    PathWithin(g, s, path, p.0, p.1, i);
  }

  /** The nodes below `a` form a closed set. */
  lemma ExampleClosedA()
    ensures forall y, m :: y in {"a", "b"} && m in Successors(ExampleGraph, y) ==> m in {"a", "b"}
  {
    ExampleSuccessors();
    forall y, m | y in {"a", "b"} && m in Successors(ExampleGraph, y)
      ensures m in {"a", "b"}
    {
      assert y == "a" || y == "b";
    }
  }

  /** The nodes below `c` form a closed set. */
  lemma ExampleClosedC()
    ensures forall y, m :: y in {"c", "d", "e"} && m in Successors(ExampleGraph, y) ==> m in {"c", "d", "e"}
  {
    ExampleSuccessors();
    forall y, m | y in {"c", "d", "e"} && m in Successors(ExampleGraph, y)
      ensures m in {"c", "d", "e"}
    {
      assert y == "c" || y == "d" || y == "e";
    }
  }

  lemma OnPathBelowA(x: Node)
    requires OnPath(ExampleGraph, ("a", "b"), x)
    ensures x in {"a", "b"}
  {
    ExampleClosedA();
    OnPathWithin(ExampleGraph, {"a", "b"}, ("a", "b"), x);
  }

  lemma OnPathBelowC(x: Node)
    requires OnPath(ExampleGraph, ("c", "d"), x)
    ensures x in {"c", "d", "e"}
  {
    ExampleClosedC();
    OnPathWithin(ExampleGraph, {"c", "d", "e"}, ("c", "d"), x);
  }

  /** No node lies on a path of both `(a, b)` and `(c, d)`. */
  lemma ExampleDisjoint(x: Node)
    requires OnPath(ExampleGraph, ("a", "b"), x)
    ensures !OnPath(ExampleGraph, ("c", "d"), x)
  {
    OnPathBelowA(x);
    if OnPath(ExampleGraph, ("c", "d"), x) {
      OnPathBelowC(x);
    }
  }

  lemma ExampleSeparate()
    ensures Separate(ExampleGraph, ("a", "b"), ("c", "d"))
    ensures Separate(ExampleGraph, ("c", "d"), ("a", "b"))
  {
    forall x | OnPath(ExampleGraph, ("a", "b"), x)
      ensures !OnPath(ExampleGraph, ("c", "d"), x)
    {
      ExampleDisjoint(x);
    }
    forall x | OnPath(ExampleGraph, ("c", "d"), x)
      ensures !OnPath(ExampleGraph, ("a", "b"), x)
    {
      if OnPath(ExampleGraph, ("a", "b"), x) {
        ExampleDisjoint(x);
      }
    }
  }

  /** A single edge step is a path. */
  lemma EdgeReaches(g: Graph, a: Node, b: Node, i: int)
    requires 0 <= i < |g.edges| && g.edges[i].parent == a && b in g.edges[i].children
    ensures Reaches(g, a, b)
  {
    assert IsChildOf(g, a, b);
    assert PathStep(g, [a, b], 0);
    assert IsPath(g, [a, b], a, b);
  }

  lemma ExampleReaches()
    ensures Reaches(ExampleGraph, "a", "b")
    ensures Reaches(ExampleGraph, "c", "d")
    ensures Reaches(ExampleGraph, "c", "e")
  {
    EdgeReaches(ExampleGraph, "a", "b", 1);
    EdgeReaches(ExampleGraph, "c", "d", 2);
    EdgeReaches(ExampleGraph, "c", "e", 2);
  }

  lemma ExampleLabels()
    ensures ReverseJump("j+") == "j-" && ReverseJump("k+") == "k-"
    ensures RunJumpsWellFormed(ExampleRun)
    ensures Ready(ExampleGraph, ExampleRun, ExamplePairs)
  {
    assert ReverseJump("j+") == "j-";
    assert ReverseJump("k+") == "k-";
  }

  /** Each example pair is a reachable match of a label and its reverse. */
  lemma ExampleMatches()
    ensures forall k :: 0 <= k < |ExamplePairs| ==> PairMatched(ExampleGraph, ExampleRun, ExamplePairs[k])
  {
    var run, pairs := ExampleRun, ExamplePairs;
    ExampleLabels();
    ExampleReaches();
    assert LabelPairs(run, pairs[0], "j+");
    assert LabelPairs(run, pairs[1], "j+");
    assert LabelPairs(run, pairs[2], "k+");
  }

  /** No example target occurs in an earlier pair. */
  lemma ExampleFresh()
    ensures forall k :: 0 <= k < |ExamplePairs| ==> FreshTarget(ExamplePairs, k)
  {
    var pairs := ExamplePairs;
    assert pairs[..0] == [] && pairs[..1] == [("a", "b")] && pairs[..2] == [("a", "b"), ("c", "d")];
  }

  lemma ExamplePairsMatched()
    ensures forall k :: 0 <= k < |ExamplePairs| ==>
              PairMatched(ExampleGraph, ExampleRun, ExamplePairs[k]) && FreshTarget(ExamplePairs, k)
  {
    ExampleMatches();
    ExampleFresh();
  }

  /** Only `(a, b)` and `(c, d)` share a label. */
  lemma ExampleRelated()
    ensures forall k, m ::
              (0 <= k < |ExamplePairs| && 0 <= m < |ExamplePairs| && ExamplePairs[k] != ExamplePairs[m]
               && Related(ExampleRun, ExamplePairs[k], ExamplePairs[m])) ==>
              Separate(ExampleGraph, ExamplePairs[k], ExamplePairs[m])
  {
    var run, pairs := ExampleRun, ExamplePairs;
    ExampleLabels();
    ExampleSeparate();
    forall k, m | 0 <= k < |pairs| && 0 <= m < |pairs|
      ensures pairs[k] != pairs[m] && Related(run, pairs[k], pairs[m]) ==> Separate(ExampleGraph, pairs[k], pairs[m])
    {
      if pairs[k] != pairs[m] && !((k == 0 && m == 1) || (k == 1 && m == 0)) {
        assert (k == 1 && m == 2) || (k == 2 && m == 1) || (k == 0 && m == 2) || (k == 2 && m == 0);
        forall j | j in run[pairs[k].0].data.jumps
          ensures !RelatedBy(run, pairs[k], pairs[m], j)
        {
          assert j == "j+" || j == "k+";
        }
      }
    }
  }

  lemma ExampleAsWrittenRejects()
    ensures Ready(ExampleGraph, ExampleRun, ExamplePairs)
    ensures !Passes(ExampleGraph, ExampleRun, AsWritten, ExamplePairs)
  {
    ExampleLabels();
    ExampleReaches();
    var q: Quad := (0, "j+", "c", 1);
    assert IsQuad(ExampleGraph, ExampleRun, ExamplePairs, q);
    AsWrittenRejectsCompared(ExampleGraph, ExampleRun, ExamplePairs, q);
  }

  lemma ExampleCorrectedAccepts()
    ensures Ready(ExampleGraph, ExampleRun, ExamplePairs)
    ensures Passes(ExampleGraph, ExampleRun, Corrected, ExamplePairs)
  {
    var g, pairs := ExampleGraph, ExamplePairs;
    ExampleLabels();
    ExampleReaches();
    ExampleRelated();
    forall k | 0 <= k < |pairs|
      ensures pairs[k].0 != pairs[k].1 && Reaches(g, pairs[k].0, pairs[k].1)
    {
      assert k == 0 || k == 1 || k == 2;
    }
    CorrectedAcceptsSeparated(g, ExampleRun, pairs);
  }

  /** The nodes reachable from `a` are `a` and `b`. */
  lemma ExampleBelowA(n: Node)
    requires Reaches(ExampleGraph, "a", n)
    ensures n in {"a", "b"}
  {
    ExampleClosedA();
    var p :| IsPath(ExampleGraph, p, "a", n);
    PathWithin(ExampleGraph, {"a", "b"}, p, "a", n, |p| - 1);
  }

  /** The nodes reachable from `c` are `c`, `d` and `e`. */
  lemma ExampleBelowC(n: Node)
    requires Reaches(ExampleGraph, "c", n)
    ensures n in {"c", "d", "e"}
  {
    ExampleClosedC();
    var p :| IsPath(ExampleGraph, p, "c", n);
    PathWithin(ExampleGraph, {"c", "d", "e"}, p, "c", n, |p| - 1);
  }

  /** Each recorded target is the only node below its origin that carries
      the reverse label, so the jump searches cannot record other pairs. */
  lemma ExampleTargetsForced()
    ensures forall n :: Reaches(ExampleGraph, "a", n) && n in ExampleRun && "j-" in ExampleRun[n].data.jumps ==> n == "b"
    ensures forall n :: Reaches(ExampleGraph, "c", n) && n in ExampleRun && "j-" in ExampleRun[n].data.jumps ==> n == "d"
    ensures forall n :: Reaches(ExampleGraph, "c", n) && n in ExampleRun && "k-" in ExampleRun[n].data.jumps ==> n == "e"
  {
    forall n | Reaches(ExampleGraph, "a", n)
      ensures n in {"a", "b"}
    {
      ExampleBelowA(n);
    }
    forall n | Reaches(ExampleGraph, "c", n)
      ensures n in {"c", "d", "e"}
    {
      ExampleBelowC(n);
    }
  }

  /** Every node below the origin of `p` that carries the reverse of a
      label linking `p` is the target of `p`. */
  ghost predicate TargetForced(g: Graph, run: Run, p: Pair) {
    forall n, j ::
      (Reaches(g, p.0, n) && LabelPairs(run, (p.0, n), j) && p.1 in run && ReverseJump(j) in run[p.1].data.jumps)
      ==> n == p.1
  }

  lemma ExampleForcedPairs()
    ensures forall k :: 0 <= k < |ExamplePairs| ==> TargetForced(ExampleGraph, ExampleRun, ExamplePairs[k])
  {
    var run, pairs := ExampleRun, ExamplePairs;
    ExampleLabels();
    ExampleTargetsForced();
    forall k, n, j | 0 <= k < |pairs| && Reaches(ExampleGraph, pairs[k].0, n) && LabelPairs(run, (pairs[k].0, n), j)
                     && pairs[k].1 in run && ReverseJump(j) in run[pairs[k].1].data.jumps
      ensures n == pairs[k].1
    {
      assert k == 0 || k == 1 || k == 2;
      assert j == "j+" || j == "k+";
    }
  }

  /** The as-written check rejects the example, the corrected one accepts it,
      and the recorded pairs are the ones the jump pass produces when it
      handles `a` before `c`: valid matches whose targets are forced. */
  lemma CrossingCounterexample()
    ensures Ready(ExampleGraph, ExampleRun, ExamplePairs)
    ensures forall k :: 0 <= k < |ExamplePairs| ==>
              PairMatched(ExampleGraph, ExampleRun, ExamplePairs[k]) && FreshTarget(ExamplePairs, k)
    ensures forall k :: 0 <= k < |ExamplePairs| ==> TargetForced(ExampleGraph, ExampleRun, ExamplePairs[k])
    ensures !Passes(ExampleGraph, ExampleRun, AsWritten, ExamplePairs)
    ensures Passes(ExampleGraph, ExampleRun, Corrected, ExamplePairs)
  {
    ExamplePairsMatched();
    ExampleForcedPairs();
    ExampleAsWrittenRejects();
    ExampleCorrectedAccepts();
  }
}

/** The connect condition: a variable introduced at a node must be forgotten
    before any non-leaf below it introduces the same variable again. */
module Connects {
  import opened Base
  import opened GraphTypes
  import opened Traversal

  /** `n` is the parent of some edge with at least one child. */
  predicate HasChildEdge(g: Graph, n: Node) {
    exists i :: 0 <= i < |g.edges| && g.edges[i].parent == n && |g.edges[i].children| > 0
  }

  /** `n` reintroduces `v` at a non-leaf without forgetting it. */
  predicate Violator(g: Graph, run: Run, v: Var, n: Node) {
    && n in run
    && v !in run[n].data.forget
    && v in run[n].data.vars
    && HasChildEdge(g, n)
  }

  /** `_condition_in_node_connects`, after the search's `assert node in run`:
      forgetting `v` cuts the branch, a violator fails the search. */
  function ConnectCondition(g: Graph, run: Run, v: Var, n: Node): (r: Verdict)
    ensures r == Missing <==> n !in run
    ensures r == Fail <==> Violator(g, run, v, n)
    ensures r == Continue <==> n in run && v in run[n].data.forget
    ensures r != Success && r != Conflict
  {
    if n !in run then Missing
    else if v in run[n].data.forget then Continue
    else if v in run[n].data.vars && HasChildEdge(g, n) then Fail
    else Nothing
  }

  function ConnectCond(g: Graph, run: Run, v: Var): Node -> Verdict {
    n => ConnectCondition(g, run, v, n)
  }

  /** The nodes the connect search for `v` from `top` looks at. */
  ghost predicate ConnectReached(g: Graph, run: Run, top: Node, v: Var, n: Node) {
    Evaluable(g, top, ConnectCond(g, run, v), n)
  }

  /** Every node the search looks at is mapped and no violator. */
  ghost predicate ConnectClean(g: Graph, run: Run, top: Node, v: Var) {
    forall n :: ConnectReached(g, run, top, v, n) ==> n in run && !Violator(g, run, v, n)
  }

  ghost predicate ConnectViolated(g: Graph, run: Run, top: Node, v: Var) {
    exists n :: ConnectReached(g, run, top, v, n) && Violator(g, run, v, n)
  }

  /** `_verify_condition_from_node` with the connect condition and default
      result True. */
  method VerifyConnect(g: Graph, run: Run, top: Node, v: Var) returns (r: Result<bool>)
    ensures r == Ok(true) <==> ConnectClean(g, run, top, v)
    ensures r == Ok(false) ==> ConnectViolated(g, run, top, v)
    ensures r.Err? ==> r.error == Unmapped && exists n :: ConnectReached(g, run, top, v, n) && n !in run
  {
    var s := SearchFrom(g, top, ConnectCond(g, run, v));
    if s.Exhausted? {
      return Ok(true);
    }
    assert ConnectReached(g, run, top, v, s.at);
    if s.verdict == Missing {
      return Err(Unmapped);
    }
    return Ok(false);
  }

  /** A path the connect search could walk: it starts at a successor of
      `top`, never returns to `top`, and each node it passes on from is
      mapped and does not forget `v`. */
  ghost predicate ConnectPath(g: Graph, run: Run, top: Node, v: Var, p: seq<Node>) {
    && |p| >= 1
    && p[0] in Successors(g, top)
    && forall i :: 0 <= i < |p| - 1 ==> ConnectPathStep(g, run, top, v, p, i)
  }

  ghost predicate ConnectPathStep(g: Graph, run: Run, top: Node, v: Var, p: seq<Node>, i: int)
    requires 0 <= i < |p| - 1
  {
    p[i] in run && v !in run[p[i]].data.forget && p[i + 1] in Successors(g, p[i]) && p[i + 1] != top
  }

  lemma ConnectPathPrefix(g: Graph, run: Run, top: Node, v: Var, p: seq<Node>, k: int)
    requires ConnectPath(g, run, top, v, p) && 1 <= k <= |p|
    ensures ConnectPath(g, run, top, v, p[..k])
  {
    var q := p[..k];
    forall i | 0 <= i < |q| - 1
      ensures ConnectPathStep(g, run, top, v, q, i)
    {
      assert ConnectPathStep(g, run, top, v, p, i);
      assert q[i] == p[i] && q[i + 1] == p[i + 1];
    }
  }

  /** A connect path ending at a violator yields a violator the search reaches. */
  lemma {:induction false} ConnectPathFindsViolator(g: Graph, run: Run, top: Node, v: Var, p: seq<Node>)
    requires ConnectPath(g, run, top, v, p) && Violator(g, run, v, p[|p| - 1])
    ensures ConnectViolated(g, run, top, v)
    decreases |p|
  {
    if i :| 0 <= i < |p| - 1 && Violator(g, run, v, p[i]) {
      ConnectPathPrefix(g, run, top, v, p, i + 1);
      ConnectPathFindsViolator(g, run, top, v, p[..i + 1]);
    } else {
      var cond := ConnectCond(g, run, v);
      forall i | 0 <= i < |p| - 1
        ensures ChainStep(g, top, cond, p, i)
      {
        assert ConnectPathStep(g, run, top, v, p, i);
        assert !Violator(g, run, v, p[i]);
      }
      assert IsChain(g, top, cond, p);
      assert ConnectReached(g, run, top, v, p[|p| - 1]);
    }
  }

  /** The connect search result does not depend on the order of exploration:
      it finds a violation exactly when some
      path from `top` that avoids `top` and every node forgetting `v` ends at
      a non-leaf that reintroduces `v`. */
  lemma ConnectViolatedIffPath(g: Graph, run: Run, top: Node, v: Var)
    ensures ConnectViolated(g, run, top, v) <==>
            exists p :: ConnectPath(g, run, top, v, p) && Violator(g, run, v, p[|p| - 1])
  {
    if ConnectViolated(g, run, top, v) {
      var n :| ConnectReached(g, run, top, v, n) && Violator(g, run, v, n);
      var cond := ConnectCond(g, run, v);
      var p :| IsChain(g, top, cond, p) && p[|p| - 1] == n;
      forall i | 0 <= i < |p| - 1
        ensures ConnectPathStep(g, run, top, v, p, i)
      {
        assert ChainStep(g, top, cond, p, i);
      }
      assert ConnectPath(g, run, top, v, p);
    }
    if p :| ConnectPath(g, run, top, v, p) && Violator(g, run, v, p[|p| - 1]) {
      ConnectPathFindsViolator(g, run, top, v, p);
    }
  }

  /** `_process_node_connects`: checks every variable of `node`, recording
      each one once its check has passed. */
  method ProcessNodeConnects(g: Graph, run: Run, node: Node, items: set<Var>) returns (r: Result<bool>, items': set<Var>)
    requires node in run
    ensures items <= items' <= items + run[node].data.vars
    ensures r == Ok(true) ==> items' == items + run[node].data.vars
    ensures r == Ok(true) ==> forall v :: v in run[node].data.vars ==> ConnectClean(g, run, node, v)
    ensures r == Ok(false) ==> exists v :: v in run[node].data.vars && ConnectViolated(g, run, node, v)
    ensures r.Err? ==> r.error == Unmapped
  {
    var vars := run[node].data.vars;
    var todo := vars;
    items' := items;
    while todo != {}
      invariant todo <= vars
      invariant items' == items + (vars - todo)
      invariant forall v :: v in vars - todo ==> ConnectClean(g, run, node, v)
      decreases todo
    {
      var v :| v in todo;
      var ok := VerifyConnect(g, run, node, v);
      if ok != Ok(true) {
        return ok, items';
      }
      items' := items' + {v};
      todo := todo - {v};
    }
    return Ok(true), items';
  }
}

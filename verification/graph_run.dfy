/** `automaton_run`: the bottom-up construction of a run, one pass after
    another over the edges not yet processed, followed by the semantic
    checks. */
module GraphRun {
  import opened Base
  import opened GraphTypes
  import opened Automaton
  import opened Crossing
  import opened Semantics

  /** `_chose_transition`: some candidate transition for `e`, or `None` when
      there is none. The source picks at random; any candidate may come back. */
  method ChooseTransition(a: GraphAutomaton, e: Edge, run: Run) returns (r: Option<Transition>)
    ensures r.None? <==> Applicable(a, e, run) == []
    ensures r.Some? ==> r.value in Applicable(a, e, run)
  {
    var candidates := Applicable(a, e, run);
    if candidates == [] {
      return None;
    }
    assert candidates[0] in candidates;
    var t :| t in candidates;
    return Some(t);
  }

  /** The labelling a transition writes into the run. */
  function LabelOf(t: Transition): Labelling {
    Labelling(TransitionToRun(t).0, TransitionToRun(t).1)
  }

  /** `_map_node_to_trans`, writing through `transition_to_run` and
      `Run.map(node, state, data)`. */
  function MapNodeToTrans(run: Run, n: Node, t: Transition): (r: Result<Run>)
    ensures r.Err? <==> n in run
    ensures r.Err? ==> r.error == AlreadyMapped
    ensures r.Ok? ==> r.value == run[n := Labelling(t.parent, Data(t.vars, t.forget, t.jumps))]
  {
    var (s, d) := TransitionToRun(t);
    MapNode(run, n, s, d)
  }

  /** The position of the first element equal to `x`. */
  function FirstIndex(s: seq<Edge>, x: Edge): (i: nat)
    requires x in s
    ensures i < |s| && s[i] == x && x !in s[..i]
  {
    if s[0] == x then 0
    else
      assert s[..FirstIndex(s[1..], x) + 1] == [s[0]] + s[1..][..FirstIndex(s[1..], x)];
      1 + FirstIndex(s[1..], x)
  }

  /** `list.remove`: drops the first element equal to `x` and keeps the
      order of the rest. */
  function RemoveFirst(s: seq<Edge>, x: Edge): (r: seq<Edge>)
    requires x in s
    ensures |r| == |s| - 1
    ensures r == s[..FirstIndex(s, x)] + s[FirstIndex(s, x) + 1..]
    ensures exists i :: 0 <= i < |s| && s[i] == x && x !in s[..i] && r == s[..i] + s[i + 1..]
    ensures multiset(r) + multiset{x} == multiset(s)
  {
    MultisetSplit(s, FirstIndex(s, x));
    if s[0] == x then
      s[1..]
    else
      RemoveFirstStep(s, x);
      [s[0]] + RemoveFirst(s[1..], x)
  }

  /** Cutting out one element removes exactly that element from the multiset. */
  lemma MultisetSplit(s: seq<Edge>, i: int)
    requires 0 <= i < |s|
    ensures multiset(s[..i] + s[i + 1..]) + multiset{s[i]} == multiset(s)
  {
    assert s == s[..i] + [s[i]] + s[i + 1..];
  }

  lemma RemoveFirstStep(s: seq<Edge>, x: Edge)
    requires x in s && s[0] != x
    ensures var k := FirstIndex(s[1..], x);
            && FirstIndex(s, x) == k + 1
            && [s[0]] + (s[1..][..k] + s[1..][k + 1..]) == s[..k + 1] + s[k + 2..]
  {
    var k := FirstIndex(s[1..], x);
    assert s[..k + 1] == [s[0]] + s[1..][..k];
    assert s[k + 2..] == s[1..][k + 1..];
  }

  /** The nodes the edges of `es` map: their parents. */
  function Parents(es: seq<Edge>): (r: set<Node>)
    ensures forall n :: n in r <==> exists e :: e in es && e.parent == n
  {
    set e | e in es :: e.parent
  }

  /** The run as it was before anything from the `k`-th processed edge on
      was written. */
  function Before(run: Run, processed: seq<Edge>, k: int): (r: Run)
    requires 0 <= k <= |processed|
    ensures r.Keys == run.Keys * Parents(processed[..k])
  {
    map n | n in run && n in Parents(processed[..k]) :: run[n]
  }

  /** The `k`-th processed edge wrote its parent's labelling from a
      transition that was a candidate for it against the run of that moment. */
  ghost predicate CommittedAt(a: GraphAutomaton, run: Run, processed: seq<Edge>, k: int)
    requires 0 <= k < |processed|
  {
    exists t :: t in a.transitions && Matches(t, processed[k], Before(run, processed, k))
                && processed[k].parent in run && run[processed[k].parent] == LabelOf(t)
  }

  predicate DistinctParents(es: seq<Edge>) {
    forall i, j :: 0 <= i < j < |es| ==> es[i].parent != es[j].parent
  }

  /** What holds between passes: the run maps exactly the parents of the
      processed edges, each once, from a candidate transition. */
  ghost predicate Built(a: GraphAutomaton, run: Run, processed: seq<Edge>) {
    && run.Keys == Parents(processed)
    && DistinctParents(processed)
    && forall k :: 0 <= k < |processed| ==> CommittedAt(a, run, processed, k)
  }

  /** Committing a fresh parent leaves every earlier commitment intact. */
  lemma CommitKeeps(a: GraphAutomaton, run: Run, processed: seq<Edge>, e: Edge, l: Labelling, k: int)
    requires Built(a, run, processed) && e.parent !in run && 0 <= k < |processed|
    ensures CommittedAt(a, run[e.parent := l], processed + [e], k)
  {
    var run', processed' := run[e.parent := l], processed + [e];
    assert processed'[..k] == processed[..k];
    assert processed'[k] == processed[k];
    assert Before(run', processed', k) == Before(run, processed, k);
    assert CommittedAt(a, run, processed, k);
    var u :| u in a.transitions && Matches(u, processed[k], Before(run, processed, k))
             && processed[k].parent in run && run[processed[k].parent] == LabelOf(u);
    assert run'[processed'[k].parent] == LabelOf(u);
  }

  /** Committing a candidate transition to an unmapped parent keeps the run
      built. */
  lemma CommitStep(a: GraphAutomaton, run: Run, processed: seq<Edge>, e: Edge, t: Transition)
    requires Built(a, run, processed)
    requires e.parent !in run && t in a.transitions && Matches(t, e, run)
    ensures Built(a, run[e.parent := LabelOf(t)], processed + [e])
  {
    var run', processed' := run[e.parent := LabelOf(t)], processed + [e];
    assert processed'[..|processed|] == processed;
    assert run'.Keys == Parents(processed');
    assert DistinctParents(processed') by {
      forall i | 0 <= i < |processed|
        ensures processed[i].parent != e.parent
      {
        assert processed[i].parent in Parents(processed);
      }
    }
    forall k | 0 <= k < |processed'|
      ensures CommittedAt(a, run', processed', k)
    {
      if k < |processed| {
        CommitKeeps(a, run, processed, e, LabelOf(t), k);
      } else {
        assert Before(run', processed', k) == run;
      }
    }
  }

  /** The loop invariant of one pass. */
  ghost predicate PassInv(a: GraphAutomaton, run0: Run, todo0: seq<Edge>, processed0: seq<Edge>,
                          run: Run, todo: seq<Edge>, processed: seq<Edge>, i: int) {
    && 0 <= i <= |todo| + 1
    && multiset(processed) + multiset(todo) == multiset(processed0) + multiset(todo0)
    && Built(a, run, processed)
    && |todo| <= |todo0|
    && (|todo| == |todo0| ==> run == run0 && todo == todo0 && i <= |todo|
                              && forall k :: 0 <= k < i ==> Applicable(a, todo0[k], run0) == [])
    && ((forall e :: e in todo0 ==> Applicable(a, e, run0) == []) ==> |todo| == |todo0|)
  }

  /** One pass of the outer loop: the `for edge in todo` loop, which walks
      the list by position while removing from it, so the edge after a
      removed one is passed over until the next pass. */
  method ScanPass(a: GraphAutomaton, run0: Run, todo0: seq<Edge>, processed0: seq<Edge>)
      returns (r: Result<Run>, todo: seq<Edge>, processed: seq<Edge>)
    requires Built(a, run0, processed0)
    ensures multiset(processed) + multiset(todo) == multiset(processed0) + multiset(todo0)
    ensures |todo| <= |todo0|
    ensures r.Ok? ==> Built(a, r.value, processed)
    ensures r.Ok? ==> (|todo| == |todo0| <==> forall e :: e in todo0 ==> Applicable(a, e, run0) == [])
    ensures r.Err? ==> r.error == AlreadyMapped && exists e :: e in todo && e.parent in Parents(processed)
  {
    var run := run0;
    todo, processed := todo0, processed0;
    var i := 0;
    while i < |todo|
      invariant PassInv(a, run0, todo0, processed0, run, todo, processed, i)
      decreases |todo| + 1 - i
    {
      var e := todo[i];
      var chosen := ChooseTransition(a, e, run);
      if chosen.None? {
        PassSkip(a, run0, todo0, processed0, run, todo, processed, i);
        i := i + 1;
      } else {
        var t := chosen.value;
        var written := MapNodeToTrans(run, e.parent, t);
        if written.Err? {
          return Err(written.error), todo, processed;
        }
        PassCommit(a, run0, todo0, processed0, run, todo, processed, i, t);
        run, processed, todo := written.value, processed + [e], RemoveFirst(todo, e);
        i := i + 1;
      }
    }
    return Ok(run), todo, processed;
  }

  /** An edge without a candidate is passed over. */
  lemma PassSkip(a: GraphAutomaton, run0: Run, todo0: seq<Edge>, processed0: seq<Edge>,
                 run: Run, todo: seq<Edge>, processed: seq<Edge>, i: int)
    requires PassInv(a, run0, todo0, processed0, run, todo, processed, i)
    requires i < |todo| && Applicable(a, todo[i], run) == []
    ensures PassInv(a, run0, todo0, processed0, run, todo, processed, i + 1)
  {
  }

  /** An edge whose candidate is written to its unmapped parent moves from
      the remaining edges to the processed ones. */
  lemma PassCommit(a: GraphAutomaton, run0: Run, todo0: seq<Edge>, processed0: seq<Edge>,
                   run: Run, todo: seq<Edge>, processed: seq<Edge>, i: int, t: Transition)
    requires PassInv(a, run0, todo0, processed0, run, todo, processed, i)
    requires i < |todo| && t in Applicable(a, todo[i], run) && todo[i].parent !in run
    ensures PassInv(a, run0, todo0, processed0, run[todo[i].parent := LabelOf(t)],
                    RemoveFirst(todo, todo[i]), processed + [todo[i]], i + 1)
  {
    var e := todo[i];
    CommitStep(a, run, processed, e, t);
    RemoveStep(todo, processed, e);
  }

  lemma RemoveStep(todo: seq<Edge>, processed: seq<Edge>, e: Edge)
    requires e in todo
    ensures multiset(processed + [e]) + multiset(RemoveFirst(todo, e)) == multiset(processed) + multiset(todo)
  {
  }

  lemma DistinctTail(es: seq<Edge>)
    requires es != [] && DistinctParents(es)
    ensures DistinctParents(es[1..]) && es[0].parent !in Parents(es[1..])
  {
    var rest := es[1..];
    forall i, j | 0 <= i < j < |rest|
      ensures rest[i].parent != rest[j].parent
    {
      assert es[i + 1].parent != es[j + 1].parent;
    }
    forall e | e in rest
      ensures e.parent != es[0].parent
    {
      var j :| 0 <= j < |rest| && rest[j] == e;
      assert es[0].parent != es[j + 1].parent;
    }
  }

  lemma SharedHead(es: seq<Edge>)
    requires es != [] && !DistinctParents(es) && DistinctParents(es[1..])
    ensures es[0].parent in Parents(es[1..])
  {
    var rest := es[1..];
    var i, j :| 0 <= i < j < |es| && es[i].parent == es[j].parent;
    assert forall p, q :: 1 <= p < q < |es| ==> es[p].parent != es[q].parent by {
      forall p, q | 1 <= p < q < |es|
        ensures es[p].parent != es[q].parent
      {
        assert es[p] == rest[p - 1] && es[q] == rest[q - 1];
      }
    }
    assert es[j] == rest[j - 1];
  }

  lemma ParentsCons(es: seq<Edge>)
    requires es != []
    ensures Parents(es) == {es[0].parent} + Parents(es[1..])
  {
    assert es == [es[0]] + es[1..];
  }

  /** Distinct parents are exactly as many parents as edges. */
  lemma {:induction false} ParentsBound(es: seq<Edge>)
    ensures |Parents(es)| <= |es|
    ensures DistinctParents(es) <==> |Parents(es)| == |es|
  {
    if es != [] {
      var rest := es[1..];
      ParentsBound(rest);
      ParentsCons(es);
      if DistinctParents(es) {
        DistinctTail(es);
        assert |Parents(es)| == |Parents(rest)| + 1;
      } else if DistinctParents(rest) {
        SharedHead(es);
        assert Parents(es) == Parents(rest);
      } else {
        assert |Parents(es)| <= |Parents(rest)| + 1;
      }
    }
  }

  lemma SameParents(p: seq<Edge>, q: seq<Edge>)
    requires multiset(p) == multiset(q)
    ensures Parents(p) == Parents(q)
  {
    forall n | n in Parents(p)
      ensures n in Parents(q)
    {
      var e :| e in p && e.parent == n;
      assert e in multiset(p);
    }
    forall n | n in Parents(q)
      ensures n in Parents(p)
    {
      var e :| e in q && e.parent == n;
      assert e in multiset(q);
    }
  }

  /** A write refused because the parent is already mapped means two edges
      of the graph share that parent. */
  lemma SharedParent(edges: seq<Edge>, processed: seq<Edge>, todo: seq<Edge>, e: Edge)
    requires multiset(processed) + multiset(todo) == multiset(edges)
    requires e in todo && e.parent in Parents(processed)
    ensures |Parents(edges)| < |edges|
  {
    var rest := processed + RemoveFirst(todo, e);
    assert multiset(rest) + multiset{e} == multiset(edges);
    SameParents(rest + [e], edges);
    assert Parents(rest + [e]) == Parents(rest) by {
      assert forall x :: x in rest + [e] ==> x in rest || x == e;
    }
    ParentsBound(rest);
    assert |edges| == |rest| + 1 by {
      assert |multiset(edges)| == |multiset(rest)| + 1;
    }
  }

  /** A pass starts from a run built from `done`, with edges `rest` still to
      go, none of which has a candidate transition. */
  ghost predicate StuckAt(a: GraphAutomaton, g: Graph, s: Run, done: seq<Edge>, rest: seq<Edge>) {
    && rest != []
    && Built(a, s, done)
    && multiset(done) + multiset(rest) == multiset(g.edges)
    && forall e :: e in rest ==> Applicable(a, e, s) == []
  }

  /** The construction loop of `automaton_run` (lines 246-264): passes over
      the remaining edges until none is left, failing when a whole pass
      commits nothing. */
  method ConstructRun(a: GraphAutomaton, g: Graph) returns (r: Result<Run>, processed: seq<Edge>)
    ensures r.Ok? ==> multiset(processed) == multiset(g.edges)
    ensures r.Ok? ==> Built(a, r.value, processed)
    ensures r.Ok? ==> r.value.Keys == Parents(g.edges)
    ensures r.Err? ==> r.error == AlreadyMapped || r.error == RunFailed
    ensures r == Err(AlreadyMapped) ==> |Parents(g.edges)| < |g.edges|
    ensures |Parents(g.edges)| < |g.edges| ==> r.Err?
    ensures r == Err(RunFailed) ==> exists s, done, rest :: StuckAt(a, g, s, done, rest)
  {
    var run := EmptyRun;
    var todo := g.edges;
    processed := [];
    while |todo| != 0
      invariant multiset(processed) + multiset(todo) == multiset(g.edges)
      invariant Built(a, run, processed)
      decreases |todo|
    {
      var next, todo', processed' := ScanPass(a, run, todo, processed);
      if next.Err? {
        var e :| e in todo' && e.parent in Parents(processed');
        SharedParent(g.edges, processed', todo', e);
        return Err(AlreadyMapped), processed';
      }
      if |todo'| == |todo| {
        assert StuckAt(a, g, run, processed, todo);
        return Err(RunFailed), processed';
      }
      run, todo, processed := next.value, todo', processed';
    }
    assert multiset(processed) == multiset(g.edges);
    SameParents(processed, g.edges);
    ParentsBound(processed);
    ParentsBound(g.edges);
    return Ok(run), processed;
  }

  /** A run built from the transitions of `a` carries only their jump labels. */
  lemma BuiltJumpsWellFormed(a: GraphAutomaton, run: Run, processed: seq<Edge>)
    requires JumpsWellFormed(a) && Built(a, run, processed)
    ensures RunJumpsWellFormed(run)
  {
    forall n, j | n in run && j in run[n].data.jumps
      ensures IsJump(j)
    {
      var e :| e in processed && e.parent == n;
      var k :| 0 <= k < |processed| && processed[k] == e;
      assert CommittedAt(a, run, processed, k);
    }
  }

  /** `automaton_run`: builds the run, then checks it with
      `check_run_graph_semantics` (crossing check in `mode`) and that every
      registered node is mapped. */
  method AutomatonRun(a: GraphAutomaton, g: Graph, mode: Mode) returns (r: Result<Run>)
    requires JumpsWellFormed(a)
    ensures r.Ok? ==> forall n :: n in g.nodes ==> n in r.value
    ensures r.Ok? ==> r.value.Keys == Parents(g.edges)
    ensures r.Ok? ==> exists processed :: multiset(processed) == multiset(g.edges) && Built(a, r.value, processed)
    ensures r.Ok? ==> ConnectsHold(g, r.value) && exists pairs :: JumpsHold(g, r.value, mode, pairs)
    ensures |Parents(g.edges)| < |g.edges| ==> r.Err?
  {
    var built, processed := ConstructRun(a, g);
    if built.Err? {
      return Err(built.error);
    }
    var run := built.value;
    BuiltJumpsWellFormed(a, run, processed);
    var checked := CheckRunGraphSemantics(g, run, mode);
    if checked.Err? {
      return Err(checked.error);
    }
    if !(forall n :: n in g.nodes ==> n in run) {
      return Err(RunIncomplete);
    }
    return Ok(run);
  }
}

/** The root-driven traversal that runs the connect and jump passes over
    every node, and `check_run_graph_semantics`, which runs both in turn. */
module Semantics {
  import opened Base
  import opened GraphTypes
  import opened Automaton
  import opened Traversal
  import opened Connects
  import opened Jumps
  import opened Crossing

  /** Which pass the traversal drives. */
  datatype Pass = ConnectPass | JumpPass

  /** The items a node contributes to a pass: its variables or its jump labels. */
  function Items(pass: Pass, l: Labelling): set<string> {
    match pass
    case ConnectPass => l.data.vars
    case JumpPass => l.data.jumps
  }

  /** `_should_process_node_connects` / `_should_process_node_jumps`: the
      node has items and one of them is not processed yet. */
  predicate ShouldProcess(pass: Pass, l: Labelling, items: set<string>) {
    |Items(pass, l)| > 0 && !(Items(pass, l) <= items)
  }

  lemma ShouldProcessIff(pass: Pass, l: Labelling, items: set<string>)
    ensures ShouldProcess(pass, l, items) <==> exists x :: x in Items(pass, l) && x !in items
  {
    if x :| x in Items(pass, l) && x !in items {
      assert |Items(pass, l)| > 0;
    }
  }

  /** `v` has been checked clean from a visited node that carries it. */
  ghost predicate VarCovered(g: Graph, run: Run, done: set<Node>, v: Var) {
    exists m :: m in done && m in run && v in run[m].data.vars && ConnectClean(g, run, m, v)
  }

  /** `x` has been matched: some recorded pair carries `x`, or its reverse, at its origin. */
  ghost predicate JumpCovered(run: Run, pairs: seq<Pair>, x: Jump) {
    exists k :: 0 <= k < |pairs| && (LabelPairs(run, pairs[k], x) || (IsJump(x) && LabelPairs(run, pairs[k], ReverseJump(x))))
  }

  ghost predicate ItemCovered(g: Graph, run: Run, pass: Pass, done: set<Node>, pairs: seq<Pair>, x: string) {
    match pass
    case ConnectPass => VarCovered(g, run, done, x)
    case JumpPass => JumpCovered(run, pairs, x)
  }

  /** Every recorded pair is a match the jump search can make. */
  ghost predicate PairsValid(g: Graph, run: Run, pairs: seq<Pair>) {
    forall k :: 0 <= k < |pairs| ==> PairMatched(g, run, pairs[k]) && FreshTarget(pairs, k)
  }

  /** The node part of the loop invariant. */
  ghost predicate VisitInv(g: Graph, run: Run, root: Node, todo: set<Node>, done: set<Node>) {
    && todo <= NodesOf(g) + {root}
    && done <= NodesOf(g) + {root}
    && (forall n :: n in todo ==> n !in done)
    && (root in todo || root in done)
    && (forall n :: n in todo ==> n == root || Reaches(g, root, n))
    && (forall n :: n in done ==> n == root || Reaches(g, root, n))
    && (forall n, m :: n in done && m in Successors(g, n) ==> m in todo || m in done)
    && (forall n :: n in done ==> n in run)
  }

  /** The item part of the loop invariant. */
  ghost predicate ItemInv(g: Graph, run: Run, pass: Pass, done: set<Node>, items: set<string>, pairs: seq<Pair>) {
    && (forall n, x :: n in done && n in run && x in Items(pass, run[n]) ==> x in items)
    && (forall x :: x in items ==> ItemCovered(g, run, pass, done, pairs, x))
    && (pass == ConnectPass ==> pairs == [])
    && (pass == JumpPass ==> PairsValid(g, run, pairs))
  }

  /** The worklist after visiting `n`: its successors not yet visited join it. */
  function NextTodo(g: Graph, n: Node, todo: set<Node>, done: set<Node>): (r: set<Node>)
    ensures forall m :: m in r <==> (m in todo && m != n) || (m in Successors(g, n) && m !in done)
  {
    (todo - {n}) + (set m | m in Successors(g, n) && m !in done)
  }

  lemma VisitInvInit(g: Graph, run: Run, root: Node)
    requires root in NodesOf(g) + {root}
    ensures VisitInv(g, run, root, {root}, {})
  {
  }

  lemma VisitStep(g: Graph, run: Run, root: Node, todo: set<Node>, done: set<Node>, n: Node)
    requires VisitInv(g, run, root, todo, done)
    requires n in todo && n in run
    ensures VisitInv(g, run, root, NextTodo(g, n, todo, done + {n}), done + {n})
    ensures |(NodesOf(g) + {root}) - (done + {n})| < |(NodesOf(g) + {root}) - done|
  {
    var u := NodesOf(g) + {root};
    var done', todo' := done + {n}, NextTodo(g, n, todo, done + {n});
    SuccessorsInGraph(g, n);
    assert todo' <= u;
    assert done' <= u;
    forall m | m in todo'
      ensures m == root || Reaches(g, root, m)
    {
      if m !in todo && m != root {
        assert m in Successors(g, n);
        if n == root {
          assert PathStep(g, [root, m], 0);
          assert IsPath(g, [root, m], root, m);
        } else {
          var p :| IsPath(g, p, root, n);
          PathExtend(g, p, root, n, m);
        }
      }
    }
    FewerLeft(u, done, done', n);
  }

  /** The connect pass processed `n`: its variables join the items, each
      covered by `n` itself. */
  lemma ConnectItemStep(g: Graph, run: Run, done: set<Node>, items: set<string>, n: Node, items': set<string>)
    requires forall m :: m in done ==> m in run
    requires n in run
    requires ItemInv(g, run, ConnectPass, done, items, [])
    requires items' == items + run[n].data.vars
    requires forall v :: v in run[n].data.vars ==> ConnectClean(g, run, n, v)
    ensures ItemInv(g, run, ConnectPass, done + {n}, items', [])
  {
    var done' := done + {n};
    forall x | x in items'
      ensures VarCovered(g, run, done', x)
    {
      if x !in items {
        assert n in done' && x in run[n].data.vars && ConnectClean(g, run, n, x);
      } else {
        assert ItemCovered(g, run, ConnectPass, done, [], x);
        var m :| m in done && m in run && x in run[m].data.vars && ConnectClean(g, run, m, x);
        assert m in done';
      }
    }
  }

  /** The jump pass processed `n`: its labels and their reverses join the
      items, each covered by a new pair. */
  lemma JumpItemStep(g: Graph, run: Run, done: set<Node>, items: set<string>, pairs: seq<Pair>, n: Node,
                     items': set<string>, pairs': seq<Pair>)
    requires forall m :: m in done ==> m in run
    requires n in run && RunJumpsWellFormed(run)
    requires ItemInv(g, run, JumpPass, done, items, pairs)
    requires NewPairsFrom(g, run, n, pairs, pairs')
    requires items' == items + run[n].data.jumps + Reversed(run[n].data.jumps)
    requires LabelsMatched(run, n, run[n].data.jumps, |pairs|, pairs')
    ensures ItemInv(g, run, JumpPass, done + {n}, items', pairs')
  {
    NewPairsValid(g, run, pairs, n, pairs');
    assert forall x :: x in items ==> JumpCovered(run, pairs, x) by {
      forall x | x in items
        ensures JumpCovered(run, pairs, x)
      {
        assert ItemCovered(g, run, JumpPass, done, pairs, x);
      }
    }
    JumpCoverStep(run, items, pairs, n, items', pairs');
    forall x | x in items'
      ensures ItemCovered(g, run, JumpPass, done + {n}, pairs', x)
    {
      assert JumpCovered(run, pairs', x);
    }
    DoneItemsStep(run, JumpPass, done, items, n, items');
  }

  /** The items of the visited nodes stay processed after visiting `n`. */
  lemma DoneItemsStep(run: Run, pass: Pass, done: set<Node>, items: set<string>, n: Node, items': set<string>)
    requires forall m, x :: m in done && m in run && x in Items(pass, run[m]) ==> x in items
    requires items <= items' && n in run && Items(pass, run[n]) <= items'
    ensures forall m, x :: m in done + {n} && m in run && x in Items(pass, run[m]) ==> x in items'
  {
  }

  lemma JumpCoverStep(run: Run, items: set<string>, pairs: seq<Pair>, n: Node, items': set<string>, pairs': seq<Pair>)
    requires n in run && RunJumpsWellFormed(run)
    requires forall x :: x in items ==> JumpCovered(run, pairs, x)
    requires |pairs| <= |pairs'| && pairs'[..|pairs|] == pairs
    requires items' == items + run[n].data.jumps + Reversed(run[n].data.jumps)
    requires LabelsMatched(run, n, run[n].data.jumps, |pairs|, pairs')
    ensures forall x :: x in items' ==> JumpCovered(run, pairs', x)
  {
    var js := run[n].data.jumps;
    forall x | x in items'
      ensures JumpCovered(run, pairs', x)
    {
      if x in items {
        var k :| 0 <= k < |pairs| && (LabelPairs(run, pairs[k], x) || (IsJump(x) && LabelPairs(run, pairs[k], ReverseJump(x))));
        assert pairs'[k] == pairs[k];
      } else if x in js {
        var k :| |pairs| <= k < |pairs'| && pairs'[k].0 == n && LabelPairs(run, pairs'[k], x);
      } else {
        ReversedMember(js, x);
        var j :| j in js && IsJump(j) && x == ReverseJump(j);
        ReverseInvolution(j);
        var k :| |pairs| <= k < |pairs'| && pairs'[k].0 == n && LabelPairs(run, pairs'[k], j);
        assert LabelPairs(run, pairs'[k], ReverseJump(x));
      }
    }
  }

  /** Visiting `n` without processing it keeps the item invariant: all its
      items are already processed. */
  lemma SkipItemStep(g: Graph, run: Run, pass: Pass, done: set<Node>, items: set<string>, pairs: seq<Pair>, n: Node)
    requires forall m :: m in done ==> m in run
    requires n in run && !ShouldProcess(pass, run[n], items)
    requires ItemInv(g, run, pass, done, items, pairs)
    ensures ItemInv(g, run, pass, done + {n}, items, pairs)
  {
    forall x | x in items
      ensures ItemCovered(g, run, pass, done + {n}, pairs, x)
    {
      assert ItemCovered(g, run, pass, done, pairs, x);
      if pass == ConnectPass {
        var m :| m in done && m in run && x in run[m].data.vars && ConnectClean(g, run, m, x);
        assert m in done + {n};
      }
    }
  }

  /** The body of the traversal loop for a mapped node `n`: it is handed to
      the pass only while one of its items is unprocessed. */
  method VisitNode(g: Graph, run: Run, pass: Pass, done: set<Node>, n: Node, items: set<string>, pairs: seq<Pair>)
      returns (r: Result<bool>, items': set<string>, pairs': seq<Pair>)
    requires n in run && (forall m :: m in done ==> m in run)
    requires pass == JumpPass ==> RunJumpsWellFormed(run)
    requires ItemInv(g, run, pass, done, items, pairs)
    ensures !ShouldProcess(pass, run[n], items) ==> r == Ok(true) && items' == items && pairs' == pairs
    ensures r == Ok(true) ==> ItemInv(g, run, pass, done + {n}, items', pairs')
    ensures pass == ConnectPass ==> pairs' == [] && (r.Err? ==> r.error == Unmapped)
    ensures pass == JumpPass ==> PairsValid(g, run, pairs') && (r.Err? ==> r.error in {Unmapped, JumpTargetShared})
    ensures r == Ok(false) && pass == ConnectPass ==>
              exists v :: v in run[n].data.vars && ConnectViolated(g, run, n, v)
    ensures r == Ok(false) && pass == JumpPass ==>
              exists j :: j in run[n].data.jumps && IsJump(j) && Unmatchable(g, run, n, j, pairs')
  {
    if !ShouldProcess(pass, run[n], items) {
      SkipItemStep(g, run, pass, done, items, pairs, n);
      return Ok(true), items, pairs;
    }
    match pass
    case ConnectPass =>
      r, items' := VisitConnects(g, run, done, n, items);
      pairs' := pairs;
    case JumpPass =>
      r, items', pairs' := VisitJumps(g, run, done, n, items, pairs);
  }

  /** `_process_node_connects` inside the traversal. */
  method VisitConnects(g: Graph, run: Run, done: set<Node>, n: Node, items: set<string>) returns (r: Result<bool>, items': set<string>)
    requires n in run && (forall m :: m in done ==> m in run)
    requires ItemInv(g, run, ConnectPass, done, items, [])
    ensures r == Ok(true) ==> ItemInv(g, run, ConnectPass, done + {n}, items', [])
    ensures r.Err? ==> r.error == Unmapped
    ensures r == Ok(false) ==> exists v :: v in run[n].data.vars && ConnectViolated(g, run, n, v)
  {
    r, items' := ProcessNodeConnects(g, run, n, items);
    if r == Ok(true) {
      ConnectItemStep(g, run, done, items, n, items');
    }
  }

  /** `_process_node_jumps` inside the traversal. */
  method VisitJumps(g: Graph, run: Run, done: set<Node>, n: Node, items: set<string>, pairs: seq<Pair>)
      returns (r: Result<bool>, items': set<string>, pairs': seq<Pair>)
    requires n in run && (forall m :: m in done ==> m in run) && RunJumpsWellFormed(run)
    requires ItemInv(g, run, JumpPass, done, items, pairs)
    ensures PairsValid(g, run, pairs')
    ensures r == Ok(true) ==> ItemInv(g, run, JumpPass, done + {n}, items', pairs')
    ensures r.Err? ==> r.error in {Unmapped, JumpTargetShared}
    ensures r == Ok(false) ==> exists j :: j in run[n].data.jumps && IsJump(j) && Unmatchable(g, run, n, j, pairs')
  {
    r, items', pairs' := ProcessNodeJumps(g, run, n, items, pairs);
    NewPairsValid(g, run, pairs, n, pairs');
    if r == Ok(true) {
      JumpItemStep(g, run, done, items, pairs, n, items', pairs');
    }
  }

  /** The worklist loop of `_run_graph_traversal` from `root`: it stops at
      the first node the pass rejects, and otherwise returns the visited
      nodes. The order in which the worklist is taken apart is left open. */
  method Walk(g: Graph, run: Run, pass: Pass, root: Node) returns (r: Result<bool>, pairs: seq<Pair>, done: set<Node>)
    requires pass == JumpPass ==> RunJumpsWellFormed(run)
    ensures r.Err? ==> r.error in {Unmapped, JumpTargetShared}
    ensures pass == ConnectPass ==> pairs == [] && (r.Err? ==> r.error == Unmapped)
    ensures pass == JumpPass ==> PairsValid(g, run, pairs)
    ensures r == Ok(true) ==> VisitInv(g, run, root, {}, done)
    ensures r == Ok(true) ==> exists items :: ItemInv(g, run, pass, done, items, pairs)
    ensures r == Ok(false) && pass == ConnectPass ==>
              exists n, v :: n in run && v in run[n].data.vars && ConnectViolated(g, run, n, v)
    ensures r == Ok(false) && pass == JumpPass ==>
              exists n, j :: n in run && j in run[n].data.jumps && IsJump(j) && Unmatchable(g, run, n, j, pairs)
  {
    pairs := [];
    var todo: set<Node> := {root};
    var items: set<string> := {};
    done := {};
    VisitInvInit(g, run, root);
    while todo != {}
      invariant VisitInv(g, run, root, todo, done)
      invariant ItemInv(g, run, pass, done, items, pairs)
      decreases |(NodesOf(g) + {root}) - done|
    {
      var n :| n in todo;
      if n !in run {
        return Err(Unmapped), pairs, done;
      }
      var ok, items', pairs' := VisitNode(g, run, pass, done, n, items, pairs);
      if ok != Ok(true) {
        return ok, pairs', done;
      }
      items, pairs := items', pairs';
      VisitStep(g, run, root, todo, done, n);
      todo, done := NextTodo(g, n, todo, done + {n}), done + {n};
    }
    return Ok(true), pairs, done;
  }

  /** `_run_graph_traversal`: visits every node reachable from the root,
      processes a node only while one of its items is unprocessed, checks
      that the visited nodes are the registered ones, and runs the crossing
      check in `mode` after a complete jump pass. The program's own check is
      `AsWritten`; `Corrected` is the check it evidently intends. */
  method RunGraphTraversal(g: Graph, run: Run, pass: Pass, mode: Mode) returns (r: Result<bool>, pairs: seq<Pair>)
    requires pass == JumpPass ==> RunJumpsWellFormed(run)
    ensures r.Err? ==> r.error in {NoRootFound, Unmapped, TraversalIncomplete, JumpTargetShared, MalformedPair, PathMissing}
    ensures pass == ConnectPass ==> pairs == [] && (r.Err? ==> r.error in {NoRootFound, Unmapped, TraversalIncomplete})
    ensures pass == JumpPass ==> PairsValid(g, run, pairs)
    ensures r == Ok(true) ==> (forall n :: n in g.nodes ==> n in run)
    ensures r == Ok(true) ==> (forall n, m :: n in g.nodes && m in Successors(g, n) ==> m in g.nodes)
    ensures r == Ok(true) ==> exists root :: root in g.nodes && !IsChild(g, root) &&
                                     forall n :: n in g.nodes ==> n == root || Reaches(g, root, n)
    ensures r == Ok(true) ==> forall n, x :: n in g.nodes && x in Items(pass, run[n]) ==> ItemCovered(g, run, pass, g.nodes, pairs, x)
    ensures r == Ok(true) && pass == JumpPass ==> Ready(g, run, pairs) && Passes(g, run, mode, pairs)
    ensures r == Ok(false) && pass == ConnectPass ==>
              exists n, v :: n in run && v in run[n].data.vars && ConnectViolated(g, run, n, v)
    ensures r == Ok(false) && pass == JumpPass ==>
              (exists n, j :: n in run && j in run[n].data.jumps && IsJump(j) && Unmatchable(g, run, n, j, pairs))
              || (Ready(g, run, pairs) && !Passes(g, run, mode, pairs))
  {
    var found := Root(g);
    if found.Err? {
      return Err(NoRootFound), [];
    }
    var done;
    r, pairs, done := Walk(g, run, pass, found.value);
    if r != Ok(true) {
      return;
    }
    if done != g.nodes {
      return Err(TraversalIncomplete), pairs;
    }
    ghost var items :| ItemInv(g, run, pass, done, items, pairs);
    TraversalComplete(g, run, pass, found.value, done, items, pairs);
    if pass == JumpPass {
      ReadyAfterJumps(g, run, pairs);
      r := FinalCheck(g, run, mode, pairs);
    }
  }

  /** When the worklist runs out and the visited nodes are the registered
      ones, the registered nodes are mapped, closed under successors and
      reachable from the root, and every item they carry is covered. */
  lemma TraversalComplete(g: Graph, run: Run, pass: Pass, root: Node, done: set<Node>, items: set<string>, pairs: seq<Pair>)
    requires VisitInv(g, run, root, {}, done) && ItemInv(g, run, pass, done, items, pairs)
    requires done == g.nodes && root in g.nodes && !IsChild(g, root)
    ensures forall n :: n in g.nodes ==> n in run
    ensures forall n, m :: n in g.nodes && m in Successors(g, n) ==> m in g.nodes
    ensures exists root :: root in g.nodes && !IsChild(g, root) &&
                           forall n :: n in g.nodes ==> n == root || Reaches(g, root, n)
    ensures forall n, x :: n in g.nodes && x in Items(pass, run[n]) ==> ItemCovered(g, run, pass, g.nodes, pairs, x)
  {
  }

  /** Appending the pairs of one processed node keeps the recorded pairs valid. */
  lemma NewPairsValid(g: Graph, run: Run, pairs: seq<Pair>, n: Node, pairs': seq<Pair>)
    requires PairsValid(g, run, pairs)
    requires NewPairsFrom(g, run, n, pairs, pairs')
    ensures PairsValid(g, run, pairs')
  {
    forall k | 0 <= k < |pairs'|
      ensures PairMatched(g, run, pairs'[k]) && FreshTarget(pairs', k)
    {
      if k < |pairs| {
        assert pairs'[k] == pairs[k];
        assert pairs'[..k] == pairs[..k];
      }
    }
  }

  lemma ReadyAfterJumps(g: Graph, run: Run, pairs: seq<Pair>)
    requires RunJumpsWellFormed(run) && (forall n :: n in g.nodes ==> n in run)
    requires PairsValid(g, run, pairs)
    ensures Ready(g, run, pairs)
  {
    forall k | 0 <= k < |pairs|
      ensures pairs[k].0 in run && pairs[k].1 in run
    {
      assert PairMatched(g, run, pairs[k]);
    }
  }

  /** Every variable of a registered node has been checked clean from a
      registered node that carries it. */
  ghost predicate ConnectsHold(g: Graph, run: Run) {
    forall n, v :: n in g.nodes && n in run && v in run[n].data.vars ==> VarCovered(g, run, g.nodes, v)
  }

  /** The recorded pairs are valid matches that cover every label of a
      registered node, and the crossing check in `mode` accepts them. */
  ghost predicate JumpsHold(g: Graph, run: Run, mode: Mode, pairs: seq<Pair>) {
    && PairsValid(g, run, pairs)
    && Ready(g, run, pairs)
    && Passes(g, run, mode, pairs)
    && forall n, j :: n in g.nodes && n in run && j in run[n].data.jumps ==> JumpCovered(run, pairs, j)
  }

  lemma ConnectCoverage(g: Graph, run: Run)
    requires forall n :: n in g.nodes ==> n in run
    requires forall n, x :: n in g.nodes && x in Items(ConnectPass, run[n]) ==> ItemCovered(g, run, ConnectPass, g.nodes, [], x)
    ensures ConnectsHold(g, run)
  {
    forall n, v | n in g.nodes && n in run && v in run[n].data.vars
      ensures VarCovered(g, run, g.nodes, v)
    {
      assert ItemCovered(g, run, ConnectPass, g.nodes, [], v);
    }
  }

  lemma JumpCoverage(g: Graph, run: Run, mode: Mode, pairs: seq<Pair>)
    requires forall n :: n in g.nodes ==> n in run
    requires forall n, x :: n in g.nodes && x in Items(JumpPass, run[n]) ==> ItemCovered(g, run, JumpPass, g.nodes, pairs, x)
    requires PairsValid(g, run, pairs) && Ready(g, run, pairs) && Passes(g, run, mode, pairs)
    ensures JumpsHold(g, run, mode, pairs)
  {
    forall n, j | n in g.nodes && n in run && j in run[n].data.jumps
      ensures JumpCovered(run, pairs, j)
    {
      assert ItemCovered(g, run, JumpPass, g.nodes, pairs, j);
    }
  }

  /** Whatever the program's own crossing check accepts, the corrected one
      accepts too. */
  lemma AsWrittenJumpsHoldCorrected(g: Graph, run: Run, pairs: seq<Pair>)
    requires JumpsHold(g, run, AsWritten, pairs)
    ensures JumpsHold(g, run, Corrected, pairs)
  {
    AsWrittenPassesIff(g, run, pairs);
  }

  /** `GraphAutomaton.check_run_graph_semantics`: the connect pass, then the
      jump pass with the crossing check in `mode`, then the check that every
      registered node is mapped. */
  method CheckRunGraphSemantics(g: Graph, run: Run, mode: Mode) returns (r: Result<()>)
    requires RunJumpsWellFormed(run)
    ensures r.Ok? ==> (forall n :: n in g.nodes ==> n in run)
    ensures r.Ok? ==> ConnectsHold(g, run) && exists pairs :: JumpsHold(g, run, mode, pairs)
    ensures r == Err(ConnectsFailed) ==> exists n, v :: n in run && v in run[n].data.vars && ConnectViolated(g, run, n, v)
    ensures r == Err(JumpsFailed) ==> ConnectsHold(g, run)
    ensures r == Err(JumpsFailed) ==> exists pairs ::
              PairsValid(g, run, pairs) &&
              ((exists n, j :: n in run && j in run[n].data.jumps && IsJump(j) && Unmatchable(g, run, n, j, pairs))
               || (Ready(g, run, pairs) && !Passes(g, run, mode, pairs)))
    ensures r.Err? ==> r.error !in {AlreadyMapped, RunFailed, RunIncomplete}
  {
    var connects, _ := RunGraphTraversal(g, run, ConnectPass, mode);
    if connects.Err? {
      return Err(connects.error);
    }
    if !connects.value {
      return Err(ConnectsFailed);
    }
    var jumps, pairs := RunGraphTraversal(g, run, JumpPass, mode);
    if jumps.Err? {
      return Err(jumps.error);
    }
    ConnectCoverage(g, run);
    if !jumps.value {
      return Err(JumpsFailed);
    }
    JumpCoverage(g, run, mode, pairs);
    if !(forall n :: n in g.nodes ==> n in run) {
      return Err(RunIncomplete);
    }
    return Ok(());
  }
}

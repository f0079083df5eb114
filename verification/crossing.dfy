/** `_jump_final_check`: after the jump pass, recorded pairs that carry the
    same label must not share nodes along their paths. The source compares a
    pair's path with itself; `AsWritten` models that, `Corrected` compares it
    with the other pair's path. The passes take the mode as a parameter. */
module Crossing {
  import opened Base
  import opened GraphTypes
  import opened Automaton
  import opened Traversal
  import opened Jumps

  datatype Mode = AsWritten | Corrected

  /** One innermost iteration of the check: the index of the pair under
      inspection, one of its labels, a node carrying the same label, and the
      index of a pair that contains that node. */
  type Quad = (int, Jump, Node, int)

  /** What the check needs of its inputs: every registered node and every
      recorded endpoint is mapped, and labels are well formed. */
  predicate Ready(g: Graph, run: Run, pairs: seq<Pair>) {
    && RunJumpsWellFormed(run)
    && (forall n :: n in g.nodes ==> n in run)
    && (forall k :: 0 <= k < |pairs| ==> pairs[k].0 in run && pairs[k].1 in run)
  }

  predicate IsQuad(g: Graph, run: Run, pairs: seq<Pair>, q: Quad)
    requires Ready(g, run, pairs)
  {
    && 0 <= q.0 < |pairs|
    && q.1 in run[pairs[q.0].0].data.jumps
    && ReverseJump(q.1) in run[pairs[q.0].1].data.jumps
    && q.2 in g.nodes
    && q.1 in run[q.2].data.jumps
    && 0 <= q.3 < |pairs|
    && InPair(pairs[q.3], q.2)
  }

  /** Every iteration the nested loops of the check go through. */
  function Quads(g: Graph, run: Run, pairs: seq<Pair>): (r: set<Quad>)
    requires Ready(g, run, pairs)
    ensures forall q :: q in r <==> IsQuad(g, run, pairs, q)
  {
    set k, j, s, m | 0 <= k < |pairs| && j in run[pairs[k].0].data.jumps
                  && ReverseJump(j) in run[pairs[k].1].data.jumps
                  && s in g.nodes && j in run[s].data.jumps
                  && 0 <= m < |pairs| && InPair(pairs[m], s) :: (k, j, s, m)
  }

  /** The endpoint of `sp` other than `s`. */
  function SecondNode(sp: Pair, s: Node): Node {
    if sp.0 == s then sp.1 else sp.0
  }

  function PathNodes(p: seq<Node>): (r: set<Node>)
    ensures forall x :: x in r <==> x in p
  {
    set x | x in p
  }

  /** The pair the check compares with, and a node of it that carries the
      reverse label: the only iterations that look at paths. */
  predicate Compared(run: Run, pairs: seq<Pair>, q: Quad)
    requires 0 <= q.0 < |pairs| && 0 <= q.3 < |pairs|
    requires IsJump(q.1) && SecondNode(pairs[q.3], q.2) in run
  {
    && pairs[q.3] != pairs[q.0]
    && pairs[q.3].0 != pairs[q.3].1
    && ReverseJump(q.1) in run[SecondNode(pairs[q.3], q.2)].data.jumps
  }

  /** The path comparison of lines 67-69: `Ok(false)` when the two paths
      meet, `PathMissing` when a path is absent. As written, the path of `p`
      is compared with itself. */
  function ComparePaths(g: Graph, mode: Mode, p: Pair, sp: Pair): (r: Result<bool>)
    ensures r.Err? ==> r.error == PathMissing
    ensures mode == Corrected ==> (r.Ok? <==> Reaches(g, p.0, p.1) && Reaches(g, sp.0, sp.1))
    ensures mode == AsWritten ==> (r.Ok? <==> Reaches(g, p.0, p.1))
  {
    var path1 := FindPath(g, p.0, p.1);
    var path2 := if mode == AsWritten then FindPath(g, p.0, p.1) else FindPath(g, sp.0, sp.1);
    if path1.None? || path2.None? then Err(PathMissing)
    else Ok(PathNodes(path1.value) * PathNodes(path2.value) == {})
  }

  /** One iteration: `Ok(true)` goes on, `Ok(false)` makes the check return
      False, an error is the exception the iteration raises. */
  function Judge(g: Graph, run: Run, mode: Mode, pairs: seq<Pair>, q: Quad): (r: Result<bool>)
    requires Ready(g, run, pairs) && IsQuad(g, run, pairs, q)
    ensures r.Err? ==> r.error == MalformedPair || r.error == PathMissing
    ensures r == Err(MalformedPair) <==> pairs[q.3] != pairs[q.0] && pairs[q.3].0 == pairs[q.3].1
    ensures !Compared(run, pairs, q) ==> r != Ok(false) && r != Err(PathMissing)
    ensures Compared(run, pairs, q) ==> r == ComparePaths(g, mode, pairs[q.0], pairs[q.3])
  {
    var p, sp := pairs[q.0], pairs[q.3];
    if sp == p then Ok(true)
    else if sp.0 == sp.1 then Err(MalformedPair)
    else if ReverseJump(q.1) !in run[SecondNode(sp, q.2)].data.jumps then Ok(true)
    else ComparePaths(g, mode, p, sp)
  }

  /** The check returns True: no iteration stops it. */
  predicate Passes(g: Graph, run: Run, mode: Mode, pairs: seq<Pair>)
    requires Ready(g, run, pairs)
  {
    forall q :: q in Quads(g, run, pairs) ==> Judge(g, run, mode, pairs, q) == Ok(true)
  }

  /** `_jump_final_check`, with the iteration order left open: it stops at
      the first iteration that returns False or raises. */
  method FinalCheck(g: Graph, run: Run, mode: Mode, pairs: seq<Pair>) returns (r: Result<bool>)
    requires Ready(g, run, pairs)
    ensures r == Ok(true) <==> Passes(g, run, mode, pairs)
    ensures r != Ok(true) ==> exists q :: q in Quads(g, run, pairs) && Judge(g, run, mode, pairs, q) == r
  {
    var todo := Quads(g, run, pairs);
    ghost var done: set<Quad> := {};
    while todo != {}
      invariant todo + done == Quads(g, run, pairs)
      invariant forall q :: q in done ==> Judge(g, run, mode, pairs, q) == Ok(true)
      decreases todo
    {
      var q :| q in todo;
      var v := Judge(g, run, mode, pairs, q);
      if v != Ok(true) {
        return v;
      }
      todo, done := todo - {q}, done + {q};
    }
    return Ok(true);
  }

  /** With one pair recorded the pair is compared only with itself, which
      the check skips: it passes in either mode. */
  lemma OnePairPasses(g: Graph, run: Run, mode: Mode, p: Pair)
    requires Ready(g, run, [p])
    ensures Passes(g, run, mode, [p])
  {
    forall q | q in Quads(g, run, [p])
      ensures Judge(g, run, mode, [p], q) == Ok(true)
    {
      assert q.0 == 0 && q.3 == 0;
    }
  }

  /** As written, every compared pair makes the check fail, whatever the
      paths look like: the path of the inspected pair meets itself. */
  lemma AsWrittenRejectsCompared(g: Graph, run: Run, pairs: seq<Pair>, q: Quad)
    requires Ready(g, run, pairs) && IsQuad(g, run, pairs, q)
    requires Compared(run, pairs, q)
    requires Reaches(g, pairs[q.0].0, pairs[q.0].1)
    ensures Judge(g, run, AsWritten, pairs, q) == Ok(false)
    ensures !Passes(g, run, AsWritten, pairs)
  {
    var p := pairs[q.0];
    var path := FindPath(g, p.0, p.1);
    assert p.0 in PathNodes(path.value) * PathNodes(path.value);
    assert ComparePaths(g, AsWritten, p, pairs[q.3]) == Ok(false);
    assert q in Quads(g, run, pairs);
  }

  /** As written, a path comparison never lets the check go on: either a
      path is missing or the path meets itself at its origin. */
  lemma AsWrittenNeverPassesComparison(g: Graph, p: Pair, sp: Pair)
    ensures ComparePaths(g, AsWritten, p, sp) != Ok(true)
  {
    var path := FindPath(g, p.0, p.1);
    if path.Some? {
      assert p.0 in PathNodes(path.value) * PathNodes(path.value);
    }
  }

  /** As written, the check passes exactly when no iteration reaches the
      path comparison and no compared pair has equal endpoints; the
      corrected check then passes as well. */
  lemma AsWrittenPassesIff(g: Graph, run: Run, pairs: seq<Pair>)
    requires Ready(g, run, pairs)
    ensures Passes(g, run, AsWritten, pairs) <==>
            forall q :: q in Quads(g, run, pairs) ==>
              && !Compared(run, pairs, q)
              && (pairs[q.3] != pairs[q.0] ==> pairs[q.3].0 != pairs[q.3].1)
    ensures Passes(g, run, AsWritten, pairs) ==> Passes(g, run, Corrected, pairs)
  {
    forall q | q in Quads(g, run, pairs)
      ensures Judge(g, run, AsWritten, pairs, q) == Ok(true) <==>
                && !Compared(run, pairs, q)
                && (pairs[q.3] != pairs[q.0] ==> pairs[q.3].0 != pairs[q.3].1)
      ensures Judge(g, run, AsWritten, pairs, q) == Ok(true) ==> Judge(g, run, Corrected, pairs, q) == Ok(true)
    {
      AsWrittenNeverPassesComparison(g, pairs[q.0], pairs[q.3]);
    }
  }

  /** `x` lies on some parent-to-child path between the endpoints of `p`. */
  ghost predicate OnPath(g: Graph, p: Pair, x: Node) {
    exists path :: IsPath(g, path, p.0, p.1) && x in path
  }

  /** No path of `p` meets a path of `p'`. */
  ghost predicate Separate(g: Graph, p: Pair, p': Pair) {
    forall x :: OnPath(g, p, x) ==> !OnPath(g, p', x)
  }

  /** Corrected, an iteration fails only when the two pairs' paths meet. */
  lemma CorrectedFailsOnlyOnCrossing(g: Graph, run: Run, pairs: seq<Pair>, q: Quad)
    requires Ready(g, run, pairs) && IsQuad(g, run, pairs, q)
    requires Judge(g, run, Corrected, pairs, q) == Ok(false)
    ensures Compared(run, pairs, q)
    ensures !Separate(g, pairs[q.0], pairs[q.3])
  {
    var p, sp := pairs[q.0], pairs[q.3];
    var path1, path2 := FindPath(g, p.0, p.1), FindPath(g, sp.0, sp.1);
    assert ComparePaths(g, Corrected, p, sp) == Ok(false);
    var x :| x in PathNodes(path1.value) * PathNodes(path2.value);
    assert OnPath(g, p, x) && OnPath(g, sp, x);
  }

  /** Separate reachable pairs have disjoint paths. */
  lemma SeparatePathsDisjoint(g: Graph, p: Pair, sp: Pair)
    requires Reaches(g, p.0, p.1) && Reaches(g, sp.0, sp.1) && Separate(g, p, sp)
    ensures ComparePaths(g, Corrected, p, sp) == Ok(true)
  {
    var path1, path2 := FindPath(g, p.0, p.1).value, FindPath(g, sp.0, sp.1).value;
    forall x | x in path1
      ensures x !in path2
    {
      assert OnPath(g, p, x);
    }
    assert PathNodes(path1) * PathNodes(path2) == {};
  }

  /** Corrected, an iteration whose compared pairs are reachable and
      separate goes on. */
  lemma CorrectedPassesSeparated(g: Graph, run: Run, pairs: seq<Pair>, q: Quad)
    requires Ready(g, run, pairs) && IsQuad(g, run, pairs, q)
    requires pairs[q.3] != pairs[q.0] ==> pairs[q.3].0 != pairs[q.3].1
    requires Compared(run, pairs, q) ==>
               && Reaches(g, pairs[q.0].0, pairs[q.0].1)
               && Reaches(g, pairs[q.3].0, pairs[q.3].1)
               && Separate(g, pairs[q.0], pairs[q.3])
    ensures Judge(g, run, Corrected, pairs, q) == Ok(true)
  {
    if Compared(run, pairs, q) {
      SeparatePathsDisjoint(g, pairs[q.0], pairs[q.3]);
    }
  }

  /** Corrected, the check passes whenever every recorded pair is well
      formed and reachable, and pairs that share a label are separate. */
  lemma CorrectedAcceptsSeparated(g: Graph, run: Run, pairs: seq<Pair>)
    requires Ready(g, run, pairs)
    requires forall k :: 0 <= k < |pairs| ==> pairs[k].0 != pairs[k].1 && Reaches(g, pairs[k].0, pairs[k].1)
    requires forall k, m :: 0 <= k < |pairs| && 0 <= m < |pairs| && pairs[k] != pairs[m] && Related(run, pairs[k], pairs[m]) ==>
               Separate(g, pairs[k], pairs[m])
    ensures Passes(g, run, Corrected, pairs)
  {
    forall q | q in Quads(g, run, pairs)
      ensures Judge(g, run, Corrected, pairs, q) == Ok(true)
    {
      if Compared(run, pairs, q) {
        assert RelatedBy(run, pairs[q.0], pairs[q.3], q.1);
      }
      CorrectedPassesSeparated(g, run, pairs, q);
    }
  }

  /** `p'` carries the label `j` of `p` on one endpoint and its reverse on the other. */
  predicate RelatedBy(run: Run, p: Pair, p': Pair, j: Jump)
    requires p.0 in run && p.1 in run && p'.0 in run && p'.1 in run
  {
    && j in run[p.0].data.jumps && IsJump(j) && ReverseJump(j) in run[p.1].data.jumps
    && ((j in run[p'.0].data.jumps && ReverseJump(j) in run[p'.1].data.jumps)
     || (j in run[p'.1].data.jumps && ReverseJump(j) in run[p'.0].data.jumps))
  }

  /** The pairs the check compares: they share a label. */
  predicate Related(run: Run, p: Pair, p': Pair)
    requires p.0 in run && p.1 in run && p'.0 in run && p'.1 in run
  {
    exists j :: j in run[p.0].data.jumps && RelatedBy(run, p, p', j)
  }
}

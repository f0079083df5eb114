/** The jump check: every jump label of a node must be matched by the
    reverse label on a node below it that no earlier match has claimed. */
module Jumps {
  import opened Base
  import opened GraphTypes
  import opened Automaton
  import opened Traversal

  /** A recorded match `(origin, target)` of `semantics_info`. */
  type Pair = (Node, Node)

  predicate InPair(p: Pair, n: Node) {
    p.0 == n || p.1 == n
  }

  /** The number of recorded pairs that contain `n`. */
  function CountWith(pairs: seq<Pair>, n: Node): (r: nat)
    ensures r <= |pairs|
    ensures r == 0 <==> forall k :: 0 <= k < |pairs| ==> !InPair(pairs[k], n)
  {
    if pairs == [] then 0
    else (if InPair(pairs[0], n) then 1 else 0) + CountWith(pairs[1..], n)
  }

  /** `n` can take the reverse label `rj`: it carries it and lies in no pair yet. */
  predicate FreeMatch(run: Run, rj: Jump, pairs: seq<Pair>, n: Node) {
    n in run && rj in run[n].data.jumps && CountWith(pairs, n) == 0
  }

  /** `_condition_in_node_jumps` for the reverse label `rj`, together with the
      membership assertion of the search and the at-most-one-pair assertion. */
  function JumpCondition(run: Run, rj: Jump, pairs: seq<Pair>, n: Node): (r: Verdict)
    ensures r == Missing <==> n !in run
    ensures r == Conflict <==> n in run && CountWith(pairs, n) > 1
    ensures r == Success <==> FreeMatch(run, rj, pairs, n)
    ensures r != Continue && r != Fail
  {
    if n !in run then Missing
    else if CountWith(pairs, n) > 1 then Conflict
    else if rj in run[n].data.jumps && CountWith(pairs, n) == 0 then Success
    else Nothing
  }

  function JumpCond(run: Run, rj: Jump, pairs: seq<Pair>): Node -> Verdict {
    n => JumpCondition(run, rj, pairs, n)
  }

  /** `j` of `p.0` is matched by its reverse on `p.1`. */
  predicate LabelPairs(run: Run, p: Pair, j: Jump) {
    && p.0 in run && p.1 in run
    && j in run[p.0].data.jumps && IsJump(j)
    && ReverseJump(j) in run[p.1].data.jumps
  }

  /** A pair the jump search may record: the target lies below the origin and
      carries the reverse of one of the origin's labels. */
  ghost predicate PairMatched(g: Graph, run: Run, p: Pair) {
    Reaches(g, p.0, p.1) && exists j :: LabelPairs(run, p, j)
  }

  /** The `k`-th pair's target was in no earlier pair when it was recorded. */
  predicate FreshTarget(pairs: seq<Pair>, k: int)
    requires 0 <= k < |pairs|
  {
    CountWith(pairs[..k], pairs[k].1) == 0
  }

  /** `_verify_condition_from_node` with the jump condition for `j` from `top`:
      on success it records exactly one new pair `(top, n)`. */
  method VerifyJump(g: Graph, run: Run, top: Node, j: Jump, pairs: seq<Pair>) returns (r: Result<bool>, pairs': seq<Pair>)
    requires IsJump(j)
    ensures r == Ok(true) ==> exists n ::
              && pairs' == pairs + [(top, n)]
              && Reaches(g, top, n)
              && FreeMatch(run, ReverseJump(j), pairs, n)
    ensures r != Ok(true) ==> pairs' == pairs
    ensures r == Ok(false) ==> forall n :: ReachableAvoiding(g, top, n) ==> !FreeMatch(run, ReverseJump(j), pairs, n)
    ensures r.Err? ==> r.error == Unmapped || r.error == JumpTargetShared
  {
    var rj := ReverseJump(j);
    var cond := JumpCond(run, rj, pairs);
    var s := SearchFrom(g, top, cond);
    if s.Exhausted? {
      forall n | ReachableAvoiding(g, top, n)
        ensures !FreeMatch(run, rj, pairs, n)
      {
        var p :| IsChain(g, top, NothingVerdict, p) && p[|p| - 1] == n;
        ExhaustedSeesAllWalks(g, top, cond, p);
      }
      return Ok(false), pairs;
    }
    match s.verdict
    case Success =>
      EvaluableReaches(g, top, cond, s.at);
      return Ok(true), pairs + [(top, s.at)];
    case Missing =>
      return Err(Unmapped), pairs;
    case _ =>
      return Err(JumpTargetShared), pairs;
  }

  /** The labels a node contributes to the processed-items set besides its own. */
  function Reversed(js: set<Jump>): (r: set<Jump>)
    ensures forall j :: j in js && IsJump(j) ==> ReverseJump(j) in r
    ensures forall x :: x in r ==> IsJump(x)
  {
    set j | j in js && IsJump(j) :: ReverseJump(j)
  }

  lemma ReversedMember(js: set<Jump>, x: Jump)
    requires x in Reversed(js)
    ensures exists j :: j in js && IsJump(j) && x == ReverseJump(j)
  {
  }

  lemma ReversedAdd(js: set<Jump>, j: Jump)
    requires IsJump(j)
    ensures Reversed(js + {j}) == Reversed(js) + {ReverseJump(j)}
  {
  }

  lemma SomeLeft(js: set<Jump>, done: set<Jump>)
    requires done <= js && done != js
    ensures exists j :: j in js && j !in done
  {
    assert !(js <= done);
  }

  /** The processed items after matching `j` as well. */
  lemma ItemsAdd(items: set<Jump>, done: set<Jump>, j: Jump)
    requires IsJump(j)
    ensures items + done + Reversed(done) + {j, ReverseJump(j)} == items + (done + {j}) + Reversed(done + {j})
  {
    ReversedAdd(done, j);
  }

  /** No node below `node` (reached without returning to it) can take the reverse of `j`. */
  ghost predicate Unmatchable(g: Graph, run: Run, node: Node, j: Jump, pairs: seq<Pair>)
    requires IsJump(j)
  {
    forall n :: ReachableAvoiding(g, node, n) ==> !FreeMatch(run, ReverseJump(j), pairs, n)
  }

  /** What `ProcessNodeJumps` keeps true of the pairs it appends to `pairs`. */
  ghost predicate NewPairsFrom(g: Graph, run: Run, node: Node, pairs: seq<Pair>, pairs': seq<Pair>) {
    && |pairs| <= |pairs'|
    && pairs'[..|pairs|] == pairs
    && forall k :: |pairs| <= k < |pairs'| ==> pairs'[k].0 == node && PairMatched(g, run, pairs'[k]) && FreshTarget(pairs', k)
  }

  /** Every label in `js` of `node` has a matching pair among the new ones. */
  ghost predicate LabelsMatched(run: Run, node: Node, js: set<Jump>, from: int, pairs': seq<Pair>)
    requires 0 <= from <= |pairs'|
  {
    forall j :: j in js ==> exists k :: from <= k < |pairs'| && pairs'[k].0 == node && LabelPairs(run, pairs'[k], j)
  }

  lemma NewPairsExtend(g: Graph, run: Run, node: Node, pairs: seq<Pair>, mid: seq<Pair>, n: Node, j: Jump)
    requires NewPairsFrom(g, run, node, pairs, mid)
    requires Reaches(g, node, n) && node in run && j in run[node].data.jumps && IsJump(j)
    requires FreeMatch(run, ReverseJump(j), mid, n)
    ensures NewPairsFrom(g, run, node, pairs, mid + [(node, n)])
    ensures LabelPairs(run, (node, n), j)
  {
    var q := mid + [(node, n)];
    assert q[..|mid|] == mid;
    assert q[..|pairs|] == mid[..|pairs|];
    assert LabelPairs(run, q[|mid|], j);
    forall k | |pairs| <= k < |q|
      ensures q[k].0 == node && PairMatched(g, run, q[k]) && FreshTarget(q, k)
    {
      if k < |mid| {
        assert q[..k] == mid[..k];
      }
    }
  }

  lemma LabelsMatchedExtend(run: Run, node: Node, js: set<Jump>, from: int, mid: seq<Pair>, n: Node, j: Jump)
    requires 0 <= from <= |mid|
    requires LabelsMatched(run, node, js, from, mid)
    requires LabelPairs(run, (node, n), j)
    ensures LabelsMatched(run, node, js + {j}, from, mid + [(node, n)])
  {
    var q := mid + [(node, n)];
    forall x | x in js + {j}
      ensures exists k :: from <= k < |q| && q[k].0 == node && LabelPairs(run, q[k], x)
    {
      if x == j {
        assert q[|mid|] == (node, n);
      } else {
        var k :| from <= k < |mid| && mid[k].0 == node && LabelPairs(run, mid[k], x);
        assert q[k] == mid[k];
      }
    }
  }

  /** `_process_node_jumps`: matches every label of `node` in turn, adding the
      label and its reverse to the processed items once it is matched. */
  method ProcessNodeJumps(g: Graph, run: Run, node: Node, items: set<Jump>, pairs: seq<Pair>)
      returns (r: Result<bool>, items': set<Jump>, pairs': seq<Pair>)
    requires node in run && RunJumpsWellFormed(run)
    ensures NewPairsFrom(g, run, node, pairs, pairs')
    ensures items <= items'
    ensures r == Ok(true) ==> items' == items + run[node].data.jumps + Reversed(run[node].data.jumps)
    ensures r == Ok(true) ==> LabelsMatched(run, node, run[node].data.jumps, |pairs|, pairs')
    ensures r == Ok(false) ==>
              exists j :: j in run[node].data.jumps && IsJump(j) && Unmatchable(g, run, node, j, pairs')
    ensures r.Err? ==> r.error == Unmapped || r.error == JumpTargetShared
  {
    var js := run[node].data.jumps;
    var done := {};
    items', pairs' := items, pairs;
    assert pairs[..|pairs|] == pairs;
    while done != js
      invariant done <= js
      invariant items' == items + done + Reversed(done)
      invariant NewPairsFrom(g, run, node, pairs, pairs')
      invariant LabelsMatched(run, node, done, |pairs|, pairs')
      decreases |js - done|
    {
      SomeLeft(js, done);
      var j :| j in js && j !in done;
      var ok, ps := VerifyJump(g, run, node, j, pairs');
      if ok != Ok(true) {
        return ok, items', pairs';
      }
      ghost var n :| ps == pairs' + [(node, n)] && Reaches(g, node, n) && FreeMatch(run, ReverseJump(j), pairs', n);
      NewPairsExtend(g, run, node, pairs, pairs', n, j);
      LabelsMatchedExtend(run, node, done, |pairs|, pairs', n, j);
      ItemsAdd(items, done, j);
      pairs' := ps;
      items' := items' + {j, ReverseJump(j)};
      FewerLeft(js, done, done + {j}, j);
      done := done + {j};
    }
    return Ok(true), items', pairs';
  }
}

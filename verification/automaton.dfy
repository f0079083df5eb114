/** The transition table, positional child-state matching, and the
    polarity flip of jump labels. */
module Automaton {
  import opened Base
  import opened GraphTypes

  /** A child pattern entry is a state, or `None` for the sentinel that an
      unmapped child compares equal to. */
  datatype Transition = Transition(
    parent: State,
    symbol: Symbol,
    children: seq<Option<State>>,
    vars: set<Var>,
    forget: set<Var>,
    jumps: set<Jump>)

  datatype GraphAutomaton = GraphAutomaton(transitions: seq<Transition>)

  function AddTransition(a: GraphAutomaton, t: Transition): (r: GraphAutomaton)
    ensures |r.transitions| == |a.transitions| + 1
    ensures r.transitions[..|a.transitions|] == a.transitions
    ensures r.transitions[|a.transitions|] == t
  {
    GraphAutomaton(a.transitions + [t])
  }

  /** What the run currently says about a child: its state, or the sentinel. */
  function ChildState(run: Run, c: Node): (r: Option<State>)
    ensures r.Some? <==> GetState(run, c).Ok?
    ensures r.Some? ==> GetState(run, c) == Ok(r.value)
  {
    if c in run then Some(run[c].state) else None
  }

  function ChildStates(run: Run, cs: seq<Node>): (r: seq<Option<State>>)
    ensures |r| == |cs|
    ensures forall i :: 0 <= i < |cs| ==> r[i] == ChildState(run, cs[i])
  {
    seq(|cs|, i requires 0 <= i < |cs| => ChildState(run, cs[i]))
  }

  /** The three tests of `applicable_transitions`: same symbol, same arity,
      and positionally equal child states. */
  predicate Matches(t: Transition, e: Edge, run: Run) {
    && e.symbol == t.symbol
    && |e.children| == |t.children|
    && ChildStates(run, e.children) == t.children
  }

  /** A transition that matches expects, at every position where it names a
      state, a mapped child in that state, and the sentinel only where the
      child is unmapped. */
  lemma MatchesPositionally(t: Transition, e: Edge, run: Run)
    requires Matches(t, e, run)
    ensures forall i :: 0 <= i < |e.children| && t.children[i].Some? ==>
              e.children[i] in run && run[e.children[i]].state == t.children[i].value
    ensures forall i :: 0 <= i < |e.children| && t.children[i].None? ==> e.children[i] !in run
  {
    forall i | 0 <= i < |e.children|
      ensures t.children[i] == ChildState(run, e.children[i])
    {
      assert t.children[i] == ChildStates(run, e.children)[i];
    }
  }

  /** The matching transitions of `ts`, in table order. */
  function ApplicableIn(ts: seq<Transition>, e: Edge, run: Run): (r: seq<Transition>)
    ensures forall t :: t in r <==> t in ts && Matches(t, e, run)
    ensures |r| <= |ts|
  {
    if ts == [] then []
    else (if Matches(ts[0], e, run) then [ts[0]] else []) + ApplicableIn(ts[1..], e, run)
  }

  /** `applicable_transitions(edge, run)`. */
  function Applicable(a: GraphAutomaton, e: Edge, run: Run): (r: seq<Transition>)
    ensures forall t :: t in r <==> t in a.transitions && Matches(t, e, run)
  {
    ApplicableIn(a.transitions, e, run)
  }

  /** Filtering distributes over concatenation: the result keeps table order. */
  lemma {:induction false} ApplicableInAppend(ts1: seq<Transition>, ts2: seq<Transition>, e: Edge, run: Run)
    ensures ApplicableIn(ts1 + ts2, e, run) == ApplicableIn(ts1, e, run) + ApplicableIn(ts2, e, run)
    decreases |ts1|
  {
    if ts1 == [] {
      assert ts1 + ts2 == ts2;
    } else {
      assert (ts1 + ts2)[0] == ts1[0];
      assert (ts1 + ts2)[1..] == ts1[1..] + ts2;
      ApplicableInAppend(ts1[1..], ts2, e, run);
    }
  }

  /** Adding a transition appends it to the applicable list exactly when it matches. */
  lemma ApplicableAfterAdd(a: GraphAutomaton, t: Transition, e: Edge, run: Run)
    ensures Applicable(AddTransition(a, t), e, run)
         == Applicable(a, e, run) + (if Matches(t, e, run) then [t] else [])
  {
    ApplicableInAppend(a.transitions, [t], e, run);
    assert ApplicableIn([t], e, run) == (if Matches(t, e, run) then [t] else []) + ApplicableIn([], e, run);
  }

  /** `transition_to_run`: the state to write and the data that goes with it. */
  function TransitionToRun(t: Transition): (r: (State, Data))
    ensures r.0 == t.parent
    ensures r.1.vars == t.vars && r.1.forget == t.forget && r.1.jumps == t.jumps
  {
    (t.parent, Data(t.vars, t.forget, t.jumps))
  }

  /** A jump label ends in a polarity sign. */
  predicate IsJump(j: Jump) {
    |j| > 0 && (j[|j| - 1] == '+' || j[|j| - 1] == '-')
  }

  function Flip(c: char): char {
    if c == '+' then '-' else '+'
  }

  /** `_get_reverse_jump`: same prefix, opposite sign. */
  function ReverseJump(j: Jump): (r: Jump)
    requires IsJump(j)
    ensures IsJump(r) && |r| == |j|
    ensures r[..|j| - 1] == j[..|j| - 1]
    ensures r[|j| - 1] != j[|j| - 1]
    ensures r != j
  {
    var r := j[..|j| - 1] + [Flip(j[|j| - 1])];
    assert r[|j| - 1] != j[|j| - 1];
    r
  }

  /** Reversal is an involution. */
  lemma ReverseInvolution(j: Jump)
    requires IsJump(j)
    ensures ReverseJump(ReverseJump(j)) == j
  {
    var r := ReverseJump(j);
    var rr := ReverseJump(r);
    assert rr[..|j| - 1] == j[..|j| - 1];
    assert rr[|j| - 1] == j[|j| - 1];
    assert rr == rr[..|j| - 1] + [rr[|j| - 1]];
    assert j == j[..|j| - 1] + [j[|j| - 1]];
  }

  /** Jump labels are well formed in every transition, as `_get_reverse_jump` asserts. */
  predicate JumpsWellFormed(a: GraphAutomaton) {
    forall t, j :: t in a.transitions && j in t.jumps ==> IsJump(j)
  }

  /** Jump labels are well formed everywhere in a run. */
  predicate RunJumpsWellFormed(run: Run) {
    forall n, j :: n in run && j in run[n].data.jumps ==> IsJump(j)
  }
}

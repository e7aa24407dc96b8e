/** Comparing two roots: what a finished comparison has decided and recorded. */
module CompareRoots {
  import opened Wrappers
  import opened Reachability
  import opened Sequences
  import opened Graph
  import opened Scc
  import opened SccSearch
  import opened Diffs
  import opened Scripts
  import opened Verdicts
  import opened CompareInvariant
  import opened CompareSteps
  import opened CompareProtocol
  import opened Compare

  /** Between comparisons nothing is open, and what is recorded depends on what was compared only. */
  lemma QuiescentOutcomes(p: Problem, s: StateView)
    requires WellFormed(p.graph) && StateInv(p, s) && s.scc.open == []
    ensures AreOutcomes(p, s.known.Keys, s.outcomes) && s.provisional == map[]
    ensures ClosedUnder(ComparisonEdges(p), s.known.Keys) && s.known.Keys == Seen(s.scc)
  {
  }

  /** The pairs that become known are exactly those that the roots reach. */
  lemma KnownIsReached(p: Problem, s: StateView, t: StateView, c: Comparison)
    requires WellFormed(p.graph) && Grows(p, s, t, c) && c in t.known
    requires s.known.Keys == Seen(s.scc) && t.known.Keys == Seen(t.scc)
    requires ClosedUnder(ComparisonEdges(p), t.known.Keys)
    ensures t.known.Keys == s.known.Keys + ReachSet(ComparisonEdges(p), c)
  {
    hide HasChild;
    forall d | d in ReachSet(ComparisonEdges(p), c) ensures d in t.known {
      ClosedSetTraps(ComparisonEdges(p), t.known.Keys, c, d);
    }
  }

  lemma RootMayBeOpened(p: Problem, s: StateView, c: Comparison)
    requires WellFormed(p.graph) && StateInv(p, s) && s.scc.path == []
    ensures MayFollow(p, s.scc, c) && s.scc.open == []
  {
    hide Inv, CompareScript, ProvisionalInv, OutcomesInv, VerdictsInv;
    SearchFacts(p, s);
  }

  lemma RootDecided(p: Problem, s: StateView, t: StateView, c: Comparison, equals: bool, comparison: Option<Comparison>)
    requires WellFormed(p.graph) && StateInv(p, s) && StateInv(p, t) && s.scc.path == [] && s.scc.open == []
    requires Compared(p, s, t, c, equals, comparison)
    ensures t.scc.path == [] && t.scc.open == []
    ensures (equals <==> Same(p, c)) && comparison == if equals then None else Some(c)
    ensures t.known.Keys == s.known.Keys + ReachSet(ComparisonEdges(p), c)
    ensures AreOutcomes(p, t.known.Keys, t.outcomes) && t.provisional == map[]
    ensures t.known.Keys == Seen(t.scc)
  {
    hide SearchInv, ProvisionalInv, OutcomesInv, Same, CompareScript, AreOutcomes, CleanFrom, ClosedUnder;
    QuiescentOutcomes(p, s);
    QuiescentOutcomes(p, t);
    KnownIsReached(p, s, t, c);
  }

  /** Compares two roots. The state may know the verdicts of earlier comparisons. */
  method CompareRoots(state: State, root1: Id, root2: Id) returns (equals: bool, comparison: Option<Comparison>)
    requires state.Valid() && state.scc.path == [] && root1 in state.graph && root2 in state.graph
    modifies state, state.scc
    ensures state.Valid() && state.scc.path == [] && state.scc.Empty()
    // the verdict is sameness, the greatest fixed point
    ensures equals <==> Same(state.P(), Pair(root1, root2))
    ensures comparison == if equals then None else Some(Pair(root1, root2))
    // every pair that was reached has its verdict, and its diff if it differs
    ensures state.known.Keys == old(state.known.Keys) + ReachSet(ComparisonEdges(state.P()), Pair(root1, root2))
    ensures forall c :: c in state.known ==> (state.known[c] <==> Same(state.P(), c))
    ensures AreOutcomes(state.P(), state.known.Keys, state.outcomes) && state.provisional == map[]
    // and was examined once
    ensures Distinct(state.examined) && Elements(state.examined) == state.known.Keys
  {
    hide StateInv, MayFollow, Compared, AreOutcomes, Same, Distinct;
    ghost var s := state.View();
    RootMayBeOpened(state.P(), s, Pair(root1, root2));
    equals, comparison := state.Compare(root1, root2);
    RootDecided(state.P(), s, state.View(), Pair(root1, root2), equals, comparison);
    NothingOpen(state);
  }

  lemma NothingOpen(state: State)
    requires state.Valid() && state.scc.path == [] && state.scc.open == []
    ensures state.scc.Empty()
    ensures forall c :: c in state.known ==> (state.known[c] <==> Same(state.P(), c))
  {
    hide CompareScript, Same, ProvisionalInv, OutcomesInv, Follows;
    state.scc.IdleIsEmpty();
  }

  /** The diff of a pair does not depend on what else was compared, or when. */
  lemma OutcomesAgree(
      p: Problem, seen1: set<Comparison>, outcomes1: map<Comparison, Diff>, seen2: set<Comparison>,
      outcomes2: map<Comparison, Diff>)
    requires WellFormed(p.graph) && AreOutcomes(p, seen1, outcomes1) && AreOutcomes(p, seen2, outcomes2)
    requires seen1 <= Domain(p) && seen2 <= Domain(p)
    ensures forall c :: c in outcomes1 && c in outcomes2 ==> outcomes1[c] == outcomes2[c]
    ensures forall c :: c in seen1 && c in seen2 ==> (c in outcomes1 <==> c in outcomes2)
  {
    hide CompareScript, Same, ExactDiff, HasGone;
    forall u, c | HasGone(p, u, c) ensures !InDomain(p, c) {
      GoneIsNotInDomain(p, u, c);
    }
  }
}

/** When two nodes are the same, and what a diff of two different ones must hold, independently of any
    order of comparison. */
module Verdicts {
  import opened Wrappers
  import opened Reachability
  import opened Graph
  import opened Diffs
  import opened Scripts

  /** All pairs of set nodes. */
  ghost function Domain(p: Problem): (domain: set<Comparison>)
    ensures forall c :: c in domain <==> InDomain(p, c)
  {
    var domain := set a, b | a in p.graph && b in p.graph :: Pair(a, b);
    assert forall c :: InDomain(p, c) ==> c == Pair(c.first.value, c.second.value);
    domain
  }

  /** d is compared in the course of comparing c. */
  ghost predicate HasChild(p: Problem, c: Comparison, d: Comparison)
    requires WellFormed(p.graph)
  {
    InDomain(p, c) && exists step :: step in CompareScript(p, c).steps && step.ChildStep? && step.edge == d
  }

  /** The comparison graph. */
  ghost function ComparisonEdges(p: Problem): (edges: Edges<Comparison>)
    requires WellFormed(p.graph)
    ensures forall c, d :: (c, d) in edges <==> HasChild(p, c, d)
    ensures forall c, d :: (c, d) in edges ==> InDomain(p, c) && InDomain(p, d)
  {
    forall c, d | HasChild(p, c, d) ensures InDomain(p, d) { ScriptInGraph(p, c); }
    set c, d | c in Domain(p) && d in Domain(p) && HasChild(p, c, d) :: (c, d)
  }

  /** Nothing differs about the two nodes themselves, and no edge is missing on either side. */
  ghost predicate LocallySame(p: Problem, c: Comparison)
    requires WellFormed(p.graph)
  {
    && InDomain(p, c) && !CompareScript(p, c).incomparable
    && forall step :: step in CompareScript(p, c).steps ==> step.ChildStep?
  }

  /** No local difference can be reached. */
  ghost predicate Same(p: Problem, c: Comparison)
    requires WellFormed(p.graph)
  {
    forall x :: Reaches(ComparisonEdges(p), c, x) ==> LocallySame(p, x)
  }

  ghost function SameSet(p: Problem): set<Comparison>
    requires WellFormed(p.graph)
  {
    set c | c in Domain(p) && Same(p, c)
  }

  /** A set of locally equal pairs that is closed under the comparison of children. */
  ghost predicate IsBisimulation(p: Problem, b: set<Comparison>)
    requires WellFormed(p.graph)
  {
    && (forall c :: c in b ==> LocallySame(p, c))
    && ClosedUnder(ComparisonEdges(p), b)
  }

  /** Sameness is the greatest fixed point: it is a bisimulation and contains all others. */
  lemma SameIsGreatestBisimulation(p: Problem)
    requires WellFormed(p.graph)
    ensures IsBisimulation(p, SameSet(p))
    ensures forall b :: IsBisimulation(p, b) ==> b <= SameSet(p)
  {
    forall c | c in SameSet(p) ensures LocallySame(p, c) {
      ReachesSelf(ComparisonEdges(p), c);
    }
    forall c, d | c in SameSet(p) && (c, d) in ComparisonEdges(p) ensures d in SameSet(p) {
      forall x | Reaches(ComparisonEdges(p), d, x) ensures LocallySame(p, x) {
        ReachesStep(ComparisonEdges(p), c, d, x);
      }
    }
    forall b, c | IsBisimulation(p, b) && c in b ensures c in SameSet(p) {
      BisimulationIsSame(p, b, c);
    }
  }

  lemma BisimulationIsSame(p: Problem, b: set<Comparison>, c: Comparison)
    requires WellFormed(p.graph) && IsBisimulation(p, b) && c in b
    ensures Same(p, c)
  {
    forall x | Reaches(ComparisonEdges(p), c, x) ensures LocallySame(p, x) {
      ClosedSetTraps(ComparisonEdges(p), b, c, x);
    }
  }

  /** A pair differs if something it reaches differs. */
  lemma DifferenceSpreads(p: Problem, c: Comparison, d: Comparison)
    requires WellFormed(p.graph) && Reaches(ComparisonEdges(p), c, d) && !Same(p, d)
    ensures !Same(p, c)
  {
    var x :| Reaches(ComparisonEdges(p), d, x) && !LocallySame(p, x);
    ReachesTrans(ComparisonEdges(p), c, d, x);
  }

  lemma LocalDifferenceDiffers(p: Problem, c: Comparison)
    requires WellFormed(p.graph) && !LocallySame(p, c)
    ensures !Same(p, c)
  {
    ReachesSelf(ComparisonEdges(p), c);
  }

  /** A different pair that is locally the same has a different child. */
  lemma DifferenceHasCause(p: Problem, c: Comparison) returns (d: Comparison)
    requires WellFormed(p.graph) && LocallySame(p, c) && !Same(p, c)
    ensures HasChild(p, c, d) && !Same(p, d)
  {
    var edges := ComparisonEdges(p);
    if forall x :: HasChild(p, c, x) ==> Same(p, x) {
      var b := SameSet(p) + {c};
      SameIsGreatestBisimulation(p);
      assert IsBisimulation(p, b);
      BisimulationIsSame(p, b, c);
    }
    d :| HasChild(p, c, d) && !Same(p, d);
  }

  // ---- diffs ----

  /** The details of these steps when exactly the children in `omit` leave no trace. */
  ghost function Details(steps: seq<Step>, omit: set<Comparison>): seq<DiffDetail> {
    if steps == [] then []
    else
      var step := steps[|steps| - 1];
      Details(steps[..|steps| - 1], omit)
      + match step
        case NodeStep(text) => [DiffDetail(text, None)]
        case GoneStep(text, edge) => [DiffDetail(text, Some(edge))]
        case ChildStep(text, edge) => if edge in omit then [] else [DiffDetail(text, Some(edge))]
  }

  ghost function DiffOf(script: Script, omit: set<Comparison>): Diff {
    Diff(script.holdsChanges,
         script.incomparable || exists step :: step in script.steps && step.NodeStep?,
         Details(script.steps, omit))
  }

  /** The diff of a pair: its script, in order, without the children that are the same. */
  ghost function ExactDiff(p: Problem, c: Comparison): Diff
    requires WellFormed(p.graph) && InDomain(p, c)
  {
    DiffOf(CompareScript(p, c), SameSet(p))
  }

  lemma {:induction false} DetailsAgree(steps: seq<Step>, omit1: set<Comparison>, omit2: set<Comparison>)
    requires forall step :: step in steps && step.ChildStep? ==> (step.edge in omit1 <==> step.edge in omit2)
    ensures Details(steps, omit1) == Details(steps, omit2)
  {
    if steps != [] {
      DetailsAgree(steps[..|steps| - 1], omit1, omit2);
      assert steps[|steps| - 1] in steps;
    }
  }

  /** Every detail comes from a step. */
  lemma {:induction false} DetailsComeFromSteps(steps: seq<Step>, omit: set<Comparison>)
    ensures forall d :: d in Details(steps, omit) && d.edge.Some? ==>
              exists step :: step in steps && !step.NodeStep? && step.edge == d.edge.value &&
                             (step.ChildStep? ==> step.edge !in omit)
    ensures forall step :: step in steps && (step.ChildStep? ==> step.edge !in omit) ==>
              DiffDetail(step.text, if step.NodeStep? then None else Some(step.edge)) in Details(steps, omit)
  {
    if steps != [] {
      var n := |steps| - 1;
      DetailsComeFromSteps(steps[..n], omit);
      assert steps == steps[..n] + [steps[n]];
    }
  }

  /** A removed or added node that some pair refers to. */
  ghost predicate HasGone(p: Problem, c: Comparison, edge: Comparison)
    requires WellFormed(p.graph)
  {
    InDomain(p, c) && exists step :: step in CompareScript(p, c).steps && step.GoneStep? && step.edge == edge
  }

  /** These are the outcomes of having compared exactly the pairs in `seen`: a diff for each pair that
      differs, and an empty entry for each removed or added node. */
  ghost predicate AreOutcomes(p: Problem, seen: set<Comparison>, outcomes: map<Comparison, Diff>)
    requires WellFormed(p.graph)
  {
    && (forall c :: c in outcomes <==> (c in seen && !Same(p, c)) || exists u :: u in seen && HasGone(p, u, c))
    && (forall c :: c in outcomes && InDomain(p, c) ==> outcomes[c] == ExactDiff(p, c))
    && (forall c :: c in outcomes && !InDomain(p, c) ==> outcomes[c] == NO_DIFF)
  }

  /** There is only one map of outcomes for a set of pairs. */
  lemma OutcomesAreUnique(p: Problem, seen: set<Comparison>, o1: map<Comparison, Diff>, o2: map<Comparison, Diff>)
    requires WellFormed(p.graph) && AreOutcomes(p, seen, o1) && AreOutcomes(p, seen, o2)
    ensures o1 == o2
  {
  }
}

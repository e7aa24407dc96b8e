/** Why the outcomes of a comparison can be reported, and why reports show every difference there is. */
module Reporting {
  import opened Wrappers
  import opened Reachability
  import opened Graph
  import opened Diffs
  import opened Scripts
  import opened Verdicts
  import opened Sameness
  import opened DiffGraph

  // ---- cycles of types ----

  ghost function TypeEdges(g: Graph): (edges: Edges<Id>)
    ensures forall a, b :: (a, b) in edges <==> a in g && b in References(g[a])
  {
    set a, b | a in g && b in References(g[a]) :: (a, b)
  }

  /** The comparison of such nodes holds its changes, if it goes any further at all. */
  predicate BreaksCycles(node: Node) {
    (node.StructUnion? && node.name != "") || node.Symbols?
  }

  /** Every cycle of the type graph passes through a named struct or union, or a symbol table. */
  ghost predicate CyclesBroken(g: Graph) {
    forall walk :: IsWalk(TypeEdges(g), walk) && |walk| > 1 && walk[0] == walk[|walk| - 1] ==>
      exists k :: 0 <= k < |walk| && walk[k] in g && BreaksCycles(g[walk[k]])
  }

  ghost function CutTypeEdges(g: Graph): Edges<Id> {
    set e | e in TypeEdges(g) && !BreaksCycles(g[e.0])
  }

  lemma CutTypesAcyclic(g: Graph)
    requires CyclesBroken(g)
    ensures Acyclic(CutTypeEdges(g))
  {
    forall a, b | (a, b) in CutTypeEdges(g) && Reaches(CutTypeEdges(g), b, a) ensures false {
      var w :| WalkBetween(CutTypeEdges(g), b, w, a);
      var walk := [a] + w;
      forall k | 0 <= k < |walk|
        ensures walk[k] in g && !BreaksCycles(g[walk[k]])
        ensures k < |walk| - 1 ==> (walk[k], walk[k + 1]) in TypeEdges(g)
      {
        var i := if k == |walk| - 1 then 0 else k;
        assert walk[i] == walk[k] && (walk[i], walk[i + 1]) in CutTypeEdges(g);
      }
      assert IsWalk(TypeEdges(g), walk);
    }
  }

  ghost function Rank(g: Graph, id: Id): nat {
    |ReachSet(CutTypeEdges(g), id)|
  }

  lemma {:induction false} RankFalls(g: Graph, a: Id, b: Id)
    requires Acyclic(CutTypeEdges(g)) && Reaches(CutTypeEdges(g), a, b)
    ensures Rank(g, b) <= Rank(g, a) && (a != b ==> Rank(g, b) < Rank(g, a))
    decreases Rank(g, a)
  {
    if a != b {
      var m := FirstStep(CutTypeEdges(g), a, b);
      ReachSetShrinks(CutTypeEdges(g), a, m);
      RankFalls(g, m, b);
    }
  }

  lemma {:induction false} BareIsReached(g: Graph, id: Id, qualifiers: set<Qualifier>)
    requires WellFormed(g) && id in g
    ensures Reaches(CutTypeEdges(g), id, Unqualified(g, id, qualifiers).0)
    decreases |ReachSet(QualifierEdges(g), id)|
  {
    hide Reaches;
    ReachesSelf(CutTypeEdges(g), id);
    if g[id].Qualified? {
      var under := g[id].qualifiedTypeId;
      assert under in References(g[id]);
      ReachSetShrinks(QualifierEdges(g), id, under);
      BareIsReached(g, under, qualifiers + {g[id].qualifier});
      ReachesStep(CutTypeEdges(g), id, under, Unqualified(g, id, qualifiers).0);
    }
  }

  lemma {:induction false} TargetIsReached(g: Graph, id: Id, typedefs: seq<string>)
    requires WellFormed(g) && id in g
    ensures Reaches(CutTypeEdges(g), id, Resolved(g, id, typedefs).0)
    decreases |ReachSet(TypedefEdges(g), id)|
  {
    hide Reaches;
    ReachesSelf(CutTypeEdges(g), id);
    if g[id].Typedef? {
      var referred := g[id].referredTypeId;
      assert referred in References(g[id]);
      ReachSetShrinks(TypedefEdges(g), id, referred);
      TargetIsReached(g, referred, typedefs + [g[id].name]);
      ReachesStep(CutTypeEdges(g), id, referred, Resolved(g, id, typedefs).0);
    }
  }

  /** What a pair that does not hold changes is compared by lies below it in the type graph, on both sides. */
  ghost predicate Below(g: Graph, x: Id, y: Id, d: Comparison) {
    && TwoSided(d)
    && Reaches(CutTypeEdges(g), x, d.first.value) && Reaches(CutTypeEdges(g), y, d.second.value)
    && (d.first.value != x || d.second.value != y)
  }

  lemma NodeChildBelow(p: Problem, a: Id, b: Id, step: Step)
    requires WellFormed(p.graph) && a in p.graph && b in p.graph && Acyclic(CutTypeEdges(p.graph))
    requires var x, y := p.graph[a], p.graph[b];
             !x.Qualified? && !y.Qualified? && !x.Typedef? && !y.Typedef? && References(x) <= p.graph.Keys &&
                 References(y) <= p.graph.Keys
    requires var script := NodeScript(p, p.graph[a], p.graph[b]);
             !script.holdsChanges && step in script.steps && step.ChildStep?
    ensures TwoSided(step.edge)
    ensures (a, step.edge.first.value) in CutTypeEdges(p.graph) && (b, step.edge.second.value) in CutTypeEdges(p.graph)
  {
    hide WellFormed, Acyclic;
    NodeScriptWithin(p, p.graph[a], p.graph[b]);
    NoBreakHere(p, p.graph[a], p.graph[b], step);
  }

  lemma NoBreakHere(p: Problem, a: Node, b: Node, step: Step)
    requires WellFormed(p.graph) && References(a) <= p.graph.Keys && References(b) <= p.graph.Keys
    requires !a.Qualified? && !b.Qualified? && !a.Typedef? && !b.Typedef?
    requires !NodeScript(p, a, b).holdsChanges && step in NodeScript(p, a, b).steps
    ensures !BreaksCycles(a) && !BreaksCycles(b)
  {
    hide WellFormed, StructSteps, EnumSteps, FunctionSteps, SymbolsSteps, IntegerSteps, SymbolAttributeSteps;
  }

  lemma PairChildBelow(p: Problem, x: Id, y: Id, d: Comparison)
    requires WellFormed(p.graph) && x in p.graph && y in p.graph && Acyclic(CutTypeEdges(p.graph))
    requires !CompareScript(p, Pair(x, y)).holdsChanges && HasChild(p, Pair(x, y), d)
    ensures Below(p.graph, x, y, d)
  {
    hide NodeScript, Acyclic, Reaches, QualifierSteps, WellFormed;
    var g := p.graph;
    var step :| step in CompareScript(p, Pair(x, y)).steps && step.ChildStep? && step.edge == d;
    BareIsReached(g, x, {});
    BareIsReached(g, y, {});
    if Qualifiers(g, x) != {} || Qualifiers(g, y) != {} {
      QualifiersMove(g, x);
      QualifiersMove(g, y);
    } else {
      TargetIsReached(g, Bare(g, x), []);
      TargetIsReached(g, Bare(g, y), []);
      ReachesTrans(CutTypeEdges(g), x, Bare(g, x), Target(g, x));
      ReachesTrans(CutTypeEdges(g), y, Bare(g, y), Target(g, y));
      if IsTypedef(g, x) || IsTypedef(g, y) {
        TypedefsMove(g, x);
        TypedefsMove(g, y);
      } else {
        BareNodes(p, x);
        BareNodes(p, y);
        NodeChildBelow(p, Bare(g, x), Bare(g, y), step);
        OneEdgeDown(g, x, Bare(g, x), d.first.value);
        OneEdgeDown(g, y, Bare(g, y), d.second.value);
      }
    }
  }

  lemma OneEdgeDown(g: Graph, x: Id, a: Id, b: Id)
    requires Acyclic(CutTypeEdges(g)) && Reaches(CutTypeEdges(g), x, a) && (a, b) in CutTypeEdges(g)
    ensures Reaches(CutTypeEdges(g), x, b) && b != x
  {
    ReachesByEdge(CutTypeEdges(g), a, b);
    ReachesTrans(CutTypeEdges(g), x, a, b);
  }

  lemma QualifiersMove(g: Graph, x: Id)
    requires WellFormed(g) && x in g
    ensures Qualifiers(g, x) != {} ==> Bare(g, x) != x
  {
  }

  lemma TypedefsMove(g: Graph, x: Id)
    requires WellFormed(g) && x in g && Acyclic(CutTypeEdges(g)) && Reaches(CutTypeEdges(g), x, Bare(g, x))
    ensures IsTypedef(g, x) ==> Target(g, x) != x
  {
    hide WellFormed, Acyclic, Reaches;
    TargetIsReached(g, Bare(g, x), []);
    RankFalls(g, x, Bare(g, x));
    RankFalls(g, Bare(g, x), Target(g, x));
  }

  // ---- outcomes can be reported ----

  /** The edges that printing follows without a break, below the root. */
  ghost function CutEdgesBelow(o: Outcomes, root: Comparison): Edges<Comparison> {
    set e | e in CutEdges(o) && Reaches(DetailEdges(o), root, e.0)
  }

  /** There is a measure that falls whenever printing goes down an edge exactly if no cycle below the root
      avoids all the pairs that hold changes. */
  lemma PrintingEndsIffCyclesCut(o: Outcomes, root: Comparison)
    ensures (exists measure: Comparison -> nat :: FallsAlong(measure, CutEdgesBelow(o, root)))
            <==> Acyclic(CutEdgesBelow(o, root))
  {
    hide CutEdgesBelow, Acyclic;
    var edges := CutEdgesBelow(o, root);
    if Acyclic(edges) {
      var measure: Comparison -> nat := (c: Comparison) => |ReachSet(edges, c)|;
      forall c, d | (c, d) in edges ensures measure(d) < measure(c) {
        ReachSetShrinks(edges, c, d);
      }
      assert FallsAlong(measure, edges);
    }
    if measure: Comparison -> nat :| FallsAlong(measure, edges) {
      MeasuredIsAcyclic(edges, measure);
    }
  }

  /** What a finished comparison leaves: the outcomes of a set of pairs that lead to no others. */
  ghost predicate IsRecord(p: Problem, seen: set<Comparison>, o: Outcomes)
    requires WellFormed(p.graph)
  {
    seen <= Domain(p) && ClosedUnder(ComparisonEdges(p), seen) && AreOutcomes(p, seen, o)
  }

  /** Details come from the script. */
  lemma DetailsOfPair(p: Problem, seen: set<Comparison>, o: Outcomes, c: Comparison, d: Comparison)
    requires WellFormed(p.graph) && IsRecord(p, seen, o) && HasDetail(o, c, d)
    ensures InDomain(p, c) && c in seen && d in o
    ensures (HasChild(p, c, d) && InDomain(p, d)) || HasGone(p, c, d)
  {
    hide CompareScript, Same;
    assert InDomain(p, c);
    PairOutcomeSeen(p, seen, o, c);
    DetailsComeFromSteps(CompareScript(p, c).steps, SameSet(p));
    var k :| 0 <= k < |o[c].details| && o[c].details[k].edge == Some(d);
    assert o[c].details[k] in Details(CompareScript(p, c).steps, SameSet(p));
    var step :| step in CompareScript(p, c).steps && !step.NodeStep? && step.edge == d &&
      (step.ChildStep? ==> step.edge !in SameSet(p));
    if step.ChildStep? {
      assert HasChild(p, c, d);
      assert (c, d) in ComparisonEdges(p);
    } else {
      assert HasGone(p, c, d);
    }
  }

  lemma GoneHasOneEnd(p: Problem, u: Comparison, d: Comparison)
    requires WellFormed(p.graph) && HasGone(p, u, d)
    ensures !TwoSided(d) && (d.first.Some? || d.second.Some?) && !InDomain(p, d)
  {
    hide CompareScript;
    ScriptInGraph(p, u);
  }

  lemma PairOutcomeSeen(p: Problem, seen: set<Comparison>, o: Outcomes, c: Comparison)
    requires WellFormed(p.graph) && IsRecord(p, seen, o) && InDomain(p, c)
    ensures c in o <==> c in seen && !Same(p, c)
  {
    hide CompareScript, Same, HasGone;
    forall u | HasGone(p, u, c) ensures false { GoneHasOneEnd(p, u, c); }
  }

  /** How far a pair is from the end of its chains of types. */
  ghost function Height(p: Problem): Comparison -> nat
    requires WellFormed(p.graph)
  {
    (c: Comparison) => if InDomain(p, c) then 1 + Rank(p.graph, c.first.value) + Rank(p.graph, c.second.value) else 0
  }

  lemma HeightFalls(p: Problem, c: Comparison, d: Comparison)
    requires WellFormed(p.graph) && Acyclic(CutTypeEdges(p.graph))
    requires InDomain(p, c) && !CompareScript(p, c).holdsChanges
    requires (HasChild(p, c, d) && InDomain(p, d)) || HasGone(p, c, d)
    ensures Height(p)(d) < Height(p)(c)
  {
    hide CompareScript, Acyclic, Reaches, HasChild, HasGone;
    var x, y := c.first.value, c.second.value;
    assert c == Pair(x, y);
    if HasChild(p, c, d) && InDomain(p, d) {
      PairChildBelow(p, x, y, d);
      RankFalls(p.graph, x, d.first.value);
      RankFalls(p.graph, y, d.second.value);
    } else {
      GoneHasOneEnd(p, c, d);
    }
  }

  /** The outcomes of a comparison are complete, and printing them comes to an end. */
  lemma OutcomesReportable(p: Problem, seen: set<Comparison>, o: Outcomes)
    requires WellFormed(p.graph) && CyclesBroken(p.graph) && IsRecord(p, seen, o)
    ensures Reportable(o)
  {
    hide CompareScript, Same, HasChild, HasGone, HasDetail, Holds, CyclesBroken, IsRecord, Rank, Acyclic;
    CutTypesAcyclic(p.graph);
    forall c, d | HasDetail(o, c, d) ensures d in o {
      DetailsOfPair(p, seen, o, c, d);
    }
    forall c | c in o ensures (c.first.Some? || c.second.Some?) && (!TwoSided(c) ==> o[c] == NO_DIFF) {
      OutcomeHasEnd(p, seen, o, c);
    }
    forall c, d | (c, d) in CutEdges(o) ensures Height(p)(d) < Height(p)(c) {
      DetailsOfPair(p, seen, o, c, d);
      NotHeld(p, seen, o, c);
      HeightFalls(p, c, d);
    }
    MeasuredIsAcyclic(CutEdges(o), Height(p));
  }

  lemma NotHeld(p: Problem, seen: set<Comparison>, o: Outcomes, c: Comparison)
    requires WellFormed(p.graph) && IsRecord(p, seen, o) && InDomain(p, c) && c in o
    ensures Holds(o, c) <==> CompareScript(p, c).holdsChanges
  {
    hide CompareScript, Same, HasGone;
  }

  lemma OutcomeHasEnd(p: Problem, seen: set<Comparison>, o: Outcomes, c: Comparison)
    requires WellFormed(p.graph) && IsRecord(p, seen, o) && c in o
    ensures (c.first.Some? || c.second.Some?) && (!TwoSided(c) ==> o[c] == NO_DIFF)
  {
    hide CompareScript, Same;
    if !InDomain(p, c) {
      var u :| u in seen && HasGone(p, u, c);
      GoneHasOneEnd(p, u, c);
    }
  }

  // ---- differences leave a trace ----

  /** The comparison of the two nodes themselves finds a difference. */
  ghost predicate NodesDiffer(p: Problem, c: Comparison)
    requires WellFormed(p.graph)
  {
    && InDomain(p, c)
    && (CompareScript(p, c).incomparable || exists step :: step in CompareScript(p, c).steps && step.NodeStep?)
  }

  /** An outcome says which nodes differ. */
  lemma ChangesAreNodesThatDiffer(p: Problem, seen: set<Comparison>, o: Outcomes, c: Comparison)
    requires WellFormed(p.graph) && IsRecord(p, seen, o) && c in o && InDomain(p, c)
    ensures IsChange(o, c) <==> NodesDiffer(p, c)
  {
    hide CompareScript, Same, HasGone;
  }

  /** Children that differ and edges that are gone are on record. */
  lemma DifferencesAreDetails(p: Problem, seen: set<Comparison>, o: Outcomes, c: Comparison, d: Comparison)
    requires WellFormed(p.graph) && IsRecord(p, seen, o) && c in seen && InDomain(p, c) && c in o
    requires (HasChild(p, c, d) && !Same(p, d)) || HasGone(p, c, d)
    ensures HasDetail(o, c, d)
  {
    hide CompareScript, Same;
    var steps := CompareScript(p, c).steps;
    DetailsComeFromSteps(steps, SameSet(p));
    var step :| step in steps && !step.NodeStep? && step.edge == d && (step.ChildStep? ==> step.edge !in SameSet(p));
    var detail := DiffDetail(step.text, Some(d));
    assert detail in o[c].details;
    var k :| 0 <= k < |o[c].details| && o[c].details[k] == detail;
  }

  /** A pair that differs cannot be without details if it holds changes: they would have to be elsewhere. */
  lemma HoldingHasDetails(p: Problem, seen: set<Comparison>, o: Outcomes, c: Comparison)
    requires WellFormed(p.graph) && IsRecord(p, seen, o) && Holds(o, c) && InDomain(p, c)
    ensures o[c].details != []
  {
    hide CompareScript, Same, HasGone, HasChild;
    PairOutcomeSeen(p, seen, o, c);
    NotHeld(p, seen, o, c);
    if LocallySame(p, c) {
      var d := DifferenceHasCause(p, c);
      DifferencesAreDetails(p, seen, o, c, d);
    } else {
      HeldIsComparable(p, c);
      var step := LocalDifference(p, c);
      DetailsComeFromSteps(CompareScript(p, c).steps, SameSet(p));
    }
  }

  lemma LocalDifference(p: Problem, c: Comparison) returns (step: Step)
    requires WellFormed(p.graph) && InDomain(p, c) && !LocallySame(p, c) && !CompareScript(p, c).incomparable
    ensures step in CompareScript(p, c).steps && !step.ChildStep?
  {
    hide CompareScript;
    step :| step in CompareScript(p, c).steps && !step.ChildStep?;
  }

  lemma HeldIsComparable(p: Problem, c: Comparison)
    requires WellFormed(p.graph) && InDomain(p, c) && CompareScript(p, c).holdsChanges
    ensures !CompareScript(p, c).incomparable
  {
    hide StructSteps, EnumSteps, FunctionSteps, SymbolsSteps, IntegerSteps, SymbolAttributeSteps, Unqualified, Resolved;
  }

  // ---- from the root ----

  /** Pairs that differ are reached along differences only, so the record of differences leads to them. */
  lemma {:induction false} WalkIsOnRecord(p: Problem, seen: set<Comparison>, o: Outcomes, walk: seq<Comparison>)
    requires WellFormed(p.graph) && IsRecord(p, seen, o) && IsWalk(ComparisonEdges(p), walk)
    requires walk[0] in seen && !Same(p, walk[|walk| - 1])
    ensures Reaches(DetailEdges(o), walk[0], walk[|walk| - 1])
    ensures walk[|walk| - 1] in seen && walk[|walk| - 1] in o && InDomain(p, walk[|walk| - 1])
    decreases |walk|
  {
    hide CompareScript, Same, HasChild, HasGone, HasDetail, Reaches, AreOutcomes;
    ReachesSelf(DetailEdges(o), walk[0]);
    PairOutcomeSeen(p, seen, o, walk[0]);
    if |walk| > 1 {
      var last := walk[|walk| - 1];
      assert (walk[0], walk[1]) in ComparisonEdges(p);
      assert walk[1..][|walk| - 2] == last;
      WalkOfDifferences(p, walk);
      WalkIsOnRecord(p, seen, o, walk[1..]);
      DifferencesAreDetails(p, seen, o, walk[0], walk[1]);
      ReachesStep(DetailEdges(o), walk[0], walk[1], last);
    }
  }

  lemma WalkOfDifferences(p: Problem, walk: seq<Comparison>)
    requires WellFormed(p.graph) && IsWalk(ComparisonEdges(p), walk) && |walk| > 1
    requires InDomain(p, walk[0]) && !Same(p, walk[|walk| - 1])
    ensures HasChild(p, walk[0], walk[1]) && InDomain(p, walk[1])
    ensures !Same(p, walk[0]) && !Same(p, walk[1])
  {
    hide CompareScript, Same, HasChild, InDomain;
    var last := walk[|walk| - 1];
    assert (walk[0], walk[1]) in ComparisonEdges(p);
    assert walk[1..][|walk| - 2] == last;
    assert WalkBetween(ComparisonEdges(p), walk[1], walk[1..], last);
    assert WalkBetween(ComparisonEdges(p), walk[0], walk, last);
    DifferenceSpreads(p, walk[0], last);
    DifferenceSpreads(p, walk[1], last);
  }

  lemma DifferenceIsOnRecord(p: Problem, seen: set<Comparison>, o: Outcomes, root: Comparison, x: Comparison)
    requires WellFormed(p.graph) && IsRecord(p, seen, o) && root in seen
    requires Reaches(ComparisonEdges(p), root, x) && !Same(p, x)
    ensures Reaches(DetailEdges(o), root, x) && x in seen && x in o && InDomain(p, x)
  {
    hide CompareScript, Same;
    var walk :| WalkBetween(ComparisonEdges(p), root, walk, x);
    WalkIsOnRecord(p, seen, o, walk);
  }

  /** A difference between what the two roots lead to: two nodes that differ, or a node that is removed or
      added. This does not refer to any record. */
  ghost predicate IsDifference(p: Problem, root: Comparison, n: Comparison)
    requires WellFormed(p.graph)
  {
    || (Reaches(ComparisonEdges(p), root, n) && NodesDiffer(p, n))
    || (exists u :: Reaches(ComparisonEdges(p), root, u) && HasGone(p, u, n))
  }

  lemma UnequalHasDifference(p: Problem, root: Comparison)
    requires WellFormed(p.graph)
    ensures InDomain(p, root) && !Same(p, root) ==> exists n :: IsDifference(p, root, n)
  {
    hide CompareScript;
    if InDomain(p, root) && !Same(p, root) {
      var x :| Reaches(ComparisonEdges(p), root, x) && !LocallySame(p, x);
      assert InDomain(p, x) by { ReachedInDomain(p, root, x); }
      if !NodesDiffer(p, x) {
        var step := LocalDifference(p, x);
        assert HasGone(p, x, step.edge);
        assert IsDifference(p, root, step.edge);
      } else {
        assert IsDifference(p, root, x);
      }
    }
  }

  lemma ReachedInDomain(p: Problem, root: Comparison, x: Comparison)
    requires WellFormed(p.graph) && InDomain(p, root) && Reaches(ComparisonEdges(p), root, x)
    ensures InDomain(p, x)
  {
    hide CompareScript, HasChild;
    ClosedSetTraps(ComparisonEdges(p), Domain(p), root, x);
  }

  lemma LocalDifferenceMatters(p: Problem, n: Comparison, u: Comparison)
    requires WellFormed(p.graph)
    ensures NodesDiffer(p, n) ==> !Same(p, n)
    ensures HasGone(p, u, n) ==> !Same(p, u)
  {
    hide CompareScript, Same;
    if NodesDiffer(p, n) { LocalDifferenceDiffers(p, n); }
    if HasGone(p, u, n) { LocalDifferenceDiffers(p, u); }
  }

  /** Every difference is a change that the record leads to. */
  lemma DifferencesAreReported(p: Problem, seen: set<Comparison>, o: Outcomes, root: Comparison, n: Comparison)
    requires WellFormed(p.graph) && IsRecord(p, seen, o) && root in seen && InDomain(p, root) && !NodesDiffer(p, root)
    requires IsDifference(p, root, n)
    ensures Reported(o, root, n) && IsChange(o, n) && n in o
  {
    hide CompareScript, Same, NodesDiffer, HasGone, HasDetail, IsRecord, InDomain;
    if Reaches(ComparisonEdges(p), root, n) && NodesDiffer(p, n) {
      LocalDifferenceMatters(p, n, n);
      DifferenceIsOnRecord(p, seen, o, root, n);
      ChangesAreNodesThatDiffer(p, seen, o, n);
    } else {
      var u :| Reaches(ComparisonEdges(p), root, u) && HasGone(p, u, n);
      LocalDifferenceMatters(p, n, u);
      DifferenceIsOnRecord(p, seen, o, root, u);
      DifferencesAreDetails(p, seen, o, u, n);
      DetailsOfPair(p, seen, o, u, n);
      GoneHasOneEnd(p, u, n);
      ReachesByEdge(DetailEdges(o), u, n);
      ReachesTrans(DetailEdges(o), root, u, n);
    }
    var d := FirstStep(DetailEdges(o), root, n);
  }

  // ---- symbol tables as roots ----

  ghost predicate AreTables(p: Problem, root: Comparison) {
    InDomain(p, root) && p.graph[root.first.value].Symbols? && p.graph[root.second.value].Symbols?
  }

  /** Symbol tables differ in their symbols only. */
  lemma TablesHaveEdgesOnly(p: Problem, root: Comparison)
    requires WellFormed(p.graph) && AreTables(p, root)
    ensures !CompareScript(p, root).incomparable && CompareScript(p, root).holdsChanges
    ensures forall step :: step in CompareScript(p, root).steps ==> !step.NodeStep?
  {
    hide WellFormed, InBoth, OnlyIn, Quote, References;
    var a, b := p.graph[root.first.value], p.graph[root.second.value];
    TablesScript(p, root);
    var removed := GoneSymbolSteps(OnlyIn(a.symbols, b.symbols), false);
    var added := GoneSymbolSteps(OnlyIn(b.symbols, a.symbols), true);
    var common := CommonSymbolSteps(InBoth(a.symbols, b.symbols));
    assert SymbolsSteps(a.symbols, b.symbols) == removed + added + common;
  }

  lemma TablesScript(p: Problem, root: Comparison)
    requires WellFormed(p.graph) && AreTables(p, root)
    ensures var a, b := p.graph[root.first.value], p.graph[root.second.value];
            CompareScript(p, root) == Script(true, false, SymbolsSteps(a.symbols, b.symbols))
  {
    hide SymbolsSteps, StructSteps, EnumSteps, FunctionSteps, IntegerSteps, SymbolAttributeSteps;
  }

  lemma {:induction false} DetailsHaveEdges(steps: seq<Step>, omit: set<Comparison>)
    requires forall step :: step in steps ==> !step.NodeStep?
    ensures forall k :: 0 <= k < |Details(steps, omit)| ==> Details(steps, omit)[k].edge.Some?
  {
    if steps != [] {
      DetailsHaveEdges(steps[..|steps| - 1], omit);
    }
  }

  lemma TablesDiffer(p: Problem, seen: set<Comparison>, o: Outcomes, root: Comparison)
    requires WellFormed(p.graph) && IsRecord(p, seen, o) && AreTables(p, root) && root in o
    ensures !NodesDiffer(p, root) && Holds(o, root)
    ensures forall k :: 0 <= k < |o[root].details| ==> o[root].details[k].edge.Some?
  {
    hide CompareScript, Same, HasGone;
    TablesHaveEdgesOnly(p, root);
    NotHeld(p, seen, o, root);
    DetailsHaveEdges(CompareScript(p, root).steps, SameSet(p));
  }
}

/** The steps of a comparison, and why each keeps the invariant and answers rightly. */
module CompareSteps {
  import opened Wrappers
  import opened Reachability
  import opened Graph
  import opened Scc
  import opened SccSearch
  import opened Diffs
  import opened Scripts
  import opened Verdicts
  import opened CompareInvariant

  /** std::unordered_map::insert: an entry that is there already stays. */
  function Inserted<K, V>(m: map<K, V>, k: K, v: V): map<K, V> {
    if k in m then m else m[k := v]
  }

  lemma SearchFacts(p: Problem, s: StateView)
    requires WellFormed(p.graph) && SearchInv(p, s)
    ensures Inv(s.scc) && WellShaped(s.scc) && s.scc.closed == s.known.Keys
    ensures s.scc.path == [] ==> s.scc.open == []
    ensures forall c :: c in s.scc.open ==> c !in s.known
  {
    if s.scc.open != [] { PathNotEmpty(s.scc); }
  }

  /** The pair was visited and closed before. */
  lemma KnownAnswered(p: Problem, s: StateView, c: Comparison)
    requires WellFormed(p.graph) && SearchInv(p, s) && c in s.known
    ensures Compared(p, s, s, c, s.known[c], if s.known[c] then None else Some(c))
  {
    hide Reaches;
    SearchFacts(p, s);
  }

  /** While the search moves on, nothing else changes. */
  lemma MovedOn(p: Problem, s: StateView, w: Snapshot<Comparison>)
    requires WellFormed(p.graph) && StateInv(p, s) && SearchInv(p, s.(scc := w))
    requires Finished(w) == Finished(s.scc) && Seen(s.scc) <= Seen(w)
    ensures StateInv(p, s.(scc := w))
  {
    hide SearchInv, HasChild, HasGone, ExactDiff, CompareScript, Same, Finished, VerdictsInv, Seen;
  }

  /** The pair is open. */
  lemma OpenAnswered(p: Problem, s: StateView, w: Snapshot<Comparison>, c: Comparison)
    requires WellFormed(p.graph) && StateInv(p, s) && InDomain(p, c) && WellShaped(s.scc)
    requires MetAgain(s.scc, w, c) && Followed(s.scc, c) <= ComparisonEdges(p)
    ensures StateInv(p, s.(scc := w)) && Compared(p, s, s.(scc := w), c, true, Some(c))
  {
    hide SearchInv, ProvisionalInv, OutcomesInv, VerdictsInv, MetAgain, WellShaped, Followed;
    MergedSearchInv(p, s, w, c);
    MovedOn(p, s, w);
  }

  lemma MergedSearchInv(p: Problem, s: StateView, w: Snapshot<Comparison>, c: Comparison)
    requires WellFormed(p.graph) && SearchInv(p, s) && WellShaped(s.scc)
    requires MetAgain(s.scc, w, c) && Followed(s.scc, c) <= ComparisonEdges(p)
    ensures SearchInv(p, s.(scc := w)) && Finished(w) == Finished(s.scc) && Seen(s.scc) == Seen(w)
    ensures Compared(p, s, s.(scc := w), c, true, Some(c))
  {
    hide HasChild, Inv, Follows, Reaches, WellShaped, Clean, Compared;
    var ix: nat, popped: nat :| ix < |s.scc.open| && s.scc.open[ix] == c &&
      PopsBeyond(s.scc.roots, ix, popped) && w == Merged(s.scc, ix, popped);
    MergeKeepsInv(s.scc, ix, popped);
    MergeKeepsFollows(s.scc, ComparisonEdges(p), ix, popped);
    MergedCompared(p, s, ix, popped);
  }

  lemma MergedCompared(p: Problem, s: StateView, ix: nat, popped: nat)
    requires WellFormed(p.graph) && SearchInv(p, s) && WellShaped(s.scc)
    requires ix < |s.scc.open| && popped <= |s.scc.roots|
    ensures Compared(p, s, s.(scc := Merged(s.scc, ix, popped)), s.scc.open[ix], true, Some(s.scc.open[ix]))
  {
    hide HasChild, Inv, Follows, Reaches, WellShaped, Clean;
    SearchFacts(p, s);
  }

  /** The pair is new: it is opened, and nothing has happened yet. */
  lemma Opened(p: Problem, s: StateView, c: Comparison)
    requires WellFormed(p.graph) && StateInv(p, s) && InDomain(p, c) && WellShaped(s.scc)
    requires c !in s.scc.open && c !in s.known && Followed(s.scc, c) <= ComparisonEdges(p)
    ensures StateInv(p, s.(scc := Pushed(s.scc, c))) && Tracks(p, s.(scc := Pushed(s.scc, c)), c, [])
    ensures Seen(Pushed(s.scc, c)) == Seen(s.scc) + {c} && c !in Seen(s.scc)
  {
    hide SearchInv, ProvisionalInv, OutcomesInv, VerdictsInv, WellShaped, Finished;
    OpenedSearchInv(p, s, c);
    PushedFinished(s.scc, c);
    MovedOn(p, s, Pushed(s.scc, c));
    TracksStart(p, s.(scc := Pushed(s.scc, c)), c);
  }

  lemma OpenedSearchInv(p: Problem, s: StateView, c: Comparison)
    requires WellFormed(p.graph) && SearchInv(p, s) && InDomain(p, c) && WellShaped(s.scc)
    requires c !in s.scc.open && c !in s.known && Followed(s.scc, c) <= ComparisonEdges(p)
    ensures SearchInv(p, s.(scc := Pushed(s.scc, c)))
    ensures Seen(Pushed(s.scc, c)) == Seen(s.scc) + {c} && c !in Seen(s.scc)
  {
    hide Inv, Follows, WellShaped, CompareScript;
    PushKeepsInv(s.scc, c);
    PushKeepsFollows(s.scc, ComparisonEdges(p), c);
  }

  lemma PushedFinished(v: Snapshot<Comparison>, c: Comparison)
    requires WellShaped(v)
    ensures Finished(Pushed(v, c)) == Finished(v)
  {
    assert forall i :: 0 <= i < |v.open| ==> Pushed(v, c).open[i] == v.open[i];
  }

  /** A removed or added node gets an empty outcome. */
  lemma GoneRecorded(p: Problem, s: StateView, u: Comparison, events: seq<Event>, edge: Comparison)
    requires WellFormed(p.graph) && StateInv(p, s) && Tracks(p, s, u, events)
    requires HasGone(p, u, edge)
    ensures var t := s.(outcomes := Inserted(s.outcomes, edge, NO_DIFF));
            StateInv(p, t) && Tracks(p, t, u, events) && Grows(p, s, t, u) && edge in t.outcomes
  {
    hide SearchInv, ProvisionalInv, OutcomesInv, VerdictsInv, Clean, HasGone, Reaches;
    var t := s.(outcomes := Inserted(s.outcomes, edge, NO_DIFF));
    GoneKeepsInv(p, s, u, edge);
    assert CleanFrom(p, t, s.scc.path[|s.scc.path| - 1] + 1) <==> CleanFrom(p, s, s.scc.path[|s.scc.path| - 1] + 1);
    forall k | 0 <= k < |events| ensures EventInv(t, u, events[k]) {
      assert EventInv(s, u, events[k]);
    }
  }

  lemma GoneKeepsInv(p: Problem, s: StateView, u: Comparison, edge: Comparison)
    requires WellFormed(p.graph) && StateInv(p, s) && u in Seen(s.scc) && HasGone(p, u, edge)
    ensures StateInv(p, s.(outcomes := Inserted(s.outcomes, edge, NO_DIFF)))
  {
    hide Inv, Follows, VerdictsInv, CompareScript, Same, Finished, HasGone, ExactDiff, OutcomesInv, WellFormed, Seen,
         DiffOf, KnownSame;
    GoneKeepsOutcomes(p, s, u, edge);
  }

  lemma GoneKeepsOutcomes(p: Problem, s: StateView, u: Comparison, edge: Comparison)
    requires WellFormed(p.graph) && OutcomesInv(p, s) && u in Seen(s.scc) && HasGone(p, u, edge)
    ensures OutcomesInv(p, s.(outcomes := Inserted(s.outcomes, edge, NO_DIFF)))
  {
    hide CompareScript, Same, Finished, HasGone, ExactDiff, Seen;
    GoneIsNotInDomain(p, u, edge);
  }

  lemma GoneIsNotInDomain(p: Problem, u: Comparison, edge: Comparison)
    requires WellFormed(p.graph) && HasGone(p, u, edge)
    ensures !InDomain(p, edge)
  {
    ScriptInGraph(p, u);
  }

  // ---- the end of an examination ----

  /** u has been examined in full, since it was opened in state s0. */
  ghost predicate Examined(
      p: Problem, s0: StateView, s: StateView, u: Comparison,
      equals: bool, diff: Diff, incomparable: bool, events: seq<Event>)
    requires WellFormed(p.graph)
  {
    && StateInv(p, s0) && InDomain(p, u) && u !in s0.scc.open && u !in s0.known
    && Followed(s0.scc, u) <= ComparisonEdges(p)
    && StateInv(p, s) && Grows(p, s0.(scc := Pushed(s0.scc, u)), s, u) && Tracks(p, s, u, events)
    && Summarises(equals, diff, incomparable, events)
    && RanScript(CompareScript(p, u), incomparable, diff, events)
  }

  /** What the two ends of an examination have in common. */
  lemma ExaminedFacts(
      p: Problem, s0: StateView, s: StateView, u: Comparison,
      equals: bool, diff: Diff, incomparable: bool, events: seq<Event>)
    requires WellFormed(p.graph) && Examined(p, s0, s, u, equals, diff, incomparable, events)
    ensures diff == DiffOf(CompareScript(p, u), KnownSame(s.known))
    ensures equals <==> CleanFrom(p, s, |s0.scc.open|)
    ensures Explored(s.scc, ComparisonEdges(p), u)
    ensures forall c :: HasGone(p, u, c) ==> c in s.outcomes
    ensures s.scc.path == s0.scc.path + [|s0.scc.open|] && s0.scc.open + [u] <= s.scc.open
    ensures WellShaped(s0.scc) && (s0.scc.path == [] ==> s0.scc.open == [])
    ensures WellShaped(s.scc) && |s.scc.roots| > 0
  {
    hide CompareScript, Summarises, HasGone, ProvisionalInv, OutcomesInv, VerdictsInv, Inv, Follows, CleanFrom;
    SearchFacts(p, s0);
    SearchFacts(p, s);
    ExaminedDiff(p, s, u, CompareScript(p, u), equals, diff, incomparable, events);
    ExaminedExplored(p, s, u, events);
    ExaminedVerdict(p, s, u, equals, diff, incomparable, events);
    TopInRange(s.scc);
  }

  /** Everything seen since u was met was reached from u. */
  lemma ExaminedGrows(
      p: Problem, s0: StateView, s: StateView, t: StateView, u: Comparison)
    requires WellFormed(p.graph) && WellShaped(s0.scc)
    requires Grows(p, s0.(scc := Pushed(s0.scc, u)), s, u)
    requires t.scc.path == s0.scc.path && s0.scc.open <= t.scc.open
    requires t.scc.edges == s.scc.edges && s.scc.closed <= t.scc.closed && Seen(t.scc) == Seen(s.scc)
    requires forall c :: c in s.known ==> c in t.known && t.known[c] == s.known[c]
    requires s.outcomes.Keys <= t.outcomes.Keys
    ensures Grows(p, s0, t, u)
  {
    hide WellFormed, HasChild, WellShaped;
    ReachesSelf(ComparisonEdges(p), u);
    hide Reaches;
    assert Seen(Pushed(s0.scc, u)) == Seen(s0.scc) + {u};
  }

  // ---- leaving a pair open ----

  lemma LeftOpen(
      p: Problem, s0: StateView, s: StateView, u: Comparison,
      equals: bool, diff: Diff, incomparable: bool, events: seq<Event>)
    requires WellFormed(p.graph) && Examined(p, s0, s, u, equals, diff, incomparable, events)
    requires !AtRoot(s.scc)
    ensures var t := s.(provisional := Inserted(s.provisional, u, diff), scc := Left(s.scc));
            StateInv(p, t) && Compared(p, s0, t, u, equals, Some(u))
  {
    hide SearchInv, ProvisionalInv, OutcomesInv, VerdictsInv, WellShaped, Grows, Summarises, RanScript, CleanFrom,
         Explored, AtRoot, Followed;
    var t := s.(provisional := Inserted(s.provisional, u, diff), scc := Left(s.scc));
    ExaminedFacts(p, s0, s, u, equals, diff, incomparable, events);
    LeftSearchInv(p, s, t, u);
    LeftFinished(s.scc, u);
    LeftRecords(p, s, u, diff);
    LeftCompared(p, s0, s, t, u, equals);
  }

  lemma LeftRecords(p: Problem, s: StateView, u: Comparison, diff: Diff)
    requires WellFormed(p.graph) && StateInv(p, s) && InDomain(p, u) && |s.scc.path| > 0
    requires Finished(Left(s.scc)) == Finished(s.scc) + {u} && u !in Finished(s.scc)
    requires diff == DiffOf(CompareScript(p, u), KnownSame(s.known))
    requires forall c :: HasGone(p, u, c) ==> c in s.outcomes
    ensures var t := s.(provisional := Inserted(s.provisional, u, diff), scc := Left(s.scc));
            ProvisionalInv(p, t) && OutcomesInv(p, t)
  {
    hide SearchInv, HasGone, ExactDiff, CompareScript, Same, Finished, DiffOf, KnownSame;
  }

  lemma LeftSearchInv(p: Problem, s: StateView, t: StateView, u: Comparison)
    requires WellFormed(p.graph) && SearchInv(p, s) && |s.scc.path| > 0 && !AtRoot(s.scc)
    requires s.scc.path[|s.scc.path| - 1] < |s.scc.open| && Top(s.scc) == u
    requires Explored(s.scc, ComparisonEdges(p), u)
    requires t.scc == Left(s.scc) && t.known == s.known
    ensures SearchInv(p, t)
  {
    LeaveKeepsInv(s.scc);
    LeaveKeepsFollows(s.scc, ComparisonEdges(p));
  }

  lemma LeftFinished(v: Snapshot<Comparison>, u: Comparison)
    requires WellShaped(v) && |v.path| > 0 && v.path[|v.path| - 1] < |v.open| && Top(v) == u
    ensures Finished(Left(v)) == Finished(v) + {u} && u !in Finished(v)
  {
  }

  lemma LeftGrows(p: Problem, s0: StateView, s: StateView, t: StateView, u: Comparison)
    requires WellFormed(p.graph) && WellShaped(s0.scc)
    requires Grows(p, s0.(scc := Pushed(s0.scc, u)), s, u)
    requires s.scc.path == s0.scc.path + [|s0.scc.open|] && s0.scc.open + [u] <= s.scc.open
    requires t.known == s.known && t.outcomes == s.outcomes && t.scc == Left(s.scc)
    ensures Grows(p, s0, t, u) && Followed(s0.scc, u) <= t.scc.edges
  {
    hide HasChild, Reaches, WellFormed;
    ExaminedGrows(p, s0, s, t, u);
  }

  lemma LeftCompared(p: Problem, s0: StateView, s: StateView, t: StateView, u: Comparison, equals: bool)
    requires WellFormed(p.graph) && SearchInv(p, s) && WellShaped(s0.scc) && !AtRoot(s.scc)
    requires Grows(p, s0.(scc := Pushed(s0.scc, u)), s, u)
    requires s.scc.path == s0.scc.path + [|s0.scc.open|] && s0.scc.open + [u] <= s.scc.open
    requires t.known == s.known && t.outcomes == s.outcomes && t.scc == Left(s.scc)
    requires equals <==> CleanFrom(p, s, |s0.scc.open|)
    ensures Compared(p, s0, t, u, equals, Some(u))
  {
    hide Follows, Clean, Inv, Grows, AtRoot, Followed, WellFormed;
    SearchFacts(p, s);
    if |s.scc.path| == 1 { OutermostIsRoot(s.scc); }
    LeftGrows(p, s0, s, t, u);
    assert CleanFrom(p, t, |s0.scc.open|) <==> CleanFrom(p, s, |s0.scc.open|);
    assert s.scc.open[|s0.scc.open|] == u;
  }

  // ---- closing a component ----

  /** The same verdict is committed for the whole component. */
  ghost function Committed(
      known: map<Comparison, bool>, component: set<Comparison>, equals: bool): map<Comparison, bool> {
    known + map c | c in component :: equals
  }

  /** Provisional diffs become outcomes if the verdict is inequality. */
  ghost function Reported(
      outcomes: map<Comparison, Diff>, provisional: map<Comparison, Diff>, component: set<Comparison>, equals: bool)
    : map<Comparison, Diff>
  {
    if equals then outcomes else outcomes + map c | c in component && c in provisional :: provisional[c]
  }

  ghost function ClosedState(s: StateView, u: Comparison, ix: nat, equals: bool, diff: Diff): StateView
    requires |s.scc.path| > 0 && |s.scc.roots| > 0 && ix <= |s.scc.open|
  {
    var provisional := Inserted(s.provisional, u, diff);
    var component := OpenFrom(s.scc, ix);
    StateView(Committed(s.known, component, equals),
              Reported(s.outcomes, provisional, component, equals),
              provisional - component,
              Removed(s.scc, ix))
  }

  /** If nothing speaks against any member of the component, they are all the same. */
  lemma CleanComponentIsSame(p: Problem, s: StateView, ix: nat, m: Comparison)
    requires WellFormed(p.graph) && VerdictsInv(p, s.known) && s.scc.closed == s.known.Keys
    requires ClosedUnder(ComparisonEdges(p), s.scc.closed) && ix <= |s.scc.open|
    requires ClosedUnder(ComparisonEdges(p), s.scc.closed + OpenFrom(s.scc, ix))
    requires CleanFrom(p, s, ix) && m in OpenFrom(s.scc, ix)
    ensures Same(p, m)
  {
    var edges := ComparisonEdges(p);
    var b := OpenFrom(s.scc, ix) + KnownSame(s.known);
    forall c | c in b ensures LocallySame(p, c) {
      if c in OpenFrom(s.scc, ix) {
        var j :| ix <= j < |s.scc.open| && s.scc.open[j] == c;
        assert Clean(p, s.known, s.scc.open[j]);
      } else {
        ReachesSelf(edges, c);
      }
    }
    forall c, d | c in b && (c, d) in edges ensures d in b {
      if c in OpenFrom(s.scc, ix) {
        var j :| ix <= j < |s.scc.open| && s.scc.open[j] == c;
        assert Clean(p, s.known, s.scc.open[j]);
      } else {
        assert d in s.known;
        if !Same(p, d) {
          ReachesByEdge(edges, c, d);
          DifferenceSpreads(p, c, d);
        }
      }
    }
    BisimulationIsSame(p, b, m);
  }

  /** If something speaks against one member, they all differ. */
  lemma UncleanComponentDiffers(p: Problem, s: StateView, ix: nat, m: Comparison)
    requires WellFormed(p.graph) && VerdictsInv(p, s.known) && ix <= |s.scc.open|
    requires OpenFrom(s.scc, ix) <= Domain(p) && IsComponent(ComparisonEdges(p), OpenFrom(s.scc, ix))
    requires !CleanFrom(p, s, ix) && m in OpenFrom(s.scc, ix)
    ensures !Same(p, m)
  {
    var edges := ComparisonEdges(p);
    var j :| ix <= j < |s.scc.open| && !Clean(p, s.known, s.scc.open[j]);
    var c := s.scc.open[j];
    assert c in s.scc.open[ix..];
    if LocallySame(p, c) {
      var d :| HasChild(p, c, d) && d in s.known && !s.known[d];
      ReachesByEdge(edges, c, d);
      DifferenceSpreads(p, c, d);
    } else {
      LocalDifferenceDiffers(p, c);
    }
    assert MutuallyReach(edges, m, c);
    DifferenceSpreads(p, m, c);
  }

  lemma ClosedVerdicts(p: Problem, s: StateView, u: Comparison, ix: nat, equals: bool)
    requires WellFormed(p.graph) && SearchInv(p, s) && VerdictsInv(p, s.known)
    requires AtRoot(s.scc) && ix == s.scc.path[|s.scc.path| - 1] && Top(s.scc) == u
    requires Explored(s.scc, ComparisonEdges(p), u) && (equals <==> CleanFrom(p, s, ix))
    ensures forall m :: m in OpenFrom(s.scc, ix) ==> (equals <==> Same(p, m))
    ensures VerdictsInv(p, Committed(s.known, OpenFrom(s.scc, ix), equals))
    ensures ClosedUnder(ComparisonEdges(p), s.scc.closed + OpenFrom(s.scc, ix))
  {
    hide Same, Clean, HasChild, CleanFrom, Inv, IsComponent, ClosedUnder, Explored, Follows, Domain, Reaches;
    CloseYieldsComponent(s.scc, ComparisonEdges(p), ix);
    RemovedFollows(p, s, ix);
    forall m | m in OpenFrom(s.scc, ix) ensures equals <==> Same(p, m) {
      if equals {
        CleanComponentIsSame(p, s, ix, m);
      } else {
        UncleanComponentDiffers(p, s, ix, m);
      }
    }
  }

  lemma RemovedFollows(p: Problem, s: StateView, ix: nat)
    requires WellFormed(p.graph) && |s.scc.path| > 0 && |s.scc.roots| > 0 && ix <= |s.scc.open|
    requires Follows(Removed(s.scc, ix), ComparisonEdges(p)) && Follows(s.scc, ComparisonEdges(p))
    requires Seen(s.scc) <= Domain(p)
    ensures ClosedUnder(ComparisonEdges(p), s.scc.closed) && OpenFrom(s.scc, ix) <= Domain(p)
    ensures ClosedUnder(ComparisonEdges(p), s.scc.closed + OpenFrom(s.scc, ix))
  {
  }

  lemma ClosedSearchInv(p: Problem, s: StateView, t: StateView, u: Comparison, ix: nat, equals: bool)
    requires WellFormed(p.graph) && SearchInv(p, s)
    requires AtRoot(s.scc) && ix == s.scc.path[|s.scc.path| - 1] && Top(s.scc) == u
    requires Explored(s.scc, ComparisonEdges(p), u)
    requires t.known == Committed(s.known, OpenFrom(s.scc, ix), equals) && t.scc == Removed(s.scc, ix)
    ensures SearchInv(p, t) && Seen(t.scc) == Seen(s.scc)
  {
    hide Explored, HasChild, IsComponent;
    CloseYieldsComponent(s.scc, ComparisonEdges(p), ix);
    RemoveKeepsInv(s.scc, ix);
    RemovedSeen(s.scc, ix);
    hide Inv, Follows;
    assert t.known.Keys == s.known.Keys + OpenFrom(s.scc, ix);
  }

  lemma ClosedFinished(v: Snapshot<Comparison>, ix: nat)
    requires WellShaped(v) && |v.path| > 0 && |v.roots| > 0 && v.path[|v.path| - 1] == ix < |v.open|
    ensures Finished(Removed(v, ix)) == Finished(v) + {v.open[ix]} - OpenFrom(v, ix)
    ensures v.open[ix] in OpenFrom(v, ix) && OpenFrom(v, ix) <= Finished(v) + {v.open[ix]}
    ensures forall c :: c in Finished(Removed(v, ix)) ==> exists i :: 0 <= i < ix && i !in v.path && v.open[i] == c
  {
  }

  /** A finished pair that stays open has no child in the component. */
  lemma RemainingChildren(p: Problem, s: StateView, ix: nat, c: Comparison, d: Comparison)
    requires WellFormed(p.graph) && SearchInv(p, s)
    requires AtRoot(s.scc) && ix == s.scc.path[|s.scc.path| - 1]
    requires c in Finished(Removed(s.scc, ix)) && HasChild(p, c, d)
    ensures d !in OpenFrom(s.scc, ix)
  {
    hide HasChild;
    ClosedFinished(s.scc, ix);
    var i :| 0 <= i < ix && i !in s.scc.path && s.scc.open[i] == c;
    TopSegmentIsolated(s.scc, ix);
    assert Explored(s.scc, ComparisonEdges(p), c);
  }

  lemma DiffsAgree(p: Problem, c: Comparison, omit1: set<Comparison>, omit2: set<Comparison>)
    requires WellFormed(p.graph) && InDomain(p, c)
    requires forall d :: HasChild(p, c, d) ==> (d in omit1 <==> d in omit2)
    ensures DiffOf(CompareScript(p, c), omit1) == DiffOf(CompareScript(p, c), omit2)
  {
    hide CompareScript;
    var steps := CompareScript(p, c).steps;
    forall step | step in steps && step.ChildStep? ensures step.edge in omit1 <==> step.edge in omit2 {
      assert HasChild(p, c, step.edge);
    }
    DetailsAgree(steps, omit1, omit2);
  }

  /** Every member of the component is finished: its children are known or in the component. */
  lemma ComponentChildren(p: Problem, s: StateView, u: Comparison, ix: nat, c: Comparison, d: Comparison)
    requires WellFormed(p.graph) && s.scc.closed == s.known.Keys && ix <= |s.scc.open|
    requires ClosedUnder(ComparisonEdges(p), s.scc.closed + OpenFrom(s.scc, ix))
    requires c in OpenFrom(s.scc, ix) && HasChild(p, c, d)
    ensures d in s.known || d in OpenFrom(s.scc, ix)
  {
    assert (c, d) in ComparisonEdges(p);
  }

  /** In a component that differs, the provisional diffs are exact. */
  lemma ProvisionalIsExact(p: Problem, s: StateView, u: Comparison, ix: nat, c: Comparison)
    requires WellFormed(p.graph) && VerdictsInv(p, s.known) && s.scc.closed == s.known.Keys && ix <= |s.scc.open|
    requires ClosedUnder(ComparisonEdges(p), s.scc.closed + OpenFrom(s.scc, ix))
    requires forall m :: m in OpenFrom(s.scc, ix) ==> !Same(p, m) && m !in s.known
    requires c in OpenFrom(s.scc, ix) && InDomain(p, c)
    ensures DiffOf(CompareScript(p, c), KnownSame(s.known)) == ExactDiff(p, c)
  {
    hide CompareScript, Same, HasChild, DiffOf;
    forall d | HasChild(p, c, d) ensures d in KnownSame(s.known) <==> d in SameSet(p) {
      ComponentChildren(p, s, u, ix, c, d);
      assert (c, d) in ComparisonEdges(p);
    }
    DiffsAgree(p, c, KnownSame(s.known), SameSet(p));
  }

  lemma ClosedProvisional(p: Problem, s: StateView, t: StateView, u: Comparison, ix: nat, equals: bool, diff: Diff)
    requires WellFormed(p.graph) && SearchInv(p, s) && ProvisionalInv(p, s) && AtRoot(s.scc)
    requires ix == s.scc.path[|s.scc.path| - 1] && Top(s.scc) == u && u !in Finished(s.scc)
    requires t == ClosedState(s, u, ix, equals, diff)
    ensures ProvisionalInv(p, t)
  {
    hide Inv, Follows, CompareScript, HasChild, DiffOf, Finished, SearchInv, KnownSame, OpenFrom, WellFormed,
         WellShaped;
    SearchFacts(p, s);
    ClosedFinished(s.scc, ix);
    forall c | c in t.provisional && InDomain(p, c)
      ensures t.provisional[c] == DiffOf(CompareScript(p, c), KnownSame(t.known))
    {
      RemainingDiff(p, s, ix, equals, c);
    }
  }

  lemma RemainingDiff(p: Problem, s: StateView, ix: nat, equals: bool, c: Comparison)
    requires WellFormed(p.graph) && SearchInv(p, s) && AtRoot(s.scc) && ix == s.scc.path[|s.scc.path| - 1]
    requires c in Finished(Removed(s.scc, ix)) && InDomain(p, c)
    ensures DiffOf(CompareScript(p, c), KnownSame(s.known))
         == DiffOf(CompareScript(p, c), KnownSame(Committed(s.known, OpenFrom(s.scc, ix), equals)))
  {
    hide Inv, Follows, CompareScript, HasChild, DiffOf, Finished, SearchInv, OpenFrom;
    var known := Committed(s.known, OpenFrom(s.scc, ix), equals);
    forall d | HasChild(p, c, d) ensures d in KnownSame(s.known) <==> d in KnownSame(known) {
      RemainingChildren(p, s, ix, c, d);
    }
    DiffsAgree(p, c, KnownSame(s.known), KnownSame(known));
  }

  lemma ClosedOutcomes(p: Problem, s: StateView, t: StateView, u: Comparison, ix: nat, equals: bool, diff: Diff)
    requires WellFormed(p.graph) && SearchInv(p, s) && ProvisionalInv(p, s) && OutcomesInv(p, s)
    requires VerdictsInv(p, s.known) && AtRoot(s.scc) && ix == s.scc.path[|s.scc.path| - 1] && Top(s.scc) == u
    requires forall m :: m in OpenFrom(s.scc, ix) ==> (equals <==> Same(p, m))
    requires ClosedUnder(ComparisonEdges(p), s.scc.closed + OpenFrom(s.scc, ix))
    requires InDomain(p, u) && diff == DiffOf(CompareScript(p, u), KnownSame(s.known)) && u !in Finished(s.scc)
    requires forall c :: HasGone(p, u, c) ==> c in s.outcomes
    requires t == ClosedState(s, u, ix, equals, diff) && Seen(t.scc) == Seen(s.scc)
    ensures OutcomesInv(p, t)
  {
    hide Inv, Follows, HasChild, DiffOf, Finished, Same, ExactDiff, HasGone, ClosedUnder, KnownSame,
         SearchInv, VerdictsInv, Seen, Reported, Committed, PairOutcomes, GoneOutcomes, OpenFrom, WellFormed,
         WellShaped,
         CompareScript, ProvisionalInv;
    SearchFacts(p, s);
    ClosedFinished(s.scc, ix);
    ComponentProvisional(p, s, u, ix, equals, diff);
    ReportedPairs(p, s, OpenFrom(s.scc, ix), Inserted(s.provisional, u, diff), equals);
    ReportedGone(p, s, t, u, OpenFrom(s.scc, ix), Inserted(s.provisional, u, diff), equals);
  }

  /** The provisional diffs of a component that differs are what must be reported. */
  lemma ComponentProvisional(p: Problem, s: StateView, u: Comparison, ix: nat, equals: bool, diff: Diff)
    requires WellFormed(p.graph) && SearchInv(p, s) && ProvisionalInv(p, s) && VerdictsInv(p, s.known)
    requires AtRoot(s.scc) && ix == s.scc.path[|s.scc.path| - 1] && Top(s.scc) == u && u !in Finished(s.scc)
    requires forall m :: m in OpenFrom(s.scc, ix) ==> (equals <==> Same(p, m))
    requires ClosedUnder(ComparisonEdges(p), s.scc.closed + OpenFrom(s.scc, ix))
    requires InDomain(p, u) && diff == DiffOf(CompareScript(p, u), KnownSame(s.known))
    ensures OpenFrom(s.scc, ix) <= Domain(p)
    ensures forall m :: m in OpenFrom(s.scc, ix) ==> m !in s.known && m in Inserted(s.provisional, u, diff)
    ensures !equals ==> forall m :: m in OpenFrom(s.scc, ix) ==>
              Inserted(s.provisional, u, diff)[m] == ExactDiff(p, m)
  {
    hide Inv, Follows, HasChild, DiffOf, Finished, Same, ExactDiff, ClosedUnder, KnownSame, VerdictsInv, WellFormed,
         CompareScript;
    SearchFacts(p, s);
    ClosedFinished(s.scc, ix);
    if !equals {
      forall m | m in OpenFrom(s.scc, ix) ensures Inserted(s.provisional, u, diff)[m] == ExactDiff(p, m) {
        ProvisionalIsExact(p, s, u, ix, m);
      }
    }
  }

  lemma ReportedPairs(
      p: Problem, s: StateView, component: set<Comparison>, provisional: map<Comparison, Diff>, equals: bool)
    requires WellFormed(p.graph) && PairOutcomes(p, s.known, s.outcomes) && component <= Domain(p)
    requires forall m :: m in component ==> (equals <==> Same(p, m)) && m !in s.known && m in provisional
    requires !equals ==> forall m :: m in component ==> provisional[m] == ExactDiff(p, m)
    ensures PairOutcomes(p, Committed(s.known, component, equals), Reported(s.outcomes, provisional, component, equals))
  {
  }

  lemma ReportedGone(
      p: Problem, s: StateView, t: StateView, u: Comparison, component: set<Comparison>,
      provisional: map<Comparison, Diff>, equals: bool)
    requires WellFormed(p.graph) && GoneOutcomes(p, s) && component <= Domain(p)
    requires forall m :: m in component ==> m in provisional
    requires t.known == Committed(s.known, component, equals) && Seen(t.scc) == Seen(s.scc)
    requires t.outcomes == Reported(s.outcomes, provisional, component, equals)
    requires component <= Finished(s.scc) + {u} && Finished(t.scc) <= Finished(s.scc) + {u}
    requires forall c :: HasGone(p, u, c) ==> c in s.outcomes
    ensures GoneOutcomes(p, t)
  {
    hide Finished, HasGone, Seen, WellFormed, CompareScript;
  }

  /** The examination of a root ends: its component gets its verdict. */
  lemma ClosedOff(
      p: Problem, s0: StateView, s: StateView, u: Comparison,
      equals: bool, diff: Diff, incomparable: bool, events: seq<Event>)
    requires WellFormed(p.graph) && Examined(p, s0, s, u, equals, diff, incomparable, events)
    requires AtRoot(s.scc) && |s0.scc.open| <= |s.scc.open|
    ensures var t := ClosedState(s, u, |s0.scc.open|, equals, diff);
            StateInv(p, t) && Compared(p, s0, t, u, equals, if equals then None else Some(u))
  {
    hide SearchInv, ProvisionalInv, OutcomesInv, VerdictsInv, WellShaped, Grows, Summarises, RanScript, CleanFrom,
         Explored, Followed, HasGone, DiffOf, CompareScript, Same, ClosedUnder, Finished, KnownSame;
    var ix := |s0.scc.open|;
    var t := ClosedState(s, u, ix, equals, diff);
    ExaminedFacts(p, s0, s, u, equals, diff, incomparable, events);
    ClosedVerdicts(p, s, u, ix, equals);
    ClosedSearchInv(p, s, t, u, ix, equals);
    TopIsNotFinished(s.scc, u);
    SearchFacts(p, s);
    ClosedProvisional(p, s, t, u, ix, equals, diff);
    ClosedOutcomes(p, s, t, u, ix, equals, diff);
    ClosedCompared(p, s0, s, t, u, equals);
  }

  lemma TopIsNotFinished(v: Snapshot<Comparison>, u: Comparison)
    requires WellShaped(v) && |v.path| > 0 && v.path[|v.path| - 1] < |v.open| && Top(v) == u
    ensures u !in Finished(v)
  {
  }

  lemma ClosedCompared(p: Problem, s0: StateView, s: StateView, t: StateView, u: Comparison, equals: bool)
    requires WellFormed(p.graph) && SearchInv(p, s) && WellShaped(s0.scc)
    requires Grows(p, s0.(scc := Pushed(s0.scc, u)), s, u)
    requires s.scc.path == s0.scc.path + [|s0.scc.open|] && s0.scc.open + [u] <= s.scc.open
    requires s0.scc.path == [] ==> s0.scc.open == []
    requires |s.scc.roots| > 0 && t.scc == Removed(s.scc, |s0.scc.open|) && Seen(t.scc) == Seen(s.scc)
    requires t.known == Committed(s.known, OpenFrom(s.scc, |s0.scc.open|), equals)
    requires s.outcomes.Keys <= t.outcomes.Keys
    ensures Compared(p, s0, t, u, equals, if equals then None else Some(u))
  {
    hide Follows, Clean, Reaches, Inv, HasChild, Seen, WellFormed, WellShaped, Domain;
    SearchFacts(p, s);
    var ix := |s0.scc.open|;
    assert s.scc.open[ix] == u && u in s.scc.open[ix..];
    assert s0.scc.open == s.scc.open[..ix];
    assert forall c :: c in OpenFrom(s.scc, ix) ==> c in s.scc.open;
    ExaminedGrows(p, s0, s, t, u);
  }
}

/** What holds of the comparison state between any two steps, and why every step keeps it. */
module CompareInvariant {
  import opened Wrappers
  import opened Reachability
  import opened Graph
  import opened Scc
  import opened SccSearch
  import opened Diffs
  import opened Scripts
  import opened Verdicts

  /** The fields of State as values. */
  datatype StateView = StateView(
    known: map<Comparison, bool>,
    outcomes: map<Comparison, Diff>,
    provisional: map<Comparison, Diff>,
    scc: Snapshot<Comparison>)

  ghost function KnownSame(known: map<Comparison, bool>): set<Comparison> {
    set c | c in known && known[c]
  }

  /** Open pairs whose examination is over. */
  ghost function Finished(v: Snapshot<Comparison>): set<Comparison> {
    set i: nat | i < |v.open| && i !in v.path :: v.open[i]
  }

  /** Nothing known so far speaks against the pair. */
  ghost predicate Clean(p: Problem, known: map<Comparison, bool>, c: Comparison)
    requires WellFormed(p.graph)
  {
    LocallySame(p, c) && forall d :: HasChild(p, c, d) && d in known ==> known[d]
  }

  /** The same for all open pairs from this index on. */
  ghost predicate CleanFrom(p: Problem, s: StateView, from: nat)
    requires WellFormed(p.graph)
  {
    forall j :: from <= j < |s.scc.open| ==> Clean(p, s.known, s.scc.open[j])
  }

  ghost predicate SearchInv(p: Problem, s: StateView)
    requires WellFormed(p.graph)
  {
    && Inv(s.scc) && Follows(s.scc, ComparisonEdges(p))
    && s.scc.closed == s.known.Keys && Seen(s.scc) <= Domain(p)
  }

  ghost predicate VerdictsInv(p: Problem, known: map<Comparison, bool>)
    requires WellFormed(p.graph)
  {
    forall c :: c in known ==> (known[c] <==> Same(p, c))
  }

  /** Provisional diffs are kept for the open pairs whose examination is over, with all children that
      are not known to be the same. */
  ghost predicate ProvisionalInv(p: Problem, s: StateView)
    requires WellFormed(p.graph)
  {
    && s.provisional.Keys == Finished(s.scc)
    && forall c :: c in s.provisional && InDomain(p, c) ==>
         s.provisional[c] == DiffOf(CompareScript(p, c), KnownSame(s.known))
  }

  /** Outcomes are recorded for exactly the pairs that are known to differ. */
  ghost predicate PairOutcomes(p: Problem, known: map<Comparison, bool>, outcomes: map<Comparison, Diff>)
    requires WellFormed(p.graph)
  {
    && (forall c :: InDomain(p, c) ==> (c in outcomes <==> c in known && !Same(p, c)))
    && (forall c :: c in outcomes && InDomain(p, c) ==> outcomes[c] == ExactDiff(p, c))
  }

  /** Empty outcomes are recorded for the removed and added nodes met, and for no others. */
  ghost predicate GoneOutcomes(p: Problem, s: StateView)
    requires WellFormed(p.graph)
  {
    && (forall c :: c in s.outcomes && !InDomain(p, c) ==>
          s.outcomes[c] == NO_DIFF && exists u :: u in Seen(s.scc) && HasGone(p, u, c))
    && (forall u, c :: (u in s.known || u in Finished(s.scc)) && HasGone(p, u, c) ==> c in s.outcomes)
  }

  ghost predicate OutcomesInv(p: Problem, s: StateView)
    requires WellFormed(p.graph)
  {
    PairOutcomes(p, s.known, s.outcomes) && GoneOutcomes(p, s)
  }

  ghost predicate StateInv(p: Problem, s: StateView)
    requires WellFormed(p.graph)
  {
    SearchInv(p, s) && VerdictsInv(p, s.known) && ProvisionalInv(p, s) && OutcomesInv(p, s)
  }

  // ---- how the state grows ----

  /** The search went on from u and came back. Whatever is new was reached from u. */
  ghost predicate Grows(p: Problem, s: StateView, t: StateView, u: Comparison)
    requires WellFormed(p.graph)
  {
    && Extends(s.scc, t.scc) && Seen(s.scc) <= Seen(t.scc)
    && (forall c :: c in s.known ==> c in t.known && t.known[c] == s.known[c])
    && s.outcomes.Keys <= t.outcomes.Keys
    && (forall c :: c in Seen(t.scc) && c !in Seen(s.scc) ==> Reaches(ComparisonEdges(p), u, c))
  }

  lemma GrowsSelf(p: Problem, s: StateView, u: Comparison)
    requires WellFormed(p.graph)
    ensures Grows(p, s, s, u)
  {
  }

  lemma GrowsTrans(p: Problem, s: StateView, t: StateView, w: StateView, u: Comparison)
    requires WellFormed(p.graph) && Grows(p, s, t, u) && Grows(p, t, w, u)
    ensures Grows(p, s, w, u)
  {
    hide Reaches, WellFormed;
  }

  lemma GrowsFromChild(p: Problem, s: StateView, t: StateView, u: Comparison, c: Comparison)
    requires WellFormed(p.graph) && Grows(p, s, t, c) && HasChild(p, u, c)
    ensures Grows(p, s, t, u)
  {
    forall d | d in Seen(t.scc) && d !in Seen(s.scc) ensures Reaches(ComparisonEdges(p), u, d) {
      ReachesStep(ComparisonEdges(p), u, c, d);
    }
  }

  /** What Compare promises about a pair c: a known verdict, or, while the pair is still open, a
      tentative one that speaks for all pairs opened in the course of the comparison. */
  ghost predicate Compared(
      p: Problem, s: StateView, t: StateView, c: Comparison, equals: bool, comparison: Option<Comparison>)
    requires WellFormed(p.graph)
  {
    && WellShaped(s.scc)
    && Grows(p, s, t, c)
    && (comparison == None || comparison == Some(c))
    && (c in t.known ==> t.scc.open == s.scc.open && equals == t.known[c] && comparison.Some? == !t.known[c])
    && (c !in t.known ==>
          && c in t.scc.open && Followed(s.scc, c) <= t.scc.edges && comparison.Some?
          && (equals <==> CleanFrom(p, t, |s.scc.open|)))
    && (s.scc.path == [] ==> t.scc.open == [] && c in t.known)
  }

  // ---- a pair under examination ----

  /** The unknown children logged so far were held equal. */
  ghost predicate TentativelyEqual(known: map<Comparison, bool>, events: seq<Event>) {
    forall k :: 0 <= k < |events| && events[k].step.ChildStep? && events[k].step.edge !in known ==> events[k].equals
  }

  /** What the log says of a child is what is known, or the child is open and its edge on record. */
  ghost predicate EventInv(s: StateView, u: Comparison, e: Event) {
    match e.step
    case NodeStep(_) => true
    case GoneStep(_, edge) => edge in s.outcomes
    case ChildStep(_, d) =>
      if d in s.known then e.equals == s.known[d] && e.shown == !s.known[d]
      else e.shown && d in s.scc.open && (u, d) in s.scc.edges
  }

  /** u is the pair under examination, and this has happened so far. The tentative answers speak for
      all the pairs above u on the stack. */
  ghost predicate Tracks(p: Problem, s: StateView, u: Comparison, events: seq<Event>)
    requires WellFormed(p.graph)
  {
    && |s.scc.path| > 0 && s.scc.path[|s.scc.path| - 1] < |s.scc.open| && Top(s.scc) == u
    && (forall k :: 0 <= k < |events| ==> EventInv(s, u, events[k]))
    && (TentativelyEqual(s.known, events) <==> CleanFrom(p, s, s.scc.path[|s.scc.path| - 1] + 1))
  }

  lemma TracksStart(p: Problem, s: StateView, u: Comparison)
    requires WellFormed(p.graph)
    requires |s.scc.path| > 0 && s.scc.path[|s.scc.path| - 1] == |s.scc.open| - 1 && Top(s.scc) == u
    ensures Tracks(p, s, u, [])
  {
  }

  /** Steps that are not about children need no more than their edge in the outcomes. */
  lemma TracksNoted(p: Problem, s: StateView, u: Comparison, events: seq<Event>, steps: seq<Step>)
    requires WellFormed(p.graph) && Tracks(p, s, u, events)
    requires forall step :: step in steps ==> step.NodeStep? || (step.GoneStep? && step.edge in s.outcomes)
    ensures Tracks(p, s, u, events + Noted(steps))
  {
    var more := events + Noted(steps);
    forall k | 0 <= k < |more| ensures EventInv(s, u, more[k]) {
      if k >= |events| { assert more[k].step in steps; }
    }
    assert forall k :: 0 <= k < |events| ==> more[k] == events[k];
    assert TentativelyEqual(s.known, more) <==> TentativelyEqual(s.known, events) by {
      assert forall k :: |events| <= k < |more| ==> more[k].step in steps;
    }
  }

  /** Open pairs stay open, so what was open and unknown is so still. */
  lemma OpenStaysUnknown(p: Problem, s: StateView, t: StateView, u: Comparison, c: Comparison)
    requires WellFormed(p.graph) && SearchInv(p, t) && Grows(p, s, t, u) && c in s.scc.open
    ensures c in t.scc.open && c !in t.known
  {
    assert s.scc.open <= t.scc.open;
  }

  /** A pair whose examination is over stays as clean or unclean as it was. */
  lemma CleanStable(p: Problem, s: StateView, t: StateView, u: Comparison, i: nat)
    requires WellFormed(p.graph) && SearchInv(p, s) && SearchInv(p, t) && Grows(p, s, t, u)
    requires i < |s.scc.open| && i !in s.scc.path
    ensures Clean(p, t.known, s.scc.open[i]) <==> Clean(p, s.known, s.scc.open[i])
  {
    var c := s.scc.open[i];
    forall d | HasChild(p, c, d) && d !in s.known ensures d !in t.known {
      FinishedChildIsOpen(p, s, i, d);
      OpenStaysUnknown(p, s, t, u, d);
    }
  }

  lemma FinishedChildIsOpen(p: Problem, s: StateView, i: nat, d: Comparison)
    requires WellFormed(p.graph) && SearchInv(p, s)
    requires i < |s.scc.open| && i !in s.scc.path && HasChild(p, s.scc.open[i], d) && d !in s.known
    ensures d in s.scc.open
  {
    assert Explored(s.scc, ComparisonEdges(p), s.scc.open[i]);
    assert (s.scc.open[i], d) in s.scc.edges;
  }

  /** A child was compared: its answer goes into the log. */
  lemma TracksChild(
      p: Problem, s: StateView, t: StateView, u: Comparison, events: seq<Event>,
      text: DetailText, c: Comparison, equals: bool, comparison: Option<Comparison>)
    requires WellFormed(p.graph) && SearchInv(p, s) && SearchInv(p, t) && Tracks(p, s, u, events)
    requires Compared(p, s, t, c, equals, comparison)
    ensures Tracks(p, t, u, events + [Event(ChildStep(text, c), equals, comparison.Some?)])
  {
    hide SearchInv, Compared, CleanFrom, EventInv, TentativelyEqual;
    EventsAfterChild(p, s, t, u, events, text, c, equals, comparison);
    TentativeAfterChild(p, s, t, u, events, text, c, equals, comparison);
    AboveAfterChild(p, s, t, c, equals, comparison);
    PathAfterChild(p, s, t, c, equals, comparison);
  }

  lemma PathAfterChild(
      p: Problem, s: StateView, t: StateView, c: Comparison, equals: bool, comparison: Option<Comparison>)
    requires WellFormed(p.graph) && Compared(p, s, t, c, equals, comparison)
    ensures s.scc.path == t.scc.path && s.scc.open <= t.scc.open
  {
  }

  lemma EventsAfterChild(
      p: Problem, s: StateView, t: StateView, u: Comparison, events: seq<Event>,
      text: DetailText, c: Comparison, equals: bool, comparison: Option<Comparison>)
    requires WellFormed(p.graph) && SearchInv(p, t) && Tracks(p, s, u, events)
    requires Compared(p, s, t, c, equals, comparison)
    ensures forall k :: 0 <= k <= |events| ==>
              EventInv(t, u, (events + [Event(ChildStep(text, c), equals, comparison.Some?)])[k])
  {
    hide SearchInv, CleanFrom, Grows, TentativelyEqual;
    var more := events + [Event(ChildStep(text, c), equals, comparison.Some?)];
    forall k | 0 <= k < |more| ensures EventInv(t, u, more[k]) {
      if k < |events| {
        EventStable(p, s, t, u, c, events[k]);
      }
    }
  }

  lemma TentativeAfterChild(
      p: Problem, s: StateView, t: StateView, u: Comparison, events: seq<Event>,
      text: DetailText, c: Comparison, equals: bool, comparison: Option<Comparison>)
    requires WellFormed(p.graph) && SearchInv(p, t) && Tracks(p, s, u, events)
    requires Compared(p, s, t, c, equals, comparison)
    ensures TentativelyEqual(t.known, events + [Event(ChildStep(text, c), equals, comparison.Some?)]) <==>
            TentativelyEqual(s.known, events) && (c in t.known || equals)
  {
    hide SearchInv, CleanFrom, Grows, EventInv;
    var more := events + [Event(ChildStep(text, c), equals, comparison.Some?)];
    TentativeStable(p, s, t, u, c, events);
    assert more[|events|].step.edge == c;
    assert forall k :: 0 <= k < |events| ==> more[k] == events[k];
  }

  lemma AboveAfterChild(
      p: Problem, s: StateView, t: StateView, c: Comparison, equals: bool, comparison: Option<Comparison>)
    requires WellFormed(p.graph) && SearchInv(p, s) && SearchInv(p, t)
    requires |s.scc.path| > 0 && s.scc.path[|s.scc.path| - 1] < |s.scc.open|
    requires Compared(p, s, t, c, equals, comparison)
    ensures var above := s.scc.path[|s.scc.path| - 1] + 1;
            CleanFrom(p, t, above) <==> CleanFrom(p, s, above) && (c in t.known || equals)
  {
    hide SearchInv, Clean, Grows;
    AboveStable(p, s, t, c);
    assert c in t.known ==> CleanFrom(p, t, |s.scc.open|);
  }

  lemma EventStable(p: Problem, s: StateView, t: StateView, u: Comparison, c: Comparison, e: Event)
    requires WellFormed(p.graph) && SearchInv(p, t) && Grows(p, s, t, c) && EventInv(s, u, e)
    ensures EventInv(t, u, e)
    ensures e.step.ChildStep? ==> (e.step.edge in t.known <==> e.step.edge in s.known)
  {
  }

  lemma TentativeStable(p: Problem, s: StateView, t: StateView, u: Comparison, c: Comparison, events: seq<Event>)
    requires WellFormed(p.graph) && SearchInv(p, t) && Grows(p, s, t, c)
    requires forall k :: 0 <= k < |events| ==> EventInv(s, u, events[k])
    ensures TentativelyEqual(t.known, events) <==> TentativelyEqual(s.known, events)
  {
  }

  /** Pairs above the one under examination were finished before, so they are as clean as they were. */
  lemma AboveStable(p: Problem, s: StateView, t: StateView, c: Comparison)
    requires WellFormed(p.graph) && SearchInv(p, s) && SearchInv(p, t) && Grows(p, s, t, c)
    requires |s.scc.path| > 0 && s.scc.path[|s.scc.path| - 1] < |s.scc.open|
    ensures var above := s.scc.path[|s.scc.path| - 1] + 1;
            CleanFrom(p, t, above) <==> CleanFrom(p, s, above) && CleanFrom(p, t, |s.scc.open|)
  {
    hide Clean, Follows, Reaches;
    var above := s.scc.path[|s.scc.path| - 1] + 1;
    forall j | above <= j < |s.scc.open|
      ensures t.scc.open[j] == s.scc.open[j]
      ensures Clean(p, t.known, s.scc.open[j]) <==> Clean(p, s.known, s.scc.open[j])
    {
      AboveTopIsFinished(s.scc, j);
      CleanStable(p, s, t, c, j);
    }
  }

  lemma AboveTopIsFinished<N(!new)>(v: Snapshot<N>, j: nat)
    requires WellShaped(v) && |v.path| > 0 && v.path[|v.path| - 1] < j
    ensures j !in v.path
  {
  }

  // ---- the end of an examination ----

  /** The script of u has been run in full. */
  ghost predicate RanScript(script: Script, incomparable: bool, diff: Diff, events: seq<Event>) {
    && incomparable == script.incomparable && diff.holdsChanges == script.holdsChanges
    && Steps(events) == script.steps
  }

  lemma {:induction false} EventDetailsAreDetails(
      p: Problem, s: StateView, u: Comparison, events: seq<Event>)
    requires forall k :: 0 <= k < |events| ==> EventInv(s, u, events[k])
    ensures EventDetails(events) == Details(Steps(events), KnownSame(s.known))
  {
    if events != [] {
      var n := |events| - 1;
      EventDetailsAreDetails(p, s, u, events[..n]);
      assert Steps(events)[..n] == Steps(events[..n]);
      assert EventInv(s, u, events[n]);
    }
  }

  lemma StepIsLogged(p: Problem, s: StateView, u: Comparison, script: Script, events: seq<Event>, step: Step)
    returns (k: nat)
    requires forall k :: 0 <= k < |events| ==> EventInv(s, u, events[k])
    requires Steps(events) == script.steps && step in script.steps
    ensures k < |events| && events[k].step == step && EventInv(s, u, events[k])
  {
    k :| 0 <= k < |script.steps| && script.steps[k] == step;
    assert Steps(events)[k] == events[k].step;
  }

  /** The result's diff is the script's, without the children known to be the same. */
  lemma ExaminedDiff(
      p: Problem, s: StateView, u: Comparison, script: Script, equals: bool, diff: Diff, incomparable: bool,
      events: seq<Event>)
    requires forall k :: 0 <= k < |events| ==> EventInv(s, u, events[k])
    requires Summarises(equals, diff, incomparable, events) && RanScript(script, incomparable, diff, events)
    ensures diff == DiffOf(script, KnownSame(s.known))
  {
    EventDetailsAreDetails(p, s, u, events);
    if k :| 0 <= k < |events| && events[k].step.NodeStep? {
      assert Steps(events)[k] in script.steps;
    }
    if step :| step in script.steps && step.NodeStep? {
      var k := StepIsLogged(p, s, u, script, events, step);
    }
  }

  lemma ExaminedExplored(p: Problem, s: StateView, u: Comparison, events: seq<Event>)
    requires WellFormed(p.graph) && SearchInv(p, s) && InDomain(p, u) && Tracks(p, s, u, events)
    requires Steps(events) == CompareScript(p, u).steps
    ensures Explored(s.scc, ComparisonEdges(p), u)
    ensures forall c :: HasGone(p, u, c) ==> c in s.outcomes
  {
    hide Inv, Follows, CompareScript, CleanFrom, TentativelyEqual;
    forall d | HasChild(p, u, d) ensures d in s.scc.closed || (u, d) in s.scc.edges {
      var step :| step in CompareScript(p, u).steps && step.ChildStep? && step.edge == d;
      var k := StepIsLogged(p, s, u, CompareScript(p, u), events, step);
    }
    forall c | HasGone(p, u, c) ensures c in s.outcomes {
      var step :| step in CompareScript(p, u).steps && step.GoneStep? && step.edge == c;
      var k := StepIsLogged(p, s, u, CompareScript(p, u), events, step);
    }
  }

  lemma EqualIsClean(p: Problem, s: StateView, u: Comparison, events: seq<Event>)
    requires WellFormed(p.graph) && InDomain(p, u) && Steps(events) == CompareScript(p, u).steps
    requires forall k :: 0 <= k < |events| ==> EventInv(s, u, events[k])
    requires !CompareScript(p, u).incomparable
    requires forall k :: 0 <= k < |events| ==> events[k].step.ChildStep? && events[k].equals
    ensures Clean(p, s.known, u)
  {
    hide CompareScript, WellFormed;
    assert forall k :: 0 <= k < |events| ==> Steps(events)[k] == events[k].step;
    forall d | HasChild(p, u, d) && d in s.known ensures s.known[d] {
      var step :| step in CompareScript(p, u).steps && step.ChildStep? && step.edge == d;
      var k := StepIsLogged(p, s, u, CompareScript(p, u), events, step);
    }
  }

  lemma CleanIsEqual(p: Problem, s: StateView, u: Comparison, events: seq<Event>)
    requires WellFormed(p.graph) && InDomain(p, u) && Steps(events) == CompareScript(p, u).steps
    requires forall k :: 0 <= k < |events| ==> EventInv(s, u, events[k])
    requires Clean(p, s.known, u) && TentativelyEqual(s.known, events)
    ensures !CompareScript(p, u).incomparable
    ensures forall k :: 0 <= k < |events| ==> events[k].step.ChildStep? && events[k].equals
  {
    hide CompareScript, WellFormed;
    forall k | 0 <= k < |events| ensures events[k].step.ChildStep? && events[k].equals {
      assert Steps(events)[k] in CompareScript(p, u).steps;
      assert EventInv(s, u, events[k]) && HasChild(p, u, events[k].step.edge);
    }
  }

  /** The result is equality exactly if nothing known speaks against the pair, or against those opened
      in the course of its examination. */
  lemma ExaminedVerdict(
      p: Problem, s: StateView, u: Comparison, equals: bool, diff: Diff, incomparable: bool, events: seq<Event>)
    requires WellFormed(p.graph) && InDomain(p, u) && Tracks(p, s, u, events)
    requires Summarises(equals, diff, incomparable, events)
    requires RanScript(CompareScript(p, u), incomparable, diff, events)
    ensures equals <==> CleanFrom(p, s, s.scc.path[|s.scc.path| - 1])
  {
    hide CompareScript, WellFormed, Clean, EventInv;
    var ix := s.scc.path[|s.scc.path| - 1];
    assert CleanFrom(p, s, ix) <==> Clean(p, s.known, u) && CleanFrom(p, s, ix + 1);
    hide CleanFrom, TentativelyEqual;
    if equals {
      EqualIsClean(p, s, u, events);
      AllEqualSoFar(s.known, events);
    }
    if CleanFrom(p, s, ix) {
      CleanIsEqual(p, s, u, events);
    }
  }

  lemma AllEqualSoFar(known: map<Comparison, bool>, events: seq<Event>)
    requires forall k :: 0 <= k < |events| ==> events[k].step.ChildStep? && events[k].equals
    ensures TentativelyEqual(known, events)
  {
  }
}

/** What Compare relies on where it opens a pair, compares children and ends an examination. */
module CompareProtocol {
  import opened Wrappers
  import opened Sequences
  import opened Graph
  import opened Scc
  import opened SccSearch
  import opened Diffs
  import opened Scripts
  import opened Verdicts
  import opened CompareInvariant
  import opened CompareSteps

  /** The edge to this pair, if a pair is under examination, is one of the comparison graph. */
  ghost predicate MayFollow(p: Problem, v: Snapshot<Comparison>, c: Comparison)
    requires WellFormed(p.graph)
  {
    WellShaped(v) && Followed(v, c) <= ComparisonEdges(p)
  }

  lemma ReadyToOpen(p: Problem, s: StateView, c: Comparison)
    requires WellFormed(p.graph) && StateInv(p, s) && MayFollow(p, s.scc, c)
    ensures WellShaped(s.scc) && Followed(s.scc, c) <= ComparisonEdges(p) && SearchInv(p, s)
    ensures s.scc.closed == s.known.Keys && (c in s.scc.open ==> c !in s.known)
  {
  }

  lemma SeenIsSame(p: Problem, s: StateView, t: StateView, c: Comparison, equals: bool, comparison: Option<Comparison>)
    requires WellFormed(p.graph) && WellShaped(s.scc) && MetAgain(s.scc, t.scc, c)
    ensures Seen(t.scc) == Seen(s.scc)
  {
  }

  lemma NewlyExamined(examined: seq<Comparison>, c: Comparison)
    requires Distinct(examined) && c !in Elements(examined)
    ensures Distinct(examined + [c]) && Elements(examined + [c]) == Elements(examined) + {c}
  {
  }

  lemma ChildMayFollow(
      p: Problem, s: StateView, u: Comparison, events: seq<Event>, text: DetailText, c: Comparison)
    requires WellFormed(p.graph) && StateInv(p, s) && InDomain(p, u) && Tracks(p, s, u, events)
    requires ChildStep(text, c) in CompareScript(p, u).steps
    ensures MayFollow(p, s.scc, c) && InDomain(p, c) && HasChild(p, u, c)
  {
    hide CompareScript, ProvisionalInv, OutcomesInv, VerdictsInv, CleanFrom;
    SearchFacts(p, s);
    assert HasChild(p, u, c);
    assert (u, c) in ComparisonEdges(p);
  }

  lemma ChildAnswered(
      p: Problem, s0: StateView, s: StateView, t: StateView, u: Comparison, events: seq<Event>,
      text: DetailText, c: Comparison, equals: bool, comparison: Option<Comparison>)
    requires WellFormed(p.graph) && StateInv(p, s) && StateInv(p, t) && Tracks(p, s, u, events)
    requires Grows(p, s0, s, u) && Compared(p, s, t, c, equals, comparison) && HasChild(p, u, c)
    ensures Tracks(p, t, u, events + [Event(ChildStep(text, c), equals, comparison.Some?)])
    ensures Grows(p, s0, t, u) && (comparison == None || comparison == Some(c)) && Seen(s.scc) <= Seen(t.scc)
  {
    hide SearchInv, ProvisionalInv, OutcomesInv, VerdictsInv, Tracks, HasChild;
    TracksChild(p, s, t, u, events, text, c, equals, comparison);
    GrowsFromChild(p, s, t, u, c);
    GrowsTrans(p, s0, s, t, u);
  }

  /** When the examination of u is over, all that the end of it needs is in place. */
  lemma ReadyToClose(
      p: Problem, s0: StateView, s: StateView, u: Comparison, equals: bool, diff: Diff, incomparable: bool,
      events: seq<Event>)
    requires WellFormed(p.graph) && StateInv(p, s0) && InDomain(p, u) && u !in s0.scc.open && u !in s0.known
    requires MayFollow(p, s0.scc, u) && StateInv(p, s)
    requires Grows(p, s0.(scc := Pushed(s0.scc, u)), s, u) && Tracks(p, s, u, events)
    requires Summarises(equals, diff, incomparable, events)
    requires Script(diff.holdsChanges, incomparable, Steps(events)) == CompareScript(p, u)
    ensures Examined(p, s0, s, u, equals, diff, incomparable, events) && WellShaped(s.scc)
    ensures |s.scc.path| > 0 && s.scc.path[|s.scc.path| - 1] == |s0.scc.open| < |s.scc.open| && |s.scc.roots| > 0
    ensures AtRoot(s.scc) ==>
              var component := s.scc.open[|s0.scc.open|..];
              && Distinct(component)
              && forall c :: c in component ==>
                  c in Inserted(s.provisional, u, diff) && c !in s.known && c !in s.outcomes
  {
    hide CompareScript, OutcomesInv, VerdictsInv, Inv, Follows, CleanFrom, Summarises;
    ExaminedFacts(p, s0, s, u, equals, diff, incomparable, events);
    if AtRoot(s.scc) {
      ComponentIsNew(p, s, u, diff);
    }
  }

  lemma ComponentIsNew(p: Problem, s: StateView, u: Comparison, diff: Diff)
    requires WellFormed(p.graph) && StateInv(p, s) && WellShaped(s.scc) && AtRoot(s.scc) && Top(s.scc) == u
    ensures var component := s.scc.open[s.scc.path[|s.scc.path| - 1]..];
            && Distinct(component)
            && forall c :: c in component ==> c in Inserted(s.provisional, u, diff) && c !in s.known && c !in s.outcomes
  {
    hide Inv, Follows, VerdictsInv, GoneOutcomes, Same, ExactDiff, CompareScript;
    SearchFacts(p, s);
    var ix := s.scc.path[|s.scc.path| - 1];
    ClosedFinished(s.scc, ix);
    forall c | c in s.scc.open[ix..]
      ensures c in Inserted(s.provisional, u, diff) && c !in s.known && c !in s.outcomes
    {
      assert c in OpenFrom(s.scc, ix) && c in s.scc.open && c in Seen(s.scc);
      assert InDomain(p, c);
    }
  }

  /** What the end of the examination of u comes to: u is left open, or its component is closed. */
  lemma Ending(
      p: Problem, s0: StateView, s: StateView, u: Comparison, equals: bool, diff: Diff, incomparable: bool,
      events: seq<Event>)
    requires WellFormed(p.graph) && StateInv(p, s0) && InDomain(p, u) && u !in s0.scc.open && u !in s0.known
    requires MayFollow(p, s0.scc, u) && StateInv(p, s)
    requires Grows(p, s0.(scc := Pushed(s0.scc, u)), s, u) && Tracks(p, s, u, events)
    requires Summarises(equals, diff, incomparable, events)
    requires Script(diff.holdsChanges, incomparable, Steps(events)) == CompareScript(p, u)
    ensures |s.scc.path| > 0 && s.scc.path[|s.scc.path| - 1] == |s0.scc.open| < |s.scc.open| && |s.scc.roots| > 0
    ensures WellShaped(s0.scc)
    ensures AtRoot(s.scc) ==>
              var t := ClosedState(s, u, |s0.scc.open|, equals, diff);
              && StateInv(p, t) && Compared(p, s0, t, u, equals, if equals then None else Some(u))
              && Seen(t.scc) == Seen(s.scc)
    ensures AtRoot(s.scc) ==>
              var component := s.scc.open[|s0.scc.open|..];
              && Distinct(component) && Elements(component) == OpenFrom(s.scc, |s0.scc.open|)
              && forall c :: c in component ==>
                  c in Inserted(s.provisional, u, diff) && c !in s.known && c !in s.outcomes
    ensures !AtRoot(s.scc) ==>
              var t := s.(provisional := Inserted(s.provisional, u, diff), scc := Left(s.scc));
              && StateInv(p, t) && Compared(p, s0, t, u, equals, Some(u))
              && Seen(t.scc) == Seen(s.scc)
  {
    hide StateInv, Grows, Tracks, Summarises, CompareScript, MayFollow, Compared, Examined, ClosedState, WellShaped,
         Inserted;
    ReadyToClose(p, s0, s, u, equals, diff, incomparable, events);
    ShapeBefore(p, s0, u);
    SeenAfterClose(p, s, u, |s0.scc.open|, equals, diff);
    if AtRoot(s.scc) {
      ClosedOff(p, s0, s, u, equals, diff, incomparable, events);
    } else {
      LeftOpen(p, s0, s, u, equals, diff, incomparable, events);
    }
  }

  lemma ShapeBefore(p: Problem, s0: StateView, u: Comparison)
    requires WellFormed(p.graph) && MayFollow(p, s0.scc, u)
    ensures WellShaped(s0.scc)
  {
  }

  lemma SeenAfterClose(p: Problem, s: StateView, u: Comparison, ix: nat, equals: bool, diff: Diff)
    requires WellShaped(s.scc) && |s.scc.path| > 0 && |s.scc.roots| > 0 && ix <= |s.scc.open|
    ensures Seen(ClosedState(s, u, ix, equals, diff).scc) == Seen(s.scc) && Seen(Left(s.scc)) == Seen(s.scc)
    ensures Elements(s.scc.open[ix..]) == OpenFrom(s.scc, ix)
  {
  }

  lemma NoneCommitted(
      known: map<Comparison, bool>, outcomes: map<Comparison, Diff>, provisional: map<Comparison, Diff>, equals: bool)
    ensures Committed(known, {}, equals) == known && Reported(outcomes, provisional, {}, equals) == outcomes
  {
  }

  lemma CommitOne(
      known: map<Comparison, bool>, outcomes: map<Comparison, Diff>, provisional: map<Comparison, Diff>,
      done: set<Comparison>, c: Comparison, equals: bool)
    requires c !in known && c !in outcomes && c in provisional && c !in done
    ensures Inserted(Committed(known, done, equals), c, equals) == Committed(known, done + {c}, equals)
    ensures !equals ==>
              Inserted(Reported(outcomes, provisional, done, equals), c, provisional[c])
              == Reported(outcomes, provisional, done + {c}, equals)
    ensures equals ==>
              Reported(outcomes, provisional, done, equals) == Reported(outcomes, provisional, done + {c}, equals)
    ensures (provisional - done) - {c} == provisional - (done + {c})
  {
    hide Committed, Reported;
    CommitKnown(known, done, c, equals);
    CommitOutcome(outcomes, provisional, done, c, equals);
  }

  lemma CommitKnown(known: map<Comparison, bool>, done: set<Comparison>, c: Comparison, equals: bool)
    requires c !in known && c !in done
    ensures c !in Committed(known, done, equals)
    ensures Committed(known, done, equals)[c := equals] == Committed(known, done + {c}, equals)
  {
  }

  lemma CommitOutcome(
      outcomes: map<Comparison, Diff>, provisional: map<Comparison, Diff>,
      done: set<Comparison>, c: Comparison, equals: bool)
    requires c !in outcomes && c in provisional && c !in done
    ensures !equals ==> c !in Reported(outcomes, provisional, done, equals)
    ensures !equals ==>
              Reported(outcomes, provisional, done, equals)[c := provisional[c]]
              == Reported(outcomes, provisional, done + {c}, equals)
    ensures equals ==>
              Reported(outcomes, provisional, done, equals) == Reported(outcomes, provisional, done + {c}, equals)
  {
  }
}

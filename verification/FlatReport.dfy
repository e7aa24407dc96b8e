/** Flat reports (reporting.cc): the difference graph printed tree by tree, from a worklist. */
module FlatReport {
  import opened Wrappers
  import opened Reachability
  import opened Sequences
  import opened Diffs
  import opened DiffGraph
  import opened Sections

  // ---- the worklist ----

  /** The pairs met so far, and those of them whose trees are still to be printed. */
  datatype Queue = Queue(seen: set<Comparison>, todo: seq<Comparison>) {
    function Push(c: Comparison): Queue {
      if c in seen then this else Queue(seen + {c}, todo + [c])
    }
  }

  ghost function Pushed(q: Queue, items: seq<Comparison>): Queue {
    if items == [] then q
    else
      var n := |items| - 1;
      Pushed(q, items[..n]).Push(items[n])
  }

  lemma {:induction false} PushedTwice(q: Queue, items1: seq<Comparison>, items2: seq<Comparison>)
    ensures Pushed(q, items1 + items2) == Pushed(Pushed(q, items1), items2)
  {
    if items2 == [] {
      assert items1 + items2 == items1;
    } else {
      var n := |items2| - 1;
      assert (items1 + items2)[..|items1| + n] == items1 + items2[..n];
      PushedTwice(q, items1, items2[..n]);
    }
  }

  ghost predicate Sound(o: Outcomes, q: Queue) {
    && Distinct(q.todo) && Elements(q.todo) <= q.seen
    && forall c :: c in q.seen ==> Holds(o, c)
  }

  lemma {:induction false} PushedSound(o: Outcomes, q: Queue, items: seq<Comparison>)
    requires Sound(o, q) && forall c :: c in items ==> Holds(o, c)
    ensures Sound(o, Pushed(q, items)) && q.todo <= Pushed(q, items).todo
    ensures Pushed(q, items).seen == q.seen + Elements(items)
    ensures Elements(Pushed(q, items).todo) == Elements(q.todo) + (Elements(items) - q.seen)
    ensures Pushed(q, items).seen == q.seen ==> Pushed(q, items) == q
  {
    if items != [] {
      var n := |items| - 1;
      PushedSound(o, q, items[..n]);
      assert items == items[..n] + [items[n]];
      assert Elements(items) == Elements(items[..n]) + {items[n]};
    }
  }

  ghost function Popped(o: Outcomes, q: Queue): Queue
    requires Reportable(o) && Sound(o, q) && q.todo != []
  {
    assert q.todo[0] in Elements(q.todo);
    Pushed(q.(todo := q.todo[1..]), Frontier(o, q.todo[0], false))
  }

  lemma PoppedIs(o: Outcomes, q: Queue)
    requires Reportable(o) && Sound(o, q) && q.todo != []
    ensures q.todo[0] in o && Holds(o, q.todo[0])
    ensures Popped(o, q) == Pushed(Queue(q.seen, q.todo[1..]), Frontier(o, q.todo[0], false))
  {
    hide Reportable, Pushed, Frontier;
    assert q.todo[0] in Elements(q.todo);
  }

  ghost function Unseen(o: Outcomes, q: Queue): nat {
    |o.Keys - q.seen|
  }

  lemma PoppedSound(o: Outcomes, q: Queue)
    requires Reportable(o) && Sound(o, q) && q.todo != []
    ensures Holds(o, q.todo[0])
    ensures Sound(o, Popped(o, q))
    ensures Popped(o, q).seen == q.seen + Elements(Frontier(o, q.todo[0], false))
    ensures Elements(Popped(o, q).todo) == Elements(q.todo[1..]) + (Elements(Frontier(o, q.todo[0], false)) - q.seen)
    ensures Unseen(o, Popped(o, q)) < Unseen(o, q) ||
            (Unseen(o, Popped(o, q)) == Unseen(o, q) && |Popped(o, q).todo| < |q.todo|)
  {
    hide Reportable, Frontier;
    assert q.todo[0] in Elements(q.todo);
    var rest := q.(todo := q.todo[1..]);
    var items := Frontier(o, q.todo[0], false);
    forall c | c in items ensures Holds(o, c) { FrontierIsCut(o, q.todo[0], false, c); }
    assert Elements(rest.todo) <= Elements(q.todo);
    PushedSound(o, rest, items);
    if Popped(o, q).seen != q.seen {
      ProperSubsetIsSmaller(o.Keys - Popped(o, q).seen, o.Keys - q.seen);
    }
  }

  /** The order in which the worklist comes to the pairs. Whether the report is full makes no difference. */
  ghost function Schedule(o: Outcomes, q: Queue): seq<Comparison>
    requires Reportable(o) && Sound(o, q)
    decreases Unseen(o, q), |q.todo|
  {
    if q.todo == [] then []
    else
      PoppedSound(o, q);
      [q.todo[0]] + Schedule(o, Popped(o, q))
  }

  lemma ScheduleStep(o: Outcomes, q: Queue)
    requires Reportable(o) && Sound(o, q)
    ensures q.todo == [] ==> Schedule(o, q) == []
    ensures q.todo != [] ==> Sound(o, Popped(o, q)) && Schedule(o, q) == [q.todo[0]] + Schedule(o, Popped(o, q))
  {
    hide Reportable, Popped, Sound;
    if q.todo != [] { PoppedSound(o, q); }
  }

  // ---- the report ----

  ghost function Paragraph(o: Outcomes, c: Comparison, full: bool, stop: bool): seq<Token>
    requires Reportable(o) && Starts(o, c, stop)
  {
    if Interesting(o, c, stop) || full then Layout(o, c, full, stop, 0) + [NewLine] else []
  }

  /** The paragraphs for the first n details of the root. */
  ghost function Opening(o: Outcomes, root: Comparison, n: nat, full: bool): seq<Token>
    requires Reportable(o) && root in o && n <= |o[root].details| && AllEdges(o[root].details)
  {
    if n == 0 then []
    else
      assert HasDetail(o, root, o[root].details[n - 1].edge.value);
      Opening(o, root, n - 1, full) + Paragraph(o, o[root].details[n - 1].edge.value, full, true)
  }

  ghost predicate AllEdges(details: seq<DiffDetail>) {
    forall k :: 0 <= k < |details| ==> details[k].edge.Some?
  }

  ghost function Paragraphs(o: Outcomes, heads: seq<Comparison>, full: bool): seq<Token>
    requires Reportable(o) && forall c :: c in heads ==> Holds(o, c)
  {
    if heads == [] then []
    else
      var n := |heads| - 1;
      assert heads[n] in heads && Holds(o, heads[n]);
      Paragraphs(o, heads[..n], full) + Paragraph(o, heads[n], full, false)
  }

  ghost function FirstQueue(o: Outcomes, root: Comparison): Queue
    requires Reportable(o) && root in o
  {
    Pushed(Queue({}, []), DetailsFrontier(o, root, |o[root].details|))
  }

  lemma FirstQueueSound(o: Outcomes, root: Comparison)
    requires Reportable(o) && root in o
    ensures Sound(o, FirstQueue(o, root)) && FirstQueue(o, root).seen == Elements(FirstQueue(o, root).todo)
    ensures FirstQueue(o, root).seen == Elements(DetailsFrontier(o, root, |o[root].details|))
  {
    var items := DetailsFrontier(o, root, |o[root].details|);
    forall c | c in items ensures Holds(o, c) { DetailsFrontierIsCut(o, root, |o[root].details|, c); }
    hide Reportable, DetailsFrontier;
    PushedSound(o, Queue({}, []), items);
  }

  /** The pairs whose trees a report prints on their own, in order. */
  ghost function Heads(o: Outcomes, root: Comparison): seq<Comparison>
    requires Reportable(o) && root in o
  {
    FirstQueueSound(o, root);
    Schedule(o, FirstQueue(o, root))
  }

  lemma {:induction false} ScheduleHolds(o: Outcomes, q: Queue)
    requires Reportable(o) && Sound(o, q)
    ensures forall c :: c in Schedule(o, q) ==> Holds(o, c)
    decreases Unseen(o, q), |q.todo|
  {
    hide Reportable, Popped, Sound;
    if q.todo != [] {
      PoppedSound(o, q);
      ScheduleHolds(o, Popped(o, q));
    }
  }

  /** The whole report. */
  ghost function Report(o: Outcomes, root: Comparison, full: bool): seq<Token>
    requires Reportable(o) && root in o && AllEdges(o[root].details)
  {
    FirstQueueSound(o, root);
    ScheduleHolds(o, FirstQueue(o, root));
    Opening(o, root, |o[root].details|, full) + Paragraphs(o, Heads(o, root), full)
  }

  // ---- what the worklist comes to ----

  /** Everything met at the cuts of a tree that was printed is on the list. */
  ghost predicate FrontiersSeen(o: Outcomes, q: Queue, printed: set<Comparison>)
    requires Reportable(o)
  {
    forall c, d :: c in printed && Holds(o, c) && d in Frontier(o, c, false) ==> d in q.seen
  }

  /** From here on, each pair waiting or still to be met is printed once, and nothing else. */
  lemma {:induction false} ScheduleIsExact(o: Outcomes, q: Queue, printed: set<Comparison>, bound: set<Comparison>)
    requires Reportable(o) && Sound(o, q) && q.seen == printed + Elements(q.todo) && printed !! Elements(q.todo)
    requires FrontiersSeen(o, q, printed)
    requires Elements(q.todo) <= bound
    requires forall c, d :: c in bound && Holds(o, c) && d in Frontier(o, c, false) ==> d in bound
    ensures Distinct(Schedule(o, q)) && Elements(Schedule(o, q)) !! printed
    ensures Elements(q.todo) <= Elements(Schedule(o, q))
    ensures forall c, d :: (c in printed || c in Schedule(o, q)) && Holds(o, c) && d in Frontier(o, c, false) ==>
              d in printed || d in Schedule(o, q)
    ensures Elements(Schedule(o, q)) <= bound
    decreases Unseen(o, q), |q.todo|
  {
    hide Reportable, Frontier, Popped, Holds, Sound, Schedule, Unseen;
    ScheduleStep(o, q);
    if q.todo != [] {
      var c := q.todo[0];
      PoppedSound(o, q);
      var rest := Schedule(o, Popped(o, q));
      HeadTail(q.todo);
      FrontiersAfter(o, q, printed);
      BoundAfter(o, q, bound);
      ScheduleIsExact(o, Popped(o, q), printed + {c}, bound);
      HeadTail([c] + rest);
      assert c !in rest by { assert c !in Elements(rest); }
      assert Elements(q.todo[1..]) <= Elements(rest);
    }
  }

  lemma HeadTail<T>(s: seq<T>)
    requires s != []
    ensures Elements(s) == {s[0]} + Elements(s[1..]) && s == [s[0]] + s[1..]
    ensures Distinct(s) ==> s[0] !in Elements(s[1..])
    ensures Distinct(s[1..]) && s[0] !in s[1..] ==> Distinct(s)
  {
  }

  lemma FrontiersAfter(o: Outcomes, q: Queue, printed: set<Comparison>)
    requires Reportable(o) && Sound(o, q) && q.seen == printed + Elements(q.todo) && printed !! Elements(q.todo)
    requires FrontiersSeen(o, q, printed) && q.todo != []
    ensures FrontiersSeen(o, Popped(o, q), printed + {q.todo[0]})
    ensures Popped(o, q).seen == printed + {q.todo[0]} + Elements(Popped(o, q).todo)
    ensures printed + {q.todo[0]} !! Elements(Popped(o, q).todo)
  {
    hide Reportable, Frontier, Popped, Sound, Elements, Distinct;
    PoppedSound(o, q);
    HeadTail(q.todo);
    SoundDistinct(o, q);
    InElements(Frontier(o, q.todo[0], false));
  }

  lemma InElements<T(!new)>(s: seq<T>)
    ensures forall x :: x in s <==> x in Elements(s)
  {
  }

  lemma SoundDistinct(o: Outcomes, q: Queue)
    requires Sound(o, q)
    ensures Distinct(q.todo)
  {
  }

  lemma BoundAfter(o: Outcomes, q: Queue, bound: set<Comparison>)
    requires Reportable(o) && Sound(o, q) && q.todo != []
    requires Elements(q.todo) <= bound
    requires forall c, d :: c in bound && Holds(o, c) && d in Frontier(o, c, false) ==> d in bound
    ensures Elements(Popped(o, q).todo) <= bound
  {
    hide Reportable, Frontier, Popped, Sound;
    PoppedSound(o, q);
    HeadTail(q.todo);
  }

  lemma FrontierIsReported(o: Outcomes, root: Comparison, c: Comparison, d: Comparison)
    requires Reportable(o) && Reported(o, root, c) && Holds(o, c) && d in Frontier(o, c, false)
    ensures Reported(o, root, d) && d in o
  {
    FrontierIsCut(o, c, false, d);
    var e :| HasDetail(o, c, e) && InTree(o, e, true, d);
    var s :| HasDetail(o, root, s) && Reaches(DetailEdges(o), s, c);
    ReachesMonotone(CutEdges(o), DetailEdges(o), e, d);
    ReachesStep(DetailEdges(o), c, e, d);
    ReachesTrans(DetailEdges(o), s, c, d);
  }

  lemma FirstIsReported(o: Outcomes, root: Comparison, c: Comparison)
    requires Reportable(o) && root in o
    ensures c in Elements(FirstQueue(o, root).todo) <==>
              Holds(o, c) && exists d :: HasDetail(o, root, d) && InTree(o, d, true, c)
  {
    hide Reportable, InTree, Holds;
    FirstQueueSound(o, root);
    DetailsFrontierIsCut(o, root, |o[root].details|, c);
    DetailIndices(o, root);
  }

  /** Every pair at a cut is scheduled itself. */
  lemma HeadsClosed(o: Outcomes, root: Comparison)
    requires Reportable(o) && root in o
    ensures Distinct(Heads(o, root)) && Covers(o, root, Elements(Heads(o, root)))
    ensures forall c :: c in Heads(o, root) ==> Holds(o, c) && Reported(o, root, c)
  {
    hide Reportable, Schedule, Frontier, Holds, InTree, HasDetail, FirstQueue;
    var q := FirstQueue(o, root);
    FirstQueueSound(o, root);
    ScheduleHolds(o, q);
    forall c | c in Elements(q.todo) ensures c in ReportedSet(o, root) {
      FirstIsReported(o, root, c);
      var d :| HasDetail(o, root, d) && InTree(o, d, true, c);
      TreeIsReported(o, root, d, c);
      assert c in o by { assert Sound(o, q); HeldIsKnown(o, c); }
    }
    forall c, d | c in ReportedSet(o, root) && Holds(o, c) && d in Frontier(o, c, false)
      ensures d in ReportedSet(o, root)
    {
      FrontierIsReported(o, root, c, d);
    }
    ScheduleIsExact(o, q, {}, ReportedSet(o, root));
    forall c, d | HasDetail(o, root, d) && InTree(o, d, true, c) && Holds(o, c) ensures c in Heads(o, root) {
      FirstIsReported(o, root, c);
    }
    forall h, c, d | h in Heads(o, root) && HasDetail(o, h, d) && InTree(o, d, true, c) && Holds(o, c)
      ensures c in Heads(o, root)
    {
      HeldIsKnown(o, h);
      FrontierIsCut(o, h, false, c);
    }
  }

  /** The worklist comes to every pair that holds changes and can be reached, once, and to nothing else. */
  lemma HeadsAreExact(o: Outcomes, root: Comparison)
    requires Reportable(o) && root in o
    ensures Distinct(Heads(o, root))
    ensures forall c :: c in Heads(o, root) <==> Holds(o, c) && Reported(o, root, c)
  {
    hide Reportable, Heads, Holds, InTree, Covers;
    HeadsClosed(o, root);
    forall c | Holds(o, c) && Reported(o, root, c) ensures c in Heads(o, root) {
      AllInSomeTree(o, root, Elements(Heads(o, root)), c);
    }
  }

  // ---- nothing is lost ----

  lemma {:induction false} OpeningHolds(o: Outcomes, root: Comparison, n: nat, full: bool, k: nat)
    requires Reportable(o) && root in o && k < n <= |o[root].details| && AllEdges(o[root].details)
    requires o[root].details[k].edge.value in o
    ensures Infix(Paragraph(o, o[root].details[k].edge.value, full, true), Opening(o, root, n, full))
  {
    hide Reportable, Paragraph, Infix;
    var before, paragraph := Opening(o, root, n - 1, full), Paragraph(o, o[root].details[k].edge.value, full, true);
    if k < n - 1 {
      OpeningHolds(o, root, n - 1, full, k);
      InfixSum(paragraph, [], before, Opening(o, root, n, full)[|before|..]);
      assert Opening(o, root, n, full) == [] + before + Opening(o, root, n, full)[|before|..];
    } else {
      InfixSelf(paragraph);
      InfixSum(paragraph, before, paragraph, []);
      assert Opening(o, root, n, full) == before + paragraph + [];
    }
  }

  lemma {:induction false} ParagraphsHold(o: Outcomes, heads: seq<Comparison>, full: bool, k: nat)
    requires Reportable(o) && forall c :: c in heads ==> Holds(o, c)
    requires k < |heads| && heads[k] in o
    ensures Infix(Paragraph(o, heads[k], full, false), Paragraphs(o, heads, full))
  {
    hide Reportable, Paragraph, Infix;
    var n := |heads| - 1;
    var before, paragraph := Paragraphs(o, heads[..n], full), Paragraph(o, heads[k], full, false);
    if k < n {
      assert heads[..n][k] == heads[k];
      ParagraphsHold(o, heads[..n], full, k);
      assert heads[n] in heads && Holds(o, heads[n]);
      InfixSum(paragraph, [], before, Paragraph(o, heads[n], full, false));
      assert Paragraphs(o, heads, full) == [] + before + Paragraph(o, heads[n], full, false);
    } else {
      InfixSelf(paragraph);
      InfixSum(paragraph, before, paragraph, []);
      assert Paragraphs(o, heads, full) == before + paragraph + [];
    }
  }

  /** A paragraph holds the layout of every pair in its tree that is of interest. */
  lemma ParagraphHolds(o: Outcomes, c: Comparison, full: bool, stop: bool, n: Comparison) returns (at: nat)
    requires Reportable(o) && Starts(o, c, stop) && InTree(o, c, stop, n) && n in o
    requires Holds(o, n) ==> n == c && !stop
    requires full || Interesting(o, n, !Holds(o, n))
    ensures Infix(Layout(o, n, full, !Holds(o, n), at), Paragraph(o, c, full, stop))
  {
    hide Reportable, Layout, Interesting, InTree, Infix;
    at := LayoutHolds(o, c, full, stop, 0, n);
    if !full && n != c { RootOfInterest(o, c, stop, n); }
    var layout := Layout(o, c, full, stop, 0);
    InfixSum(Layout(o, n, full, !Holds(o, n), at), [], layout, [NewLine]);
    assert Paragraph(o, c, full, stop) == [] + layout + [NewLine];
  }

  lemma RootOfInterest(o: Outcomes, c: Comparison, stop: bool, n: Comparison)
    requires InTree(o, c, stop, n) && n != c && !Holds(o, n) && Interesting(o, n, true)
    ensures Interesting(o, c, stop)
  {
    hide Reaches;
    if stop {
      InterestRises(o, c, n);
    } else {
      var d := BelowHead(o, c, n);
      InterestRises(o, d, n);
      var m :| InTree(o, d, true, m) && IsChange(o, m) && !Holds(o, m);
      assert InTree(o, c, false, m);
    }
  }

  /** Every pair that is of interest has its layout in the report, however much is left out; in a full report,
      everything that can be reached has. */
  lemma ReportLosesNothing(o: Outcomes, root: Comparison, full: bool, n: Comparison) returns (at: nat)
    requires Reportable(o) && root in o && AllEdges(o[root].details)
    requires Reported(o, root, n) && n in o && (full || Interesting(o, n, !Holds(o, n)))
    ensures Infix(Layout(o, n, full, !Holds(o, n), at), Report(o, root, full))
    ensures Told(o, n, FlatFormat(full), Report(o, root, full))
  {
    hide Reportable, Layout, Opening, Paragraphs, Paragraph, InTree, Heads, Reported, Interesting, HasDetail, Covers,
         Infix, Told;
    HeadsAreExact(o, root);
    HeadsClosed(o, root);
    AllInSomeTree(o, root, Elements(Heads(o, root)), n);
    var opening, rest := Opening(o, root, |o[root].details|, full), Paragraphs(o, Heads(o, root), full);
    if Holds(o, n) {
      TreeHasRoot(o, n);
      at := HeadTells(o, root, full, n, n);
    } else if h :| h in Heads(o, root) && InTree(o, h, false, n) {
      at := HeadTells(o, root, full, h, n);
    } else {
      var d :| HasDetail(o, root, d) && InTree(o, d, true, n);
      DetailIndices(o, root);
      var k :| 0 <= k < |o[root].details| && o[root].details[k].edge == Some(d);
      SizeFalls(o, root, d);
      at := ParagraphHolds(o, d, full, true, n);
      OpeningHolds(o, root, |o[root].details|, full, k);
      InfixTrans(Layout(o, n, full, !Holds(o, n), at), Paragraph(o, d, full, true), opening);
      InfixSum(Layout(o, n, full, !Holds(o, n), at), [], opening, rest);
      assert Report(o, root, full) == [] + opening + rest;
    }
    LayoutTells(o, n, full, at);
    ToldStays(o, n, FlatFormat(full), Layout(o, n, full, !Holds(o, n), at), Report(o, root, full));
  }

  lemma TreeHasRoot(o: Outcomes, c: Comparison)
    ensures InTree(o, c, false, c)
  {
  }

  lemma HeadTells(o: Outcomes, root: Comparison, full: bool, h: Comparison, n: Comparison) returns (at: nat)
    requires Reportable(o) && root in o && AllEdges(o[root].details)
    requires h in Heads(o, root) && InTree(o, h, false, n) && n in o
    requires (full || Interesting(o, n, !Holds(o, n))) && (Holds(o, n) ==> n == h)
    ensures Infix(Layout(o, n, full, !Holds(o, n), at), Report(o, root, full))
  {
    hide Reportable, Layout, Paragraphs, Paragraph, Opening, Heads, Reported, Interesting, HasDetail, InTree, Infix;
    HeadsAreExact(o, root);
    var opening, rest := Opening(o, root, |o[root].details|, full), Paragraphs(o, Heads(o, root), full);
    var k :| 0 <= k < |Heads(o, root)| && Heads(o, root)[k] == h;
    HeldIsKnown(o, h);
    at := ParagraphHolds(o, h, full, false, n);
    ParagraphsHold(o, Heads(o, root), full, k);
    InfixTrans(Layout(o, n, full, !Holds(o, n), at), Paragraph(o, h, full, false), rest);
    InfixSum(Layout(o, n, full, !Holds(o, n), at), opening, rest, []);
    assert Report(o, root, full) == opening + rest + [];
  }

  /** How the details of the root are written: without their text, but spaced out. */
  function RootStyle(full: bool): Style {
    Style(0, false, true, FlatFormat(full))
  }

  /** The report opens with lines for all the details of the root. */
  lemma {:induction false} OpeningLines(o: Outcomes, root: Comparison, n: nat, full: bool)
    requires Reportable(o) && root in o && n <= |o[root].details| && AllEdges(o[root].details)
    ensures DetailLines(o, RootStyle(full), o[root].details[..n], Opening(o, root, n, full))
  {
    hide Reportable, DetailLine, Paragraph;
    if n > 0 {
      OpeningLines(o, root, n - 1, full);
      var d := o[root].details[n - 1].edge.value;
      assert HasDetail(o, root, d);
      ParagraphLine(o, root, n - 1, full);
      LinesAppend(o, RootStyle(full), o[root].details, n - 1, Opening(o, root, n - 1, full),
                  Paragraph(o, d, full, true));
    }
  }

  lemma ParagraphLine(o: Outcomes, root: Comparison, k: nat, full: bool)
    requires Reportable(o) && root in o && k < |o[root].details| && o[root].details[k].edge.Some?
    ensures o[root].details[k].edge.value in o
    ensures DetailLine(o, RootStyle(full), o[root].details[k], Paragraph(o, o[root].details[k].edge.value, full, true))
  {
    hide Interesting, DetailsLayout, Reportable, DetailTail;
    var detail := o[root].details[k];
    var d := detail.edge.value;
    assert HasDetail(o, root, d);
    SizeFalls(o, root, d);
    OneSidedHasNoDetails(o, d);
    InterestingStep(o, d, true);
    if TwoSided(d) && (full || Interesting(o, d, true)) {
      var tail := LayoutTail(o, d, full, 0);
      PairLine(o, RootStyle(full), detail, tail);
      assert Paragraph(o, d, full, true) == [] + Headline(d) + tail + [NewLine];
    } else if !TwoSided(d) {
      assert Paragraph(o, d, full, true) == [] + Headline(d) + [NewLine];
    }
  }

  lemma ReportOpens(o: Outcomes, root: Comparison, full: bool)
    requires Reportable(o) && root in o && AllEdges(o[root].details)
    ensures DetailLines(o, RootStyle(full), o[root].details, Opening(o, root, |o[root].details|, full))
  {
    hide Reportable, Opening, DetailLines;
    OpeningLines(o, root, |o[root].details|, full);
    assert o[root].details[..|o[root].details|] == o[root].details;
  }

  /** The paragraph of a head: its headline, and the lines for its details. */
  lemma HeadParagraph(o: Outcomes, h: Comparison, full: bool) returns (lines: seq<Token>)
    requires Reportable(o) && Holds(o, h)
    ensures Paragraph(o, h, full, false) ==
            if full || Interesting(o, h, false) then Headline(h) + [NewLine] + lines + [NewLine] else []
    ensures DetailLines(o, Inner(INDENT_INCREMENT, FlatFormat(full)), o[h].details, lines)
  {
    hide Reportable, Interesting, DetailsLayout, DetailLines;
    lines := DetailsLayout(o, h, |o[h].details|, full, INDENT_INCREMENT);
    DetailsLayoutLines(o, h, |o[h].details|, full, INDENT_INCREMENT);
    assert o[h].details[..|o[h].details|] == o[h].details;
  }

  // ---- the order of the paragraphs ----

  /** Each item where it occurs first. */
  ghost function Uniques(items: seq<Comparison>): seq<Comparison> {
    if items == [] then []
    else
      var n := |items| - 1;
      var before := Uniques(items[..n]);
      if items[n] in items[..n] then before else before + [items[n]]
  }

  /** These pairs, in the order in which a text mentions them. */
  ghost function Mentions(held: set<Comparison>, text: seq<Token>): seq<Comparison> {
    if text == [] then []
    else
      var n := |text| - 1;
      Mentions(held, text[..n]) + match text[n] case Changed(c) => (if c in held then [c] else []) case _ => []
  }

  ghost function Holding(o: Outcomes): set<Comparison> {
    set c | c in o && Holds(o, c)
  }

  lemma {:induction false} MentionsOfSum(held: set<Comparison>, s: seq<Token>, t: seq<Token>)
    ensures Mentions(held, s + t) == Mentions(held, s) + Mentions(held, t)
  {
    if t == [] {
      assert s + t == s;
    } else {
      var n := |t| - 1;
      assert (s + t)[..|s| + n] == s + t[..n] && (s + t)[|s| + n] == t[n];
      MentionsOfSum(held, s, t[..n]);
    }
  }

  lemma {:induction false} NoMentions(held: set<Comparison>, text: seq<Token>)
    requires forall token :: token in text ==> !token.Changed?
    ensures Mentions(held, text) == []
  {
    if text != [] { NoMentions(held, text[..|text| - 1]); }
  }

  lemma HeadlineMentions(o: Outcomes, c: Comparison)
    requires c.first.Some? || c.second.Some?
    ensures Mentions(Holding(o), Headline(c)) == if Holds(o, c) then [c] else []
  {
    if TwoSided(c) {
      assert Headline(c) == [Token.Changed(c)] && Headline(c)[..0] == [];
    } else {
      NoMentions(Holding(o), Headline(c));
    }
  }

  /** A full tree mentions the pairs at which it is cut, in order, and before them its root if that holds changes. */
  lemma {:induction false} LayoutMentions(o: Outcomes, c: Comparison, stop: bool, indent: nat)
    requires Reportable(o) && Starts(o, c, stop)
    ensures Mentions(Holding(o), Layout(o, c, true, stop, indent)) == (if stop then [] else [c]) + Frontier(o, c, stop)
    decreases if Holds(o, c) && !stop then 1 else 0, Size(o, c), 1, 0
  {
    hide Reportable, Holding, Mentions, DetailsLayout, DetailsFrontier;
    OneSidedHasNoDetails(o, c);
    HeadlineMentions(o, c);
    NoMentions(Holding(o), [NewLine]);
    MentionsOfSum(Holding(o), Headline(c), [NewLine]);
    if TwoSided(c) && !(Holds(o, c) && stop) {
      var details := DetailsLayout(o, c, |o[c].details|, true, indent + INDENT_INCREMENT);
      DetailsLayoutMentions(o, c, |o[c].details|, indent + INDENT_INCREMENT);
      MentionsOfSum(Holding(o), Headline(c) + [NewLine], details);
    }
  }

  lemma {:induction false} DetailsLayoutMentions(o: Outcomes, c: Comparison, n: nat, indent: nat)
    requires Reportable(o) && c in o && n <= |o[c].details|
    ensures Mentions(Holding(o), DetailsLayout(o, c, n, true, indent)) == DetailsFrontier(o, c, n)
    decreases if Holds(o, c) then 1 else 0, Size(o, c), 0, n
  {
    hide Reportable, Holding, Mentions, Layout, Frontier, Interesting;
    if n == 0 {
      NoMentions(Holding(o), []);
    } else {
      var before, detail := DetailsLayout(o, c, n - 1, true, indent), o[c].details[n - 1];
      DetailsLayoutMentions(o, c, n - 1, indent);
      if detail.edge.Some? {
        var d := detail.edge.value;
        assert HasDetail(o, c, d);
        SizeFalls(o, c, d);
        LayoutMentions(o, d, true, indent);
        var lead := [Indent(indent), Wording(detail.text)];
        NoMentions(Holding(o), lead);
        MentionsOfSum(Holding(o), lead, Layout(o, d, true, true, indent));
        MentionsOfSum(Holding(o), before, lead + Layout(o, d, true, true, indent));
      } else {
        NoMentions(Holding(o), [Indent(indent), Wording(detail.text), NewLine]);
        MentionsOfSum(Holding(o), before, [Indent(indent), Wording(detail.text), NewLine]);
      }
    }
  }

  /** What a full report mentions up to the end of the paragraphs of these pairs. */
  ghost function Mentioned(o: Outcomes, root: Comparison, printed: seq<Comparison>): seq<Comparison>
    requires Reportable(o) && root in o && AllEdges(o[root].details) && forall h :: h in printed ==> Holds(o, h)
  {
    Mentions(Holding(o), Opening(o, root, |o[root].details|, true) + Paragraphs(o, printed, true))
  }

  lemma {:induction false} OpeningMentions(o: Outcomes, root: Comparison, n: nat)
    requires Reportable(o) && root in o && n <= |o[root].details| && AllEdges(o[root].details)
    ensures Mentions(Holding(o), Opening(o, root, n, true)) == DetailsFrontier(o, root, n)
  {
    hide Reportable, Holding, Mentions, Layout, Frontier, Interesting;
    if n == 0 {
      NoMentions(Holding(o), []);
    } else {
      var d := o[root].details[n - 1].edge.value;
      assert HasDetail(o, root, d);
      SizeFalls(o, root, d);
      OpeningMentions(o, root, n - 1);
      LayoutMentions(o, d, true, 0);
      NoMentions(Holding(o), [NewLine]);
      MentionsOfSum(Holding(o), Layout(o, d, true, true, 0), [NewLine]);
      MentionsOfSum(Holding(o), Opening(o, root, n - 1, true), Layout(o, d, true, true, 0) + [NewLine]);
    }
  }

  lemma MentionedNext(o: Outcomes, root: Comparison, printed: seq<Comparison>, c: Comparison)
    requires Reportable(o) && root in o && AllEdges(o[root].details)
    requires c in o && Holds(o, c) && forall h :: h in printed ==> Holds(o, h)
    ensures Mentioned(o, root, printed + [c]) == Mentioned(o, root, printed) + [c] + Frontier(o, c, false)
  {
    hide Reportable, Holding, Mentions, Layout, Frontier, Interesting, Opening, Holds;
    var opening, before := Opening(o, root, |o[root].details|, true), Paragraphs(o, printed, true);
    var layout := Layout(o, c, true, false, 0);
    LayoutMentions(o, c, false, 0);
    NoMentions(Holding(o), [NewLine]);
    MentionsOfSum(Holding(o), layout, [NewLine]);
    MentionsOfSum(Holding(o), opening + before, layout + [NewLine]);
    assert (printed + [c])[..|printed|] == printed;
    assert opening + Paragraphs(o, printed + [c], true) == opening + before + (layout + [NewLine]);
  }

  lemma UniquesNext(items: seq<Comparison>, c: Comparison)
    ensures Uniques(items + [c]) == if c in items then Uniques(items) else Uniques(items) + [c]
  {
    assert (items + [c])[..|items|] == items;
  }

  /** The worklist takes in each pair where it is mentioned first. */
  lemma {:induction false} PushedAreUniques(
      q: Queue, items: seq<Comparison>, printed: seq<Comparison>, before: seq<Comparison>)
    requires Uniques(before) == printed + q.todo && q.seen == Elements(before)
    ensures Uniques(before + items) == printed + Pushed(q, items).todo
    ensures Pushed(q, items).seen == Elements(before + items)
  {
    hide Uniques;
    if items == [] {
      assert before + items == before;
    } else {
      var n := |items| - 1;
      PushedAreUniques(q, items[..n], printed, before);
      UniquesNext(before + items[..n], items[n]);
      assert before + items == before + items[..n] + [items[n]];
    }
  }

  lemma {:induction false} ScheduleFollowsMentions(
      o: Outcomes, root: Comparison, q: Queue, printed: seq<Comparison>)
    requires Reportable(o) && root in o && AllEdges(o[root].details) && Sound(o, q)
    requires forall h :: h in printed ==> Holds(o, h)
    requires Uniques(Mentioned(o, root, printed)) == printed + q.todo
    requires q.seen == Elements(Mentioned(o, root, printed))
    ensures forall h :: h in Schedule(o, q) ==> Holds(o, h)
    ensures Uniques(Mentioned(o, root, printed + Schedule(o, q))) == printed + Schedule(o, q)
    decreases Unseen(o, q), |q.todo|
  {
    hide Reportable, Popped, Sound, Mentioned, Uniques, Frontier, Schedule, Holds, Pushed, Unseen, AllEdges;
    ScheduleHolds(o, q);
    ScheduleStep(o, q);
    if q.todo == [] {
      assert printed + [] == printed;
    } else {
      var c := q.todo[0];
      var before := Mentioned(o, root, printed);
      PoppedIs(o, q);
      PoppedSound(o, q);
      MentionedNext(o, root, printed, c);
      KnownAgain(o, q, printed, before);
      PushedAreUniques(Queue(q.seen, q.todo[1..]), Frontier(o, c, false), printed + [c], before + [c]);
      ScheduleFollowsMentions(o, root, Popped(o, q), printed + [c]);
      assert printed + [c] + Schedule(o, Popped(o, q)) == printed + Schedule(o, q);
    }
  }

  lemma KnownAgain(o: Outcomes, q: Queue, printed: seq<Comparison>, before: seq<Comparison>)
    requires Sound(o, q) && q.todo != [] && Uniques(before) == printed + q.todo && q.seen == Elements(before)
    ensures Uniques(before + [q.todo[0]]) == printed + [q.todo[0]] + q.todo[1..]
    ensures q.seen == Elements(before + [q.todo[0]])
  {
    assert q.todo[0] in Elements(q.todo);
    UniquesNext(before, q.todo[0]);
  }

  /** The paragraphs come in the order in which the full report mentions their pairs first. */
  lemma HeadsFollowMentions(o: Outcomes, root: Comparison)
    requires Reportable(o) && root in o && AllEdges(o[root].details)
    ensures Heads(o, root) == Uniques(Mentions(Holding(o), Report(o, root, true)))
  {
    hide Reportable, Schedule, Opening, DetailsFrontier, Pushed, Holding, Mentions, Uniques, Sound, Holds, AllEdges;
    var first := DetailsFrontier(o, root, |o[root].details|);
    FirstQueueSound(o, root);
    ScheduleHolds(o, FirstQueue(o, root));
    OpeningMentions(o, root, |o[root].details|);
    assert Opening(o, root, |o[root].details|, true) + [] == Opening(o, root, |o[root].details|, true);
    assert Uniques([]) == [] by { NoUniques(); }
    PushedAreUniques(Queue({}, []), first, [], []);
    assert [] + first == first;
    ScheduleFollowsMentions(o, root, FirstQueue(o, root), []);
    assert [] + Heads(o, root) == Heads(o, root);
  }

  lemma NoUniques()
    ensures Uniques([]) == []
  {
  }

  /** A report that leaves out what is not interesting is empty exactly if there is nothing to report. */
  lemma ReportIsEmptyIffNoChange(o: Outcomes, root: Comparison)
    requires Reportable(o) && root in o && AllEdges(o[root].details)
    ensures Report(o, root, false) == [] <==> forall n :: Reported(o, root, n) ==> !IsChange(o, n)
  {
    hide Reportable, Report, Reported, IsChange, Interesting;
    if n :| Reported(o, root, n) && IsChange(o, n) {
      ReportedHasEnd(o, root, n);
      ChangeIsOfInterest(o, n);
      var at := ReportLosesNothing(o, root, false, n);
      var before, after :| Report(o, root, false) == before + Layout(o, n, false, !Holds(o, n), at) + after;
    } else {
      NothingToReport(o, root);
    }
  }

  lemma ChangeIsOfInterest(o: Outcomes, n: Comparison)
    requires Reportable(o) && n in o && IsChange(o, n)
    ensures Interesting(o, n, !Holds(o, n))
  {
    hide Reportable, InTree;
    InTreeStep(o, n, !Holds(o, n), n);
  }

  lemma NothingToReport(o: Outcomes, root: Comparison)
    requires Reportable(o) && root in o && AllEdges(o[root].details)
    requires forall n :: Reported(o, root, n) ==> !IsChange(o, n)
    ensures Report(o, root, false) == []
  {
    hide Reportable, Layout, Heads, Reported, IsChange, HasDetail, Holds;
    HeadsAreExact(o, root);
    DetailIndices(o, root);
    NoOpening(o, root, |o[root].details|);
    forall h | h in Heads(o, root) ensures !Interesting(o, h, false) {
      forall n | InTree(o, h, false, n) ensures Reported(o, root, n) {
        HeadTreeIsReported(o, root, h, n);
      }
    }
    NoParagraphs(o, Heads(o, root));
  }

  lemma {:induction false} NoOpening(o: Outcomes, root: Comparison, n: nat)
    requires Reportable(o) && root in o && n <= |o[root].details| && AllEdges(o[root].details)
    requires forall n :: Reported(o, root, n) ==> !IsChange(o, n)
    ensures Opening(o, root, n, false) == []
  {
    hide Reportable, Layout, Reported, IsChange;
    if n > 0 {
      NoOpening(o, root, n - 1);
      var d := o[root].details[n - 1].edge.value;
      assert HasDetail(o, root, d);
      forall c | InTree(o, d, true, c) ensures Reported(o, root, c) {
        TreeIsReported(o, root, d, c);
      }
    }
  }

  lemma {:induction false} NoParagraphs(o: Outcomes, heads: seq<Comparison>)
    requires Reportable(o) && forall c :: c in heads ==> Holds(o, c) && !Interesting(o, c, false)
    ensures Paragraphs(o, heads, false) == []
  {
    hide Reportable, Layout, Interesting;
    if heads != [] {
      NoParagraphs(o, heads[..|heads| - 1]);
    }
  }
}

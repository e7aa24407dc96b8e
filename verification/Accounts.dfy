/** What the reports of a comparison say, in terms of the scripts of the pairs compared and without reference to
    any record (reporting.cc). */
module Accounts {
  import opened Wrappers
  import opened Reachability
  import opened Sequences
  import opened Graph
  import opened Diffs
  import opened Scripts
  import opened Verdicts
  import opened DiffGraph
  import opened Sections
  import FlatReport
  import PlainReport
  import Marks
  import opened Reporting

  // ---- what is of interest ----

  ghost predicate HoldsChanges(p: Problem, c: Comparison)
    requires WellFormed(p.graph)
  {
    InDomain(p, c) && CompareScript(p, c).holdsChanges
  }

  /** The part of the comparison graph that lies before any pair that holds changes. */
  ghost function UnheldEdges(p: Problem): Edges<Comparison>
    requires WellFormed(p.graph)
  {
    set e | e in ComparisonEdges(p) && !HoldsChanges(p, e.0)
  }

  /** A pair that differs by itself, in its nodes or in a node removed or added, is reached before any pair that
      holds changes. */
  ghost predicate OfInterest(p: Problem, d: Comparison)
    requires WellFormed(p.graph)
  {
    exists n :: Reaches(UnheldEdges(p), d, n) && !HoldsChanges(p, n) && !LocallySame(p, n)
  }

  // ---- lines ----

  /** The line for one step of a script. Children that are the same have none. In a small report, children that lead
      to nothing of interest have none either. */
  ghost predicate StepLine(p: Problem, style: Style, step: Step, line: seq<Token>)
    requires WellFormed(p.graph)
    decreases |line|, 0
  {
    match step
    case NodeStep(text) => line == style.Lead(text) + [NewLine] + style.Trail()
    case GoneStep(text, Comparison(Some(id), None)) =>
      line == style.Lead(text) + [Token.Removed(id), NewLine] + style.Trail()
    case GoneStep(text, Comparison(None, Some(id))) =>
      line == style.Lead(text) + [Token.Added(id), NewLine] + style.Trail()
    case GoneStep(_, _) => false
    case ChildStep(text, d) =>
      if Same(p, d) || (style.format.SMALL? && !OfInterest(p, d)) then line == []
      else
        && InDomain(p, d)
        && exists tail :: |tail| < |line| && line == style.Lead(text) + [Token.Changed(d)] + tail + style.Trail() &&
                          StepTail(p, d, style.width, style.format, tail)
  }

  /** What follows the headline of a pair: the lines for its script, unless it holds changes and is printed
      elsewhere. */
  ghost predicate StepTail(p: Problem, d: Comparison, width: nat, format: OutputFormat, tail: seq<Token>)
    requires WellFormed(p.graph) && InDomain(p, d)
    decreases |tail|, 1
  {
    if HoldsChanges(p, d) && !format.PLAIN? then tail == [NewLine]
    else
      || (HoldsChanges(p, d) && (tail == [BeingReported, NewLine] || tail == [AlreadyReported, NewLine]))
      || (|tail| > 0 && tail[0] == NewLine &&
          StepLines(p, Inner(width + INDENT_INCREMENT, format), CompareScript(p, d).steps, tail[1..]))
  }

  /** The lines for some steps, one after another. */
  ghost predicate StepLines(p: Problem, style: Style, steps: seq<Step>, lines: seq<Token>)
    requires WellFormed(p.graph)
    decreases |lines|, |steps| + 1
  {
    if steps == [] then lines == []
    else
      var n := |steps| - 1;
      exists cut: nat :: cut <= |lines| &&
        StepLines(p, style, steps[..n], lines[..cut]) && StepLine(p, style, steps[n], lines[cut..])
  }

  // ---- whole reports ----

  /** How the script of the roots is written: spaced out, and in flat reports without the text of the steps. */
  function RootStyle(format: OutputFormat): Style {
    Style(0, format.PLAIN?, true, format)
  }

  /** Something is to be said below the headline of a pair that holds changes. */
  ghost predicate HasNews(p: Problem, h: Comparison)
    requires WellFormed(p.graph)
  {
    !LocallySame(p, h) || exists d :: HasChild(p, h, d) && OfInterest(p, d)
  }

  /** The paragraph of a pair that holds changes. In a small report it has none if there is no news of it. */
  ghost predicate HeadParagraph(p: Problem, format: OutputFormat, h: Comparison, text: seq<Token>)
    requires WellFormed(p.graph) && InDomain(p, h)
  {
    if format.SMALL? && !HasNews(p, h) then text == []
    else exists lines ::
           && text == [Token.Changed(h), NewLine] + lines + [NewLine]
           && StepLines(p, Inner(INDENT_INCREMENT, format), CompareScript(p, h).steps, lines)
  }

  ghost predicate HeadParagraphs(p: Problem, format: OutputFormat, heads: seq<Comparison>, text: seq<Token>)
    requires WellFormed(p.graph)
  {
    if heads == [] then text == []
    else
      var n := |heads| - 1;
      exists cut: nat :: cut <= |text| &&
        HeadParagraphs(p, format, heads[..n], text[..cut]) &&
        InDomain(p, heads[n]) && HeadParagraph(p, format, heads[n], text[cut..])
  }

  /** The lines for the script of the roots, and then the paragraphs of these pairs. */
  ghost predicate IsFlat(
      p: Problem, root: Comparison, format: OutputFormat, heads: seq<Comparison>, report: seq<Token>)
    requires WellFormed(p.graph) && InDomain(p, root)
  {
    exists cut: nat :: cut <= |report| &&
      StepLines(p, RootStyle(format), CompareScript(p, root).steps, report[..cut]) &&
      HeadParagraphs(p, format, heads, report[cut..])
  }

  /** The pair differs and holds changes, and a child of the root leads to it. */
  ghost predicate IsHead(p: Problem, root: Comparison, h: Comparison)
    requires WellFormed(p.graph)
  {
    HoldsChanges(p, h) && !Same(p, h) && exists d :: HasChild(p, root, d) && Reaches(ComparisonEdges(p), d, h)
  }

  /** Each head once, in the order in which the full report mentions them first. */
  ghost predicate AreHeads(p: Problem, root: Comparison, heads: seq<Comparison>)
    requires WellFormed(p.graph) && InDomain(p, root)
  {
    && Distinct(heads) && (forall h :: h in heads <==> IsHead(p, root, h))
    && exists full ::
         IsFlat(p, root, FLAT, heads, full) && heads == FlatReport.Uniques(FlatReport.Mentions(Elements(heads), full))
  }

  /** The pair is not mentioned before the place where its whole script is printed. Within that it is marked as
      being reported, and after it as already reported. */
  ghost predicate ToldOnce(p: Problem, c: Comparison, report: seq<Token>)
    requires WellFormed(p.graph) && InDomain(p, c)
  {
    exists before, width: nat, lines, after ::
      && report == before + ([Token.Changed(c), NewLine] + lines) + after
      && StepLines(p, Inner(width, PLAIN), CompareScript(p, c).steps, lines)
      && Token.Changed(c) !in before
      && Marks.Marked(c, lines, BeingReported) && Marks.Marked(c, after, AlreadyReported)
  }

  /** The lines for the script of the roots, with each head told in full exactly once. */
  ghost predicate IsPlain(p: Problem, root: Comparison, report: seq<Token>)
    requires WellFormed(p.graph) && InDomain(p, root)
  {
    && StepLines(p, RootStyle(PLAIN), CompareScript(p, root).steps, report)
    && forall h :: IsHead(p, root, h) ==> ToldOnce(p, h, report)
  }

  // ---- flat reports have one text ----

  lemma {:induction false} LineIsUnique(p: Problem, style: Style, step: Step, line1: seq<Token>, line2: seq<Token>)
    requires WellFormed(p.graph) && !style.format.PLAIN?
    requires StepLine(p, style, step, line1) && StepLine(p, style, step, line2)
    ensures line1 == line2
    decreases |line1|, 0
  {
    hide WellFormed, Same, StepTail, OfInterest;
    if step.ChildStep? && !(Same(p, step.edge) || (style.format.SMALL? && !OfInterest(p, step.edge))) {
      var d := step.edge;
      var tail1 :| |tail1| < |line1| && line1 == style.Lead(step.text) + [Token.Changed(d)] + tail1 + style.Trail() &&
        StepTail(p, d, style.width, style.format, tail1);
      var tail2 :| |tail2| < |line2| && line2 == style.Lead(step.text) + [Token.Changed(d)] + tail2 + style.Trail() &&
        StepTail(p, d, style.width, style.format, tail2);
      TailIsUnique(p, d, style.width, style.format, tail1, tail2);
    }
  }

  lemma {:induction false} TailIsUnique(
      p: Problem, d: Comparison, width: nat, format: OutputFormat, tail1: seq<Token>, tail2: seq<Token>)
    requires WellFormed(p.graph) && InDomain(p, d) && !format.PLAIN?
    requires StepTail(p, d, width, format, tail1) && StepTail(p, d, width, format, tail2)
    ensures tail1 == tail2
    decreases |tail1|, 1
  {
    hide WellFormed, InDomain, HoldsChanges, StepLines, CompareScript;
    if !HoldsChanges(p, d) {
      LinesAreUnique(p, Inner(width + INDENT_INCREMENT, format), CompareScript(p, d).steps, tail1[1..], tail2[1..]);
      assert tail1 == [NewLine] + tail1[1..] && tail2 == [NewLine] + tail2[1..];
    }
  }

  lemma {:induction false} LinesAreUnique(
      p: Problem, style: Style, steps: seq<Step>, lines1: seq<Token>, lines2: seq<Token>)
    requires WellFormed(p.graph) && !style.format.PLAIN?
    requires StepLines(p, style, steps, lines1) && StepLines(p, style, steps, lines2)
    ensures lines1 == lines2
    decreases |lines1|, |steps| + 1
  {
    hide WellFormed, StepLine;
    if steps != [] {
      var n := |steps| - 1;
      var cut1: nat :| cut1 <= |lines1| &&
        StepLines(p, style, steps[..n], lines1[..cut1]) && StepLine(p, style, steps[n], lines1[cut1..]);
      var cut2: nat :| cut2 <= |lines2| &&
        StepLines(p, style, steps[..n], lines2[..cut2]) && StepLine(p, style, steps[n], lines2[cut2..]);
      LinesAreUnique(p, style, steps[..n], lines1[..cut1], lines2[..cut2]);
      LineIsUnique(p, style, steps[n], lines1[cut1..], lines2[cut2..]);
      assert lines1 == lines1[..cut1] + lines1[cut1..] && lines2 == lines2[..cut2] + lines2[cut2..];
    }
  }

  lemma {:induction false} ParagraphsAreUnique(
      p: Problem, format: OutputFormat, heads: seq<Comparison>, text1: seq<Token>, text2: seq<Token>)
    requires WellFormed(p.graph) && !format.PLAIN?
    requires HeadParagraphs(p, format, heads, text1) && HeadParagraphs(p, format, heads, text2)
    ensures text1 == text2
  {
    hide WellFormed, StepLines, HasNews, InDomain, CompareScript;
    if heads != [] {
      var n := |heads| - 1;
      var h := heads[n];
      var cut1: nat :| cut1 <= |text1| && HeadParagraphs(p, format, heads[..n], text1[..cut1]) &&
        HeadParagraph(p, format, h, text1[cut1..]);
      var cut2: nat :| cut2 <= |text2| && HeadParagraphs(p, format, heads[..n], text2[..cut2]) &&
        HeadParagraph(p, format, h, text2[cut2..]);
      ParagraphsAreUnique(p, format, heads[..n], text1[..cut1], text2[..cut2]);
      ParagraphIsUnique(p, format, h, text1[cut1..], text2[cut2..]);
      assert text1 == text1[..cut1] + text1[cut1..] && text2 == text2[..cut2] + text2[cut2..];
    }
  }

  lemma ParagraphIsUnique(p: Problem, format: OutputFormat, h: Comparison, text1: seq<Token>, text2: seq<Token>)
    requires WellFormed(p.graph) && InDomain(p, h) && !format.PLAIN?
    requires HeadParagraph(p, format, h, text1) && HeadParagraph(p, format, h, text2)
    ensures text1 == text2
  {
    hide WellFormed, StepLines, HasNews, CompareScript;
    var style, steps := Inner(INDENT_INCREMENT, format), CompareScript(p, h).steps;
    if !(format.SMALL? && !HasNews(p, h)) {
      var lines1 :| text1 == [Token.Changed(h), NewLine] + lines1 + [NewLine] && StepLines(p, style, steps, lines1);
      var lines2 :| text2 == [Token.Changed(h), NewLine] + lines2 + [NewLine] && StepLines(p, style, steps, lines2);
      LinesAreUnique(p, style, steps, lines1, lines2);
    }
  }

  /** The scripts of the pairs compared leave no choice about the text of a flat report. */
  lemma FlatReportIsUnique(
      p: Problem, root: Comparison, format: OutputFormat, heads: seq<Comparison>, report1: seq<Token>,
      report2: seq<Token>)
    requires WellFormed(p.graph) && InDomain(p, root) && !format.PLAIN?
    requires IsFlat(p, root, format, heads, report1) && IsFlat(p, root, format, heads, report2)
    ensures report1 == report2
  {
    hide WellFormed, StepLines, HeadParagraphs, InDomain, CompareScript;
    var cut1: nat :| cut1 <= |report1| &&
      StepLines(p, RootStyle(format), CompareScript(p, root).steps, report1[..cut1]) &&
      HeadParagraphs(p, format, heads, report1[cut1..]);
    var cut2: nat :| cut2 <= |report2| &&
      StepLines(p, RootStyle(format), CompareScript(p, root).steps, report2[..cut2]) &&
      HeadParagraphs(p, format, heads, report2[cut2..]);
    LinesAreUnique(p, RootStyle(format), CompareScript(p, root).steps, report1[..cut1], report2[..cut2]);
    ParagraphsAreUnique(p, format, heads, report1[cut1..], report2[cut2..]);
    assert report1 == report1[..cut1] + report1[cut1..] && report2 == report2[..cut2] + report2[cut2..];
  }

  // ---- interest, on record ----

  lemma HeldOnRecord(p: Problem, seen: set<Comparison>, o: Outcomes, c: Comparison)
    requires WellFormed(p.graph) && IsRecord(p, seen, o) && c in o && InDomain(p, c)
    ensures Holds(o, c) <==> HoldsChanges(p, c)
    ensures !Same(p, c) && c in seen
  {
    hide WellFormed, CompareScript, Same, IsRecord;
    NotHeld(p, seen, o, c);
    PairOutcomeSeen(p, seen, o, c);
  }

  /** A pair that differs by itself has something to show before any other pair that holds changes. */
  lemma OwnDifferenceIsOfInterest(p: Problem, seen: set<Comparison>, o: Outcomes, n: Comparison)
    requires WellFormed(p.graph) && IsRecord(p, seen, o) && Reportable(o) && n in o && InDomain(p, n)
    requires n in seen && !LocallySame(p, n)
    ensures Interesting(o, n, !Holds(o, n))
  {
    hide WellFormed, CompareScript, IsRecord, Reportable, InTree, Holds, HasGone, HasDetail, InDomain, IsChange;
    if NodesDiffer(p, n) {
      ChangesAreNodesThatDiffer(p, seen, o, n);
      FlatReport.ChangeIsOfInterest(o, n);
    } else {
      var d := GoneStepOf(p, n);
      DifferencesAreDetails(p, seen, o, n, d);
      DetailsOfPair(p, seen, o, n, d);
      GoneHasOneEnd(p, n, d);
      GoneIsOfInterest(o, n, d);
    }
  }

  lemma GoneStepOf(p: Problem, n: Comparison) returns (d: Comparison)
    requires WellFormed(p.graph) && InDomain(p, n) && !LocallySame(p, n) && !NodesDiffer(p, n)
    ensures HasGone(p, n, d)
  {
    hide CompareScript, WellFormed;
    var step := LocalDifference(p, n);
    d := step.edge;
  }

  lemma GoneIsOfInterest(o: Outcomes, n: Comparison, d: Comparison)
    requires Reportable(o) && n in o && d in o && HasDetail(o, n, d) && !TwoSided(d)
    ensures Interesting(o, n, !Holds(o, n))
  {
    hide Reportable, InTree, HasDetail;
    InTreeStep(o, d, true, d);
    InTreeStep(o, n, !Holds(o, n), d);
  }

  lemma InterestRises(p: Problem, c: Comparison, d: Comparison)
    requires WellFormed(p.graph) && HasChild(p, c, d) && !HoldsChanges(p, c) && OfInterest(p, d)
    ensures OfInterest(p, c)
  {
    hide Reaches, HasChild, HoldsChanges, LocallySame, Same;
    var n :| Reaches(UnheldEdges(p), d, n) && !HoldsChanges(p, n) && !LocallySame(p, n);
    assert (c, d) in ComparisonEdges(p);
    ReachesStep(UnheldEdges(p), c, d, n);
  }

  lemma OfInterestItself(p: Problem, c: Comparison)
    requires WellFormed(p.graph) && !HoldsChanges(p, c) && !LocallySame(p, c)
    ensures OfInterest(p, c)
  {
    ReachesSelf(UnheldEdges(p), c);
  }

  lemma {:induction false} RecordedInterestIsReal(
      p: Problem, seen: set<Comparison>, o: Outcomes, c: Comparison, n: Comparison)
    requires WellFormed(p.graph) && IsRecord(p, seen, o) && Reportable(o) && c in o && InDomain(p, c)
    requires Reaches(CutEdges(o), c, n) && IsChange(o, n) && !Holds(o, n)
    ensures OfInterest(p, c)
    decreases Size(o, c)
  {
    hide WellFormed, CompareScript, Same, IsRecord, Reportable, OfInterest, HasChild, HasGone, HasDetail, Holds,
         Reaches, InDomain, IsChange, HoldsChanges, NodesDiffer, LocallySame, Size;
    if n == c {
      HeldOnRecord(p, seen, o, c);
      ChangesAreNodesThatDiffer(p, seen, o, c);
      DifferingNodesAreNotSame(p, c, c);
      OfInterestItself(p, c);
    } else {
      var d := FirstStep(CutEdges(o), c, n);
      SizeFalls(o, c, d);
      HeldOnRecord(p, seen, o, c);
      DetailsOfPair(p, seen, o, c, d);
      if HasChild(p, c, d) && InDomain(p, d) {
        RecordedInterestIsReal(p, seen, o, d, n);
        InterestRises(p, c, d);
      } else {
        DifferingNodesAreNotSame(p, c, d);
        OfInterestItself(p, c);
      }
    }
  }

  lemma DifferingNodesAreNotSame(p: Problem, c: Comparison, d: Comparison)
    requires WellFormed(p.graph)
    ensures NodesDiffer(p, c) || HasGone(p, c, d) ==> !LocallySame(p, c)
  {
    hide CompareScript;
  }

  lemma {:induction false} RealInterestIsRecorded(
      p: Problem, seen: set<Comparison>, o: Outcomes, c: Comparison, n: Comparison)
    requires WellFormed(p.graph) && IsRecord(p, seen, o) && Reportable(o) && c in o && InDomain(p, c)
    requires Reaches(UnheldEdges(p), c, n) && !HoldsChanges(p, n) && !LocallySame(p, n)
    ensures Interesting(o, c, true)
    decreases Size(o, c)
  {
    hide WellFormed, CompareScript, Same, IsRecord, Reportable, Interesting, HasChild, HasDetail, Holds, Reaches,
         InDomain, HoldsChanges, LocallySame, Size;
    HeldOnRecord(p, seen, o, c);
    if n == c {
      OwnDifferenceIsOfInterest(p, seen, o, c);
    } else {
      var d := FirstStep(UnheldEdges(p), c, n);
      assert (c, d) in ComparisonEdges(p);
      assert !HoldsChanges(p, c);
      ReachesMonotone(UnheldEdges(p), ComparisonEdges(p), d, n);
      LocalDifferenceDiffers(p, n);
      DifferenceSpreads(p, d, n);
      DifferencesAreDetails(p, seen, o, c, d);
      SizeFalls(o, c, d);
      RealInterestIsRecorded(p, seen, o, d, n);
      RecordedInterestRises(o, c, d);
    }
  }

  lemma RecordedInterestRises(o: Outcomes, c: Comparison, d: Comparison)
    requires HasDetail(o, c, d) && !Holds(o, c) && Interesting(o, d, true)
    ensures Interesting(o, c, true)
  {
    hide HasDetail, Reaches, Holds;
    var m :| InTree(o, d, true, m) && IsChange(o, m) && !Holds(o, m);
    ReachesStep(CutEdges(o), c, d, m);
    assert InTree(o, c, true, m);
  }

  /** A small report says what is of interest in the comparison graph. */
  lemma InterestAgrees(p: Problem, seen: set<Comparison>, o: Outcomes, c: Comparison)
    requires WellFormed(p.graph) && IsRecord(p, seen, o) && Reportable(o) && c in o && InDomain(p, c)
    ensures Interesting(o, c, true) <==> OfInterest(p, c)
  {
    hide WellFormed, IsRecord, Reportable, Reaches, Holds, HoldsChanges, LocallySame, IsChange;
    if Interesting(o, c, true) {
      var n :| InTree(o, c, true, n) && IsChange(o, n) && !Holds(o, n);
      RecordedInterestIsReal(p, seen, o, c, n);
    }
    if OfInterest(p, c) {
      var n :| Reaches(UnheldEdges(p), c, n) && !HoldsChanges(p, n) && !LocallySame(p, n);
      RealInterestIsRecorded(p, seen, o, c, n);
    }
  }

  lemma NewsAgrees(p: Problem, seen: set<Comparison>, o: Outcomes, h: Comparison)
    requires WellFormed(p.graph) && IsRecord(p, seen, o) && Reportable(o) && h in o && InDomain(p, h) && Holds(o, h)
    ensures Interesting(o, h, false) <==> HasNews(p, h)
  {
    hide WellFormed, CompareScript, Same, IsRecord, Reportable, OfInterest, HasChild, HasGone, HasDetail, InTree,
         Holds, InDomain, IsChange, LocallySame, NodesDiffer;
    HeldOnRecord(p, seen, o, h);
    if Interesting(o, h, false) && LocallySame(p, h) {
      var n :| InTree(o, h, false, n) && IsChange(o, n) && (Holds(o, n) ==> n == h);
      DifferingNodesAreNotSame(p, h, h);
      ChangesAreNodesThatDiffer(p, seen, o, h);
      var d := BelowHead(o, h, n);
      DetailsOfPair(p, seen, o, h, d);
      DifferingNodesAreNotSame(p, h, d);
      assert Interesting(o, d, true);
      InterestAgrees(p, seen, o, d);
    }
    if !LocallySame(p, h) {
      OwnDifferenceIsOfInterest(p, seen, o, h);
    } else if d :| HasChild(p, h, d) && OfInterest(p, d) {
      ChildOfInterest(p, seen, o, h, d);
    }
  }

  lemma ChildOfInterest(p: Problem, seen: set<Comparison>, o: Outcomes, h: Comparison, d: Comparison)
    requires WellFormed(p.graph) && IsRecord(p, seen, o) && Reportable(o) && h in o && InDomain(p, h) && Holds(o, h)
    requires HasChild(p, h, d) && OfInterest(p, d) && h in seen
    ensures Interesting(o, h, false)
  {
    hide WellFormed, CompareScript, Same, IsRecord, Reportable, HasChild, HasDetail, Reaches, Holds, InDomain,
         IsChange, LocallySame, HoldsChanges;
    assert (h, d) in ComparisonEdges(p);
    InterestingDiffers(p, d);
    DifferencesAreDetails(p, seen, o, h, d);
    DetailsOfPair(p, seen, o, h, d);
    InterestAgrees(p, seen, o, d);
    var n :| InTree(o, d, true, n) && IsChange(o, n) && !Holds(o, n);
    assert InTree(o, h, false, n);
  }

  lemma InterestingDiffers(p: Problem, d: Comparison)
    requires WellFormed(p.graph) && OfInterest(p, d)
    ensures !Same(p, d)
  {
    hide HoldsChanges;
    var n :| Reaches(UnheldEdges(p), d, n) && !HoldsChanges(p, n) && !LocallySame(p, n);
    ReachesMonotone(UnheldEdges(p), ComparisonEdges(p), d, n);
  }

  // ---- lines, on record ----

  lemma LastDetail(steps: seq<Step>, omit: set<Comparison>)
    requires steps != []
    ensures var step, before := steps[|steps| - 1], Details(steps[..|steps| - 1], omit);
            Details(steps, omit) ==
            if step.ChildStep? && step.edge in omit then before
            else before + [DetailOf(step)]
  {
  }

  function DetailOf(step: Step): DiffDetail {
    DiffDetail(step.text, if step.NodeStep? then None else Some(step.edge))
  }

  lemma NoDetails(omit: set<Comparison>)
    ensures Details([], omit) == []
  {
  }

  lemma LastCut(o: Outcomes, style: Style, before: seq<DiffDetail>, detail: DiffDetail, lines: seq<Token>)
    returns (cut: nat)
    requires DetailLines(o, style, before + [detail], lines)
    ensures cut <= |lines| && DetailLines(o, style, before, lines[..cut]) && DetailLine(o, style, detail, lines[cut..])
  {
    hide DetailLine;
    assert (before + [detail])[..|before|] == before;
    cut :| cut <= |lines| && DetailLines(o, style, before, lines[..cut]) && DetailLine(o, style, detail, lines[cut..]);
  }

  lemma StepLinesAppend(p: Problem, style: Style, steps: seq<Step>, lines: seq<Token>, line: seq<Token>)
    requires WellFormed(p.graph) && steps != [] && StepLines(p, style, steps[..|steps| - 1], lines)
    requires StepLine(p, style, steps[|steps| - 1], line)
    ensures StepLines(p, style, steps, lines + line)
  {
    hide WellFormed, StepLine;
    assert (lines + line)[..|lines|] == lines && (lines + line)[|lines|..] == line;
  }

  lemma SameHasNoLine(p: Problem, style: Style, step: Step)
    requires WellFormed(p.graph) && step.ChildStep? && Same(p, step.edge)
    ensures StepLine(p, style, step, [])
  {
    hide WellFormed, Same;
  }

  /** A line for what is on record of a step is a line for the step. */
  lemma {:induction false} LineOfStep(
      p: Problem, seen: set<Comparison>, o: Outcomes, style: Style, step: Step, line: seq<Token>)
    requires WellFormed(p.graph) && IsRecord(p, seen, o) && Reportable(o)
    requires step.ChildStep? ==> InDomain(p, step.edge) && step.edge in o && !Same(p, step.edge)
    requires step.GoneStep? ==> !TwoSided(step.edge)
    requires DetailLine(o, style, DetailOf(step), line)
    ensures StepLine(p, style, step, line)
    decreases |line|, 0
  {
    hide WellFormed, Same, IsRecord, Reportable, DetailTail, StepTail, InDomain, Interesting, OfInterest;
    if step.ChildStep? {
      var d := step.edge;
      assert TwoSided(d) by { InDomainIsTwoSided(p, d); }
      InterestAgrees(p, seen, o, d);
      if !(style.format.SMALL? && !OfInterest(p, d)) {
        var tail :| |tail| < |line| && line == style.Lead(step.text) + Headline(d) + tail + style.Trail() &&
          DetailTail(o, d, style.width, style.format, tail);
        TailOfPair(p, seen, o, d, style.width, style.format, tail);
      }
    }
  }

  lemma InDomainIsTwoSided(p: Problem, d: Comparison)
    requires InDomain(p, d)
    ensures TwoSided(d)
  {
  }

  lemma {:induction false} TailOfPair(
      p: Problem, seen: set<Comparison>, o: Outcomes, d: Comparison, width: nat, format: OutputFormat,
      tail: seq<Token>)
    requires WellFormed(p.graph) && IsRecord(p, seen, o) && Reportable(o) && d in o && InDomain(p, d)
    requires DetailTail(o, d, width, format, tail)
    ensures StepTail(p, d, width, format, tail)
    decreases |tail|, 1
  {
    hide WellFormed, Same, IsRecord, Reportable, DetailLines, StepLines, InDomain, Holds, HoldsChanges, CompareScript;
    HeldOnRecord(p, seen, o, d);
    if Holds(o, d) { HoldingHasDetails(p, seen, o, d); }
    if !(Holds(o, d) && (!format.PLAIN? || IsMark(o, d, tail))) {
      LinesOfPair(p, seen, o, d, Inner(width + INDENT_INCREMENT, format), tail[1..]);
    }
  }

  lemma {:induction false} LinesOfPair(
      p: Problem, seen: set<Comparison>, o: Outcomes, c: Comparison, style: Style, lines: seq<Token>)
    requires WellFormed(p.graph) && IsRecord(p, seen, o) && Reportable(o) && c in o && InDomain(p, c)
    requires DetailLines(o, style, o[c].details, lines)
    ensures StepLines(p, style, CompareScript(p, c).steps, lines)
    decreases |lines|, |CompareScript(p, c).steps| + 2
  {
    hide WellFormed, Same, SameSet, IsRecord, Reportable, DetailLines, StepLines, InDomain, CompareScript, HasGone,
         Details;
    HeldOnRecord(p, seen, o, c);
    var steps := CompareScript(p, c).steps;
    assert steps[..|steps|] == steps;
    DetailsOfRecord(p, seen, o, c);
    LinesOfSteps(p, seen, o, c, |steps|, style, lines);
  }

  lemma DetailsOfRecord(p: Problem, seen: set<Comparison>, o: Outcomes, c: Comparison)
    requires WellFormed(p.graph) && IsRecord(p, seen, o) && c in o && InDomain(p, c)
    ensures o[c].details == Details(CompareScript(p, c).steps, SameSet(p))
  {
    hide WellFormed, Same, SameSet, CompareScript, HasGone, Details;
  }

  lemma {:induction false} LinesOfSteps(
      p: Problem, seen: set<Comparison>, o: Outcomes, c: Comparison, n: nat, style: Style, lines: seq<Token>)
    requires WellFormed(p.graph) && IsRecord(p, seen, o) && Reportable(o) && c in seen && c in o && InDomain(p, c)
    requires n <= |CompareScript(p, c).steps|
    requires DetailLines(o, style, Details(CompareScript(p, c).steps[..n], SameSet(p)), lines)
    ensures StepLines(p, style, CompareScript(p, c).steps[..n], lines)
    decreases |lines|, n + 1
  {
    hide WellFormed, Same, SameSet, IsRecord, Reportable, DetailLine, InDomain, Details, StepLine, CompareScript;
    var all := CompareScript(p, c).steps;
    if n == 0 {
      NoDetails(SameSet(p));
    } else {
      var steps, step := all[..n], all[n - 1];
      var before := Details(all[..n - 1], SameSet(p));
      assert steps[..n - 1] == all[..n - 1] && steps[n - 1] == step;
      LastDetail(steps, SameSet(p));
      StepOnRecord(p, seen, o, c, step);
      if step.ChildStep? && step.edge in SameSet(p) {
        LinesOfSteps(p, seen, o, c, n - 1, style, lines);
        SameHasNoLine(p, style, step);
        StepLinesAppend(p, style, steps, lines, []);
        assert lines + [] == lines;
      } else {
        var cut := LastCut(o, style, before, DetailOf(step), lines);
        LinesOfSteps(p, seen, o, c, n - 1, style, lines[..cut]);
        LineOfStep(p, seen, o, style, step, lines[cut..]);
        StepLinesAppend(p, style, steps, lines[..cut], lines[cut..]);
        assert lines[..cut] + lines[cut..] == lines;
      }
    }
  }

  lemma StepOnRecord(p: Problem, seen: set<Comparison>, o: Outcomes, c: Comparison, step: Step)
    requires WellFormed(p.graph) && IsRecord(p, seen, o) && c in seen && c in o && InDomain(p, c)
    requires step in CompareScript(p, c).steps
    ensures step.ChildStep? ==> InDomain(p, step.edge)
    ensures step.ChildStep? && step.edge in SameSet(p) ==> Same(p, step.edge)
    ensures step.ChildStep? && step.edge !in SameSet(p) ==> step.edge in o && !Same(p, step.edge)
    ensures step.GoneStep? ==> !TwoSided(step.edge)
  {
    hide WellFormed, CompareScript, Same, IsRecord;
    if step.ChildStep? {
      assert HasChild(p, c, step.edge);
      assert (c, step.edge) in ComparisonEdges(p);
      if !Same(p, step.edge) {
        DifferencesAreDetails(p, seen, o, c, step.edge);
        DetailsOfPair(p, seen, o, c, step.edge);
      }
    }
    if step.GoneStep? {
      assert HasGone(p, c, step.edge);
      GoneHasOneEnd(p, c, step.edge);
    }
  }

  // ---- reports, on record ----

  /** The pairs that have paragraphs of their own, or are expanded. */
  lemma HeadsAreReported(p: Problem, seen: set<Comparison>, o: Outcomes, root: Comparison, h: Comparison)
    requires WellFormed(p.graph) && IsRecord(p, seen, o) && Reportable(o)
    requires root in seen && root in o && InDomain(p, root)
    ensures IsHead(p, root, h) <==> Holds(o, h) && Reported(o, root, h)
  {
    hide WellFormed, CompareScript, Same, IsRecord, Reportable, HasChild, HasGone, HasDetail, Holds, Reaches, InDomain,
         HoldsChanges;
    if Holds(o, h) && Reported(o, root, h) {
      HeldIsKnown(o, h);
      var d :| HasDetail(o, root, d) && Reaches(DetailEdges(o), d, h);
      DetailsOfPair(p, seen, o, root, d);
      if HasGone(p, root, d) {
        GoneHasOneEnd(p, root, d);
        NothingBelowGone(p, seen, o, d, h);
      } else {
        RecordIsReal(p, seen, o, d, h);
        HeldOnRecord(p, seen, o, h);
      }
    }
    if IsHead(p, root, h) {
      var d :| HasChild(p, root, d) && Reaches(ComparisonEdges(p), d, h);
      assert (root, d) in ComparisonEdges(p);
      DifferenceSpreads(p, d, h);
      DifferencesAreDetails(p, seen, o, root, d);
      DetailsOfPair(p, seen, o, root, d);
      HeldOnRecord(p, seen, o, d);
      DifferenceIsOnRecord(p, seen, o, d, h);
      HeldOnRecord(p, seen, o, h);
    }
  }

  lemma NothingBelowGone(p: Problem, seen: set<Comparison>, o: Outcomes, d: Comparison, h: Comparison)
    requires WellFormed(p.graph) && IsRecord(p, seen, o) && Reportable(o) && !InDomain(p, d)
    requires Reaches(DetailEdges(o), d, h)
    ensures d == h
  {
    hide WellFormed, IsRecord, Reportable, InDomain, HasChild, HasGone;
    if d != h {
      var e := FirstStep(DetailEdges(o), d, h);
      DetailsOfPair(p, seen, o, d, e);
    }
  }

  /** The record leads along the comparison graph. */
  lemma {:induction false} RecordIsReal(
      p: Problem, seen: set<Comparison>, o: Outcomes, c: Comparison, h: Comparison)
    requires WellFormed(p.graph) && IsRecord(p, seen, o) && Reportable(o) && InDomain(p, c)
    requires Reaches(DetailEdges(o), c, h) && TwoSided(h)
    ensures Reaches(ComparisonEdges(p), c, h) && InDomain(p, h)
  {
    hide WellFormed, CompareScript, Same, IsRecord, Reportable, HasChild, HasGone, HasDetail, InDomain;
    var walk :| WalkBetween(DetailEdges(o), c, walk, h);
    WalkIsReal(p, seen, o, walk);
    assert WalkBetween(ComparisonEdges(p), c, walk, h);
  }

  lemma {:induction false} WalkIsReal(p: Problem, seen: set<Comparison>, o: Outcomes, walk: seq<Comparison>)
    requires WellFormed(p.graph) && IsRecord(p, seen, o) && Reportable(o)
    requires IsWalk(DetailEdges(o), walk) && InDomain(p, walk[0]) && TwoSided(walk[|walk| - 1])
    ensures IsWalk(ComparisonEdges(p), walk) && InDomain(p, walk[|walk| - 1])
    decreases |walk|
  {
    hide WellFormed, CompareScript, Same, IsRecord, Reportable, HasChild, HasGone, HasDetail, InDomain, TwoSided;
    if |walk| > 1 {
      var rest := walk[1..];
      assert (walk[0], walk[1]) in DetailEdges(o);
      DetailsOfPair(p, seen, o, walk[0], walk[1]);
      assert rest[|rest| - 1] == walk[|walk| - 1];
      assert IsWalk(DetailEdges(o), rest);
      if HasGone(p, walk[0], walk[1]) && !(HasChild(p, walk[0], walk[1]) && InDomain(p, walk[1])) {
        GoneHasOneEnd(p, walk[0], walk[1]);
        if |rest| > 1 {
          assert (rest[0], rest[1]) in DetailEdges(o);
          DetailsOfPair(p, seen, o, rest[0], rest[1]);
        }
        assert false;
      } else {
        WalkIsReal(p, seen, o, rest);
        assert (walk[0], walk[1]) in ComparisonEdges(p);
        forall k | 0 <= k < |walk| - 1 ensures (walk[k], walk[k + 1]) in ComparisonEdges(p) {
          if k > 0 { assert (rest[k - 1], rest[k]) in ComparisonEdges(p); }
        }
      }
    }
  }

  lemma HeadsOfRecord(p: Problem, seen: set<Comparison>, o: Outcomes, root: Comparison)
    requires WellFormed(p.graph) && IsRecord(p, seen, o) && Reportable(o)
    requires root in seen && root in o && InDomain(p, root)
    ensures var heads := FlatReport.Heads(o, root);
            Distinct(heads) && forall h :: h in heads <==> IsHead(p, root, h)
  {
    hide WellFormed, IsRecord, Reportable, InDomain, Holds, Reported, IsHead, FlatReport.Heads;
    FlatReport.HeadsAreExact(o, root);
    forall h ensures h in FlatReport.Heads(o, root) <==> IsHead(p, root, h) {
      HeadsAreReported(p, seen, o, root, h);
    }
  }

  lemma {:induction false} ParagraphsOfHeads(
      p: Problem, seen: set<Comparison>, o: Outcomes, heads: seq<Comparison>, full: bool)
    requires WellFormed(p.graph) && IsRecord(p, seen, o) && Reportable(o)
    requires forall h :: h in heads ==> Holds(o, h) && InDomain(p, h)
    ensures HeadParagraphs(p, FlatFormat(full), heads, FlatReport.Paragraphs(o, heads, full))
  {
    hide WellFormed, IsRecord, Reportable, InDomain, HeadParagraph, FlatReport.Paragraph, Holds;
    if heads != [] {
      var n := |heads| - 1;
      var h := heads[n];
      var before := FlatReport.Paragraphs(o, heads[..n], full);
      HeldIsKnown(o, h);
      ParagraphsOfHeads(p, seen, o, heads[..n], full);
      ParagraphOfHead(p, seen, o, h, full);
      var text := FlatReport.Paragraphs(o, heads, full);
      assert text == before + FlatReport.Paragraph(o, h, full, false);
      assert text[..|before|] == before && text[|before|..] == FlatReport.Paragraph(o, h, full, false);
    }
  }

  lemma ParagraphOfHead(p: Problem, seen: set<Comparison>, o: Outcomes, h: Comparison, full: bool)
    requires WellFormed(p.graph) && IsRecord(p, seen, o) && Reportable(o)
    requires h in o && Holds(o, h) && InDomain(p, h)
    ensures HeadParagraph(p, FlatFormat(full), h, FlatReport.Paragraph(o, h, full, false))
  {
    hide WellFormed, IsRecord, Reportable, InDomain, FlatReport.Paragraph, HasNews, Interesting, StepLines, DetailLines,
         CompareScript;
    var lines := FlatReport.HeadParagraph(o, h, full);
    LinesOfPair(p, seen, o, h, Inner(INDENT_INCREMENT, FlatFormat(full)), lines);
    NewsAgrees(p, seen, o, h);
  }

  lemma FlatIsAccounted(p: Problem, seen: set<Comparison>, o: Outcomes, root: Comparison, full: bool)
    requires WellFormed(p.graph) && IsRecord(p, seen, o) && Reportable(o)
    requires root in seen && root in o && InDomain(p, root) && FlatReport.AllEdges(o[root].details)
    ensures IsFlat(p, root, FlatFormat(full), FlatReport.Heads(o, root), FlatReport.Report(o, root, full))
  {
    hide WellFormed, IsRecord, Reportable, Holds, Reported, FlatReport.Heads, StepLines, DetailLines,
         FlatReport.Opening, FlatReport.Paragraphs, CompareScript, HeadParagraphs, FlatReport.AllEdges;
    var heads, report := FlatReport.Heads(o, root), FlatReport.Report(o, root, full);
    FlatReport.HeadsAreExact(o, root);
    FlatReport.ReportOpens(o, root, full);
    var opening := FlatReport.Opening(o, root, |o[root].details|, full);
    LinesOfPair(p, seen, o, root, RootStyle(FlatFormat(full)), opening);
    forall h | h in heads ensures InDomain(p, h) { HeadInDomain(p, seen, o, root, h); }
    ParagraphsOfHeads(p, seen, o, heads, full);
    var rest := FlatReport.Paragraphs(o, heads, full);
    assert report == opening + rest && report[..|opening|] == opening && report[|opening|..] == rest;
  }

  lemma HeadInDomain(p: Problem, seen: set<Comparison>, o: Outcomes, root: Comparison, h: Comparison)
    requires WellFormed(p.graph) && IsRecord(p, seen, o) && Reportable(o)
    requires root in seen && root in o && InDomain(p, root) && Holds(o, h) && Reported(o, root, h)
    ensures InDomain(p, h)
  {
    hide WellFormed, IsRecord, Reportable, Holds, Reported, CompareScript, Same;
    HeadsAreReported(p, seen, o, root, h);
  }

  lemma {:induction false} MentionsAmong(held: set<Comparison>, heads: set<Comparison>, text: seq<Token>)
    requires heads <= held && forall c :: c in FlatReport.Mentions(held, text) ==> c in heads
    ensures FlatReport.Mentions(heads, text) == FlatReport.Mentions(held, text)
  {
    if text != [] {
      var n := |text| - 1;
      var before := FlatReport.Mentions(held, text[..n]);
      assert forall c :: c in before ==> c in FlatReport.Mentions(held, text);
      MentionsAmong(held, heads, text[..n]);
      if text[n].Changed? && text[n].comparison in held {
        assert text[n].comparison in FlatReport.Mentions(held, text);
      }
    }
  }

  lemma {:induction false} UniquesKeep(items: seq<Comparison>)
    ensures forall c :: c in FlatReport.Uniques(items) <==> c in items
  {
    if items != [] { UniquesKeep(items[..|items| - 1]); }
  }

  lemma HeadsAreInOrder(p: Problem, seen: set<Comparison>, o: Outcomes, root: Comparison)
    requires WellFormed(p.graph) && IsRecord(p, seen, o) && Reportable(o)
    requires root in seen && root in o && InDomain(p, root) && FlatReport.AllEdges(o[root].details)
    ensures AreHeads(p, root, FlatReport.Heads(o, root))
  {
    hide WellFormed, IsRecord, Reportable, Holds, Reported, FlatReport.Heads, FlatReport.Mentions, FlatReport.Uniques,
         FlatReport.Report, IsFlat, IsHead, FlatReport.AllEdges, InDomain;
    var heads, full := FlatReport.Heads(o, root), FlatReport.Report(o, root, true);
    var held := FlatReport.Holding(o);
    HeadsOfRecord(p, seen, o, root);
    FlatIsAccounted(p, seen, o, root, true);
    FlatReport.HeadsFollowMentions(o, root);
    FlatReport.HeadsAreExact(o, root);
    UniquesKeep(FlatReport.Mentions(held, full));
    forall h | h in heads ensures h in held { HeldIsKnown(o, h); }
    MentionsAmong(held, Elements(heads), full);
  }

  lemma PlainIsAccounted(p: Problem, seen: set<Comparison>, o: Outcomes, root: Comparison)
    requires WellFormed(p.graph) && IsRecord(p, seen, o) && Reportable(o)
    requires root in seen && root in o && InDomain(p, root)
    ensures IsPlain(p, root, PlainReport.Report(o, root).text)
  {
    hide WellFormed, IsRecord, Reportable, Holds, Reported, Told, DetailLines, StepLines, CompareScript, InDomain,
         IsHead, PlainReport.Report, ToldOnce, HoldsChanges;
    PlainReport.ReportIsComplete(o, root);
    LinesOfPair(p, seen, o, root, RootStyle(PLAIN), PlainReport.Report(o, root).text);
    forall h | IsHead(p, root, h) ensures InDomain(p, h) && ToldOnce(p, h, PlainReport.Report(o, root).text) {
      HeadsAreReported(p, seen, o, root, h);
      HeadInDomain(p, seen, o, root, h);
      HeldIsKnown(o, h);
      HoldingHasDetails(p, seen, o, h);
      Marks.MarksAreTrue(o, root, h);
      ToldOnceByRecord(p, seen, o, h, PlainReport.Report(o, root).text);
    }
  }

  lemma ToldOnceByRecord(p: Problem, seen: set<Comparison>, o: Outcomes, h: Comparison, report: seq<Token>)
    requires WellFormed(p.graph) && IsRecord(p, seen, o) && Reportable(o) && h in o && InDomain(p, h)
    requires Marks.ExpandedOnce(o, h, report)
    ensures ToldOnce(p, h, report)
  {
    hide WellFormed, IsRecord, Reportable, DetailLines, StepLines, CompareScript, Marks.Marked;
    var before, width: nat, lines, after :|
      && report == before + ([Token.Changed(h), NewLine] + lines) + after
      && Marks.Expansion(o, h, before, width, lines, after);
    LinesOfPair(p, seen, o, h, Inner(width, PLAIN), lines);
  }
}

/** Comparing two symbol tables and reporting the differences, end to end (stgdiff.cc). */
module Stgdiff {
  import opened Reachability
  import opened Sequences
  import opened Graph
  import opened Diffs
  import opened Scripts
  import opened Verdicts
  import opened Compare
  import Roots = CompareRoots
  import opened DiffGraph
  import opened Sections
  import FlatReport
  import FlatPrinter
  import PlainReport
  import PlainPrinter
  import opened Reporting
  import opened Accounts

  // ---- what reports say, without reference to any record ----

  /** There is a place where the pair has a headline, followed by the lines for its whole script. */
  ghost predicate HasSection(p: Problem, n: Comparison, format: OutputFormat, report: seq<Token>)
    requires WellFormed(p.graph) && InDomain(p, n)
  {
    exists width: nat, lines ::
      && Infix([Token.Changed(n), NewLine] + lines, report)
      && StepLines(p, Inner(width, format), CompareScript(p, n).steps, lines)
  }

  /** Pairs that differ must have a section in a report, in a small one if they differ by themselves: in the
      nodes, or in nodes removed or added. */
  ghost predicate DeservesSection(p: Problem, root: Comparison, format: OutputFormat, n: Comparison)
    requires WellFormed(p.graph)
  {
    && n != root && Reaches(ComparisonEdges(p), root, n) && InDomain(p, n)
    && if format.SMALL? then !LocallySame(p, n) else !Same(p, n)
  }

  /** A report in this format on the comparison of these tables. */
  ghost predicate IsReport(p: Problem, root: Comparison, format: OutputFormat, report: seq<Token>)
    requires WellFormed(p.graph) && InDomain(p, root)
  {
    if format.PLAIN? then IsPlain(p, root, report)
    else exists heads :: AreHeads(p, root, heads) && IsFlat(p, root, format, heads, report)
  }

  ghost predicate SaysAll(p: Problem, root: Comparison, format: OutputFormat, report: seq<Token>)
    requires WellFormed(p.graph) && InDomain(p, root)
  {
    && IsReport(p, root, format, report)
    && forall n :: DeservesSection(p, root, format, n) ==> HasSection(p, n, format, report)
  }

  // ---- from the record ----

  lemma ToldHasSection(
      p: Problem, seen: set<Comparison>, o: Outcomes, n: Comparison, format: OutputFormat, report: seq<Token>)
    requires WellFormed(p.graph) && IsRecord(p, seen, o) && Reportable(o) && n in o && InDomain(p, n)
    requires Told(o, n, format, report)
    ensures HasSection(p, n, format, report)
  {
    hide WellFormed, CompareScript, IsRecord, Reportable, DetailLines, StepLines, Infix;
    var width: nat, lines :|
      Infix(Headline(n) + [NewLine] + lines, report) && DetailLines(o, Inner(width, format), o[n].details, lines);
    LinesOfPair(p, seen, o, n, Inner(width, format), lines);
    assert Headline(n) + [NewLine] + lines == [Token.Changed(n), NewLine] + lines;
  }

  lemma SectionOf(
      p: Problem, seen: set<Comparison>, o: Outcomes, root: Comparison, format: OutputFormat, n: Comparison)
    requires WellFormed(p.graph) && IsRecord(p, seen, o) && Reportable(o) && root in seen && root in o
    requires FlatReport.AllEdges(o[root].details) && InDomain(p, root) && DeservesSection(p, root, format, n)
    ensures HasSection(p, n, format, ReportText(o, root, format))
  {
    hide WellFormed, CompareScript, Same, IsRecord, Reportable, LocallySame, Interesting, Told, HasSection, InDomain;
    if format.SMALL? { LocalDifferenceDiffers(p, n); }
    DifferenceIsOnRecord(p, seen, o, root, n);
    var d := FirstStep(DetailEdges(o), root, n);
    assert Reported(o, root, n);
    match format {
      case PLAIN =>
        PlainReport.ReportIsComplete(o, root);
      case FLAT =>
        var at := FlatReport.ReportLosesNothing(o, root, true, n);
      case SMALL =>
        OwnDifferenceIsOfInterest(p, seen, o, n);
        var at := FlatReport.ReportLosesNothing(o, root, false, n);
    }
    ToldHasSection(p, seen, o, n, format, ReportText(o, root, format));
  }

  lemma ReportIsAccounted(p: Problem, seen: set<Comparison>, o: Outcomes, root: Comparison, format: OutputFormat)
    requires WellFormed(p.graph) && IsRecord(p, seen, o) && Reportable(o) && root in seen && root in o
    requires FlatReport.AllEdges(o[root].details) && InDomain(p, root)
    ensures IsReport(p, root, format, ReportText(o, root, format))
  {
    hide WellFormed, IsRecord, Reportable, InDomain, AreHeads, IsFlat, IsPlain, FlatReport.Heads, FlatReport.Report,
         PlainReport.Report;
    if format.PLAIN? {
      PlainIsAccounted(p, seen, o, root);
    } else {
      HeadsAreInOrder(p, seen, o, root);
      FlatIsAccounted(p, seen, o, root, format.FLAT?);
    }
  }

  lemma ReportIsNotEmpty(p: Problem, seen: set<Comparison>, o: Outcomes, root: Comparison, format: OutputFormat)
    requires WellFormed(p.graph) && IsRecord(p, seen, o) && Reportable(o) && root in seen && root in o
    requires AreTables(p, root) && !Same(p, root) && FlatReport.AllEdges(o[root].details)
    ensures ReportText(o, root, format) != []
  {
    hide WellFormed, CompareScript, Same, IsRecord, Reportable, IsDifference, IsChange, Interesting, Infix, DetailLines;
    UnequalHasDifference(p, root);
    var n :| IsDifference(p, root, n);
    TablesDiffer(p, seen, o, root);
    DifferencesAreReported(p, seen, o, root, n);
    match format {
      case PLAIN =>
        PlainReport.ReportIsComplete(o, root);
        ToldIsNotEmpty(o, n, format, ReportText(o, root, format));
      case FLAT =>
        var at := FlatReport.ReportLosesNothing(o, root, true, n);
        ToldIsNotEmpty(o, n, format, ReportText(o, root, format));
      case SMALL =>
        FlatReport.ReportIsEmptyIffNoChange(o, root);
    }
  }

  lemma ToldIsNotEmpty(o: Outcomes, n: Comparison, format: OutputFormat, text: seq<Token>)
    requires Told(o, n, format, text)
    ensures text != []
  {
    hide DetailLines;
  }

  /** The comparison of the roots ends with a record that can be reported. */
  lemma RecordIsFinished(p: Problem, seen: set<Comparison>, o: Outcomes, root: Comparison)
    requires WellFormed(p.graph) && InDomain(p, root) && AreOutcomes(p, seen, o)
    requires seen == ReachSet(ComparisonEdges(p), root)
    ensures IsRecord(p, seen, o) && root in seen && (root in o <==> !Same(p, root))
  {
    hide CompareScript, Same, HasChild, AreOutcomes;
    ReachesSelf(ComparisonEdges(p), root);
    forall c | c in seen ensures c in Domain(p) {
      ReachedInDomain(p, root, c);
    }
    forall a, b | a in seen && (a, b) in ComparisonEdges(p) ensures b in seen {
      ReachesByEdge(ComparisonEdges(p), a, b);
      ReachesTrans(ComparisonEdges(p), root, a, b);
    }
    PairOutcomeSeen(p, seen, o, root);
  }

  /** The text of a report. */
  ghost function ReportText(o: Outcomes, root: Comparison, format: OutputFormat): seq<Token>
    requires Reportable(o) && root in o && FlatReport.AllEdges(o[root].details)
  {
    match format
    case PLAIN => PlainReport.Report(o, root).text
    case FLAT => FlatReport.Report(o, root, true)
    case SMALL => FlatReport.Report(o, root, false)
  }

  method Report(o: Outcomes, root: Comparison, format: OutputFormat) returns (output: seq<Token>)
    requires Reportable(o) && root in o && FlatReport.AllEdges(o[root].details)
    ensures output == ReportText(o, root, format)
  {
    hide Reportable, PlainReport.Report, FlatReport.Report;
    ghost var printed;
    match format
    case PLAIN => output, printed := PlainPrinter.ReportPlain(o, root);
    case FLAT => output, printed := FlatPrinter.ReportFlat(o, root, true);
    case SMALL => output, printed := FlatPrinter.ReportFlat(o, root, false);
  }

  lemma ReportSaysAll(p: Problem, seen: set<Comparison>, o: Outcomes, root: Comparison)
    requires WellFormed(p.graph) && CyclesBroken(p.graph) && IsRecord(p, seen, o)
    requires root in seen && root in o && AreTables(p, root) && !Same(p, root)
    ensures Reportable(o) && FlatReport.AllEdges(o[root].details)
    ensures forall format: OutputFormat ::
              SaysAll(p, root, format, ReportText(o, root, format)) && ReportText(o, root, format) != []
  {
    hide WellFormed, CyclesBroken, CompareScript, Same, IsRecord, Reportable, DeservesSection, HasSection,
         IsReport, ReportText;
    OutcomesReportable(p, seen, o);
    TablesDiffer(p, seen, o, root);
    forall format: OutputFormat
      ensures SaysAll(p, root, format, ReportText(o, root, format)) && ReportText(o, root, format) != []
    {
      ReportIsAccounted(p, seen, o, root, format);
      ReportIsNotEmpty(p, seen, o, root, format);
      forall n | DeservesSection(p, root, format, n)
        ensures InDomain(p, n) && HasSection(p, n, format, ReportText(o, root, format))
      {
        assert InDomain(p, n) by { DeservesInDomain(p, root, format, n); }
        SectionOf(p, seen, o, root, format, n);
      }
    }
  }

  lemma DeservesInDomain(p: Problem, root: Comparison, format: OutputFormat, n: Comparison)
    requires WellFormed(p.graph) && DeservesSection(p, root, format, n)
    ensures InDomain(p, n)
  {
  }

  /** Compares two symbol tables, and writes a report in each of the formats. */
  method Diff(graph: Graph, options: CompareOptions, root1: Id, root2: Id, formats: seq<OutputFormat>)
    returns (equals: bool, outputs: seq<seq<Token>>)
    requires WellFormed(graph) && CyclesBroken(graph)
    requires root1 in graph && root2 in graph && graph[root1].Symbols? && graph[root2].Symbols?
    // equality is sameness, and no output is empty unless the tables are the same
    ensures equals <==> Same(Problem(graph, options), Pair(root1, root2))
    ensures |outputs| == |formats| && forall k :: 0 <= k < |outputs| ==> (outputs[k] == [] <==> equals)
    // otherwise every output is a report in its format, and gives the whole script of every pair that differs
    ensures !equals ==>
              forall k :: 0 <= k < |outputs| ==>
                SaysAll(Problem(graph, options), Pair(root1, root2), formats[k], outputs[k])
  {
    hide WellFormed, CyclesBroken, Same, IsRecord, AreOutcomes, Reportable, SaysAll, CompareScript, State.Valid,
         Distinct, ReportText;
    ghost var p, root := Problem(graph, options), Pair(root1, root2);
    var state := new State(graph, options);
    var comparison;
    equals, comparison := Roots.CompareRoots(state, root1, root2);
    assert state.scc.Empty();
    var outcomes := state.outcomes;
    RecordIsFinished(p, state.known.Keys, outcomes, root);
    if !equals {
      ReportSaysAll(p, state.known.Keys, outcomes, root);
    }
    outputs := [];
    for k := 0 to |formats|
      invariant |outputs| == k && forall i :: 0 <= i < k ==> (outputs[i] == [] <==> equals)
      invariant !equals ==> forall i :: 0 <= i < k ==> SaysAll(p, root, formats[i], outputs[i])
    {
      var output := [];
      if comparison.Some? {
        output := Report(outcomes, comparison.value, formats[k]);
      }
      outputs := outputs + [output];
    }
  }
}

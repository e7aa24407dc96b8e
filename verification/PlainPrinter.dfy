/** The plain printer of reporting.cc, proved to produce the report that module PlainReport describes. */
module PlainPrinter {
  import opened Wrappers
  import opened Diffs
  import opened DiffGraph
  import opened FlatPrinter
  import opened PlainReport

  /** The printer's record agrees with what is going on: a pair is started while it is being printed and
      finished afterwards. */
  ghost predicate Agrees(seen: map<Comparison, bool>, stack: seq<Comparison>, expanded: seq<Comparison>) {
    && (forall c :: c in seen <==> c in expanded)
    && (forall c :: c in stack ==> c in seen)
    && (forall c :: c in seen ==> (seen[c] <==> c !in stack))
  }

  lemma StartAgrees(seen: map<Comparison, bool>, stack: seq<Comparison>, expanded: seq<Comparison>, c: Comparison)
    requires Agrees(seen, stack, expanded) && c !in seen
    ensures Agrees(seen[c := false], stack + [c], expanded + [c])
  {
  }

  lemma FinishAgrees(seen: map<Comparison, bool>, stack: seq<Comparison>, expanded: seq<Comparison>, c: Comparison)
    requires Agrees(seen, stack + [c], expanded) && c !in stack
    ensures Agrees(seen[c := true], stack, expanded)
  {
  }

  class Printer {
    const outcomes: Outcomes
    // false while a pair is on the stack, true once it is off again
    var seen: map<Comparison, bool>
    ghost var stack: seq<Comparison>
    ghost var expanded: seq<Comparison>

    ghost predicate Valid()
      reads this
    {
      Reportable(outcomes) && Agrees(seen, stack, expanded)
    }

    constructor (outcomes: Outcomes)
      requires Reportable(outcomes)
      ensures Valid() && this.outcomes == outcomes && stack == [] && expanded == []
    {
      this.outcomes := outcomes;
      seen, stack, expanded := map[], [], [];
    }

    method Print(comparison: Comparison, indent: nat) returns (os: seq<Token>)
      requires Valid() && comparison in outcomes
      modifies this
      ensures Valid() && stack == old(stack)
      ensures Plain(os, expanded) == PlainTree(outcomes, comparison, stack, old(expanded), indent)
      decreases Unexpanded(outcomes, expanded), 0, Size(outcomes, comparison), 1
    {
      hide Reportable, Agrees, PlainDetails;
      OneSidedHasNoDetails(outcomes, comparison);
      var done;
      done, os := PrintComparison(comparison);
      if done {
        return;
      }
      var diff := outcomes[comparison];
      var holdsChanges := diff.holdsChanges;
      AgreesHere(seen, stack, expanded, comparison);
      if holdsChanges {
        if comparison in seen {
          if !seen[comparison] {
            os := os + [BeingReported, NewLine];
          } else if diff.details != [] {
            os := os + [AlreadyReported, NewLine];
          }
          return;
        }
        StartAgrees(seen, stack, expanded, comparison);
        BegunFalls(outcomes, comparison, expanded);
        seen := seen[comparison := false];
        stack, expanded := stack + [comparison], expanded + [comparison];
      }
      os := os + [NewLine];
      var details := PrintDetails(comparison, indent + INDENT_INCREMENT);
      os := os + details;
      if holdsChanges {
        FinishAgrees(seen, old(stack), expanded, comparison);
        seen := seen[comparison := true];
        stack := old(stack);
      }
    }

    method PrintDetails(comparison: Comparison, indent: nat) returns (os: seq<Token>)
      requires Valid() && comparison in outcomes
      modifies this
      ensures Valid() && stack == old(stack)
      ensures Plain(os, expanded) ==
              PlainDetails(outcomes, comparison, |outcomes[comparison].details|, stack, old(expanded), indent)
      decreases Unexpanded(outcomes, expanded), if Holds(outcomes, comparison) then 1 else 0,
                Size(outcomes, comparison), 0
    {
      hide Reportable, Agrees, PlainTree, Holds, Size, Unexpanded;
      var details := outcomes[comparison].details;
      os := [];
      for k := 0 to |details|
        invariant Valid() && stack == old(stack) && old(expanded) <= expanded
        invariant Plain(os, expanded) == PlainDetails(outcomes, comparison, k, stack, old(expanded), indent)
      {
        var detail := details[k];
        var line := [Indent(indent), Wording(detail.text)];
        if detail.edge == None {
          line := line + [NewLine];
        } else {
          assert HasDetail(outcomes, comparison, detail.edge.value);
          SizeFalls(outcomes, comparison, detail.edge.value);
          ExpandedNoRise(outcomes, old(expanded), expanded);
          var tree := Print(detail.edge.value, indent);
          line := line + tree;
        }
        if indent == 0 {
          line := line + [NewLine];
        }
        os := os + line;
      }
    }
  }

  lemma AgreesHere(seen: map<Comparison, bool>, stack: seq<Comparison>, expanded: seq<Comparison>, c: Comparison)
    requires Agrees(seen, stack, expanded)
    ensures c in seen <==> c in expanded
    ensures c in seen ==> (seen[c] <==> c !in stack)
    ensures c in stack ==> c in seen
  {
  }

  /** Prints the details of the root, but not the root itself. */
  method ReportPlain(outcomes: Outcomes, comparison: Comparison)
    returns (output: seq<Token>, ghost expanded: seq<Comparison>)
    requires Reportable(outcomes) && comparison in outcomes
    ensures output == PlainReport.Report(outcomes, comparison).text
    ensures expanded == PlainReport.Report(outcomes, comparison).expanded
  {
    var printer := new Printer(outcomes);
    output := printer.PrintDetails(comparison, 0);
    expanded := printer.expanded;
  }
}

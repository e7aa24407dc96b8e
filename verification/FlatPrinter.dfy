/** The flat printer of reporting.cc, proved to produce the report that module FlatReport describes. */
module FlatPrinter {
  import opened Wrappers
  import opened Diffs
  import opened DiffGraph
  import opened FlatReport

  /** Prints what there is to say of the pair itself, and whether that is all. */
  method PrintComparison(comparison: Comparison) returns (done: bool, tokens: seq<Token>)
    requires comparison.first.Some? || comparison.second.Some?
    ensures done == !TwoSided(comparison) && tokens == Headline(comparison)
  {
    var id1, id2 := comparison.first, comparison.second;
    if id2 == None {
      return true, [Token.Removed(id1.value), NewLine];
    }
    if id1 == None {
      return true, [Token.Added(id2.value), NewLine];
    }
    return false, [Token.Changed(comparison)];
  }

  class Printer {
    const outcomes: Outcomes
    var seen: set<Comparison>
    var todo: seq<Comparison>

    ghost function Worklist(): Queue
      reads this
    {
      Queue(seen, todo)
    }

    constructor (outcomes: Outcomes)
      ensures this.outcomes == outcomes && Worklist() == Queue({}, [])
    {
      this.outcomes := outcomes;
      seen, todo := {}, [];
    }

    /** Prints the tree of a pair, and puts the pairs that hold changes on the list. Returns whether the
        tree was interesting. */
    method FlatPrint(comparison: Comparison, full: bool, stop: bool, indent: nat)
      returns (interesting: bool, os: seq<Token>)
      requires Reportable(outcomes) && Starts(outcomes, comparison, stop)
      modifies this
      ensures interesting <==> Interesting(outcomes, comparison, stop)
      ensures os == Layout(outcomes, comparison, full, stop, indent)
      ensures Worklist() == Pushed(old(Worklist()), Frontier(outcomes, comparison, stop))
      decreases if Holds(outcomes, comparison) && !stop then 1 else 0, Size(outcomes, comparison), 1
    {
      hide Reportable, Interesting;
      OneSidedHasNoDetails(outcomes, comparison);
      InterestingStep(outcomes, comparison, stop);
      var done;
      done, os := PrintComparison(comparison);
      if done {
        return true, os;
      }
      var diff := outcomes[comparison];
      os := os + [NewLine];
      // the frontier: what holds changes and is not the root of this tree
      if diff.holdsChanges && stop {
        if comparison !in seen {
          seen := seen + {comparison};
          todo := todo + [comparison];
        }
        return false, os;
      }
      var more;
      interesting, more := PrintDetails(comparison, full, indent + INDENT_INCREMENT);
      os := os + more;
    }

    /** Prints the details of a pair. */
    method PrintDetails(comparison: Comparison, full: bool, indent: nat) returns (interesting: bool, os: seq<Token>)
      requires Reportable(outcomes) && comparison in outcomes
      modifies this
      ensures interesting <==> InterestingUpTo(outcomes, comparison, |outcomes[comparison].details|)
      ensures os == DetailsLayout(outcomes, comparison, |outcomes[comparison].details|, full, indent)
      ensures Worklist() == Pushed(old(Worklist()),
                                   DetailsFrontier(outcomes, comparison, |outcomes[comparison].details|))
      decreases if Holds(outcomes, comparison) then 1 else 0, Size(outcomes, comparison), 0
    {
      hide Reportable, Interesting, Layout, Frontier, Size, Holds;
      var diff := outcomes[comparison];
      interesting, os := diff.hasChanges, [];
      for k := 0 to |diff.details|
        invariant interesting <==> InterestingUpTo(outcomes, comparison, k)
        invariant os == DetailsLayout(outcomes, comparison, k, full, indent)
        invariant Worklist() == Pushed(old(Worklist()), DetailsFrontier(outcomes, comparison, k))
      {
        var detail := diff.details[k];
        if detail.edge == None {
          os := os + [Indent(indent), Wording(detail.text), NewLine];
          assert DetailsFrontier(outcomes, comparison, k + 1) == DetailsFrontier(outcomes, comparison, k);
        } else {
          assert HasDetail(outcomes, comparison, detail.edge.value);
          SizeFalls(outcomes, comparison, detail.edge.value);
          PushedTwice(old(Worklist()), DetailsFrontier(outcomes, comparison, k),
                      Frontier(outcomes, detail.edge.value, true));
          var subOs := [Indent(indent), Wording(detail.text)];
          // the tree below is cut at the frontier
          var subInteresting, tree := FlatPrint(detail.edge.value, full, true, indent);
          subOs := subOs + tree;
          if subInteresting || full {
            os := os + subOs;
          }
          interesting := interesting || subInteresting;
        }
      }
    }

    /** Prints the trees of the root's details. */
    method PrintForest(comparison: Comparison, full: bool) returns (output: seq<Token>)
      requires Reportable(outcomes) && comparison in outcomes && AllEdges(outcomes[comparison].details)
      requires Worklist() == Queue({}, [])
      modifies this
      ensures output == Opening(outcomes, comparison, |outcomes[comparison].details|, full)
      ensures Worklist() == FirstQueue(outcomes, comparison)
    {
      hide Reportable, Interesting, Layout, Frontier, Size, Holds, Pushed, TwoSided;
      var diff := outcomes[comparison];
      output := [];
      PushedNothing(Queue({}, []));
      for k := 0 to |diff.details|
        invariant output == Opening(outcomes, comparison, k, full)
        invariant Worklist() == Pushed(Queue({}, []), DetailsFrontier(outcomes, comparison, k))
      {
        var edge := diff.details[k].edge.value;
        assert HasDetail(outcomes, comparison, edge);
        SizeFalls(outcomes, comparison, edge);
        PushedTwice(Queue({}, []), DetailsFrontier(outcomes, comparison, k), Frontier(outcomes, edge, true));
        var interesting, os := FlatPrint(edge, full, true, 0);
        if interesting || full {
          output := output + (os + [NewLine]);
        }
      }
    }

    /** Prints all that is on the list, and all that is put there on the way. */
    method WorkOff(full: bool) returns (output: seq<Token>, ghost printed: seq<Comparison>)
      requires Reportable(outcomes) && Sound(outcomes, Worklist())
      modifies this
      ensures printed == Schedule(outcomes, old(Worklist())) && todo == []
      ensures forall c :: c in printed ==> Holds(outcomes, c)
      ensures output == Paragraphs(outcomes, printed, full)
    {
      hide Reportable, Interesting, Layout, Frontier, Size, Holds, Pushed, TwoSided, Sound, Popped, Paragraphs,
           Schedule, Unseen;
      output, printed := [], [];
      NoParagraphsYet(outcomes, full);
      ghost var all := Schedule(outcomes, Worklist());
      while todo != []
        invariant Sound(outcomes, Worklist())
        invariant printed + Schedule(outcomes, Worklist()) == all
        invariant forall c :: c in printed ==> Holds(outcomes, c)
        invariant output == Paragraphs(outcomes, printed, full)
        decreases Unseen(outcomes, Worklist()), |todo|
      {
        ghost var q := Worklist();
        PoppedSound(outcomes, q);
        PoppedIs(outcomes, q);
        ScheduleStep(outcomes, q);
        ghost var rest := Schedule(outcomes, Popped(outcomes, q));
        assert printed + ([todo[0]] + rest) == printed + [todo[0]] + rest;
        var comp := todo[0];
        todo := todo[1..];
        HeldIsKnown(outcomes, comp);
        var interesting, os := FlatPrint(comp, full, false, 0);
        assert Worklist() == Popped(outcomes, q);
        ParagraphsAppend(outcomes, printed, comp, full);
        if interesting || full {
          output := output + (os + [NewLine]);
        }
        printed := printed + [comp];
      }
      ScheduleStep(outcomes, Worklist());
    }
  }

  lemma PushedNothing(q: Queue)
    ensures Pushed(q, []) == q
  {
  }

  lemma NoParagraphsYet(o: Outcomes, full: bool)
    requires Reportable(o)
    ensures Paragraphs(o, [], full) == []
  {
  }

  lemma ParagraphsAppend(o: Outcomes, heads: seq<Comparison>, c: Comparison, full: bool)
    requires Reportable(o) && c in o && Holds(o, c) && forall h :: h in heads ==> Holds(o, h)
    ensures Paragraphs(o, heads + [c], full) == Paragraphs(o, heads, full) + Paragraph(o, c, full, false)
  {
  }

  /** Prints the symbol diff forest, and then all that was put on the list on the way. */
  method ReportFlat(outcomes: Outcomes, comparison: Comparison, full: bool)
    returns (output: seq<Token>, ghost printed: seq<Comparison>)
    requires Reportable(outcomes) && comparison in outcomes && AllEdges(outcomes[comparison].details)
    ensures output == Report(outcomes, comparison, full)
    // the trees are printed in the same order whether the report is full or not
    ensures printed == Heads(outcomes, comparison)
  {
    hide Reportable, Schedule, DetailsFrontier, Holds;
    var printer := new Printer(outcomes);
    FirstQueueSound(outcomes, comparison);
    output := printer.PrintForest(comparison, full);
    var rest;
    rest, printed := printer.WorkOff(full);
    output := output + rest;
  }
}

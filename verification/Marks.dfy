/** The marks of the plain report (reporting.cc): where the text of a report says that a pair is being
    reported, and where that it was reported already. */
module Marks {
  import opened Diffs
  import opened DiffGraph
  import opened Sections
  import opened PlainReport

  /** Wherever the pair is mentioned, this mark comes next. */
  ghost predicate Marked(c: Comparison, text: seq<Token>, mark: Token) {
    forall q :: 0 <= q < |text| && text[q] == Token.Changed(c) ==> q + 1 < |text| && text[q + 1] == mark
  }

  /** The pair is not mentioned before the place where all its details are printed. Within them it is marked as
      being reported, and after them as already reported. */
  ghost predicate ExpandedOnce(o: Outcomes, c: Comparison, text: seq<Token>) {
    exists before, width: nat, lines, after ::
      text == before + ([Token.Changed(c), NewLine] + lines) + after && Expansion(o, c, before, width, lines, after)
  }

  ghost predicate Expansion(
      o: Outcomes, c: Comparison, before: seq<Token>, width: nat, lines: seq<Token>, after: seq<Token>) {
    && c in o && DetailLines(o, Inner(width, PLAIN), o[c].details, lines)
    && Token.Changed(c) !in before && Marked(c, lines, BeingReported) && Marked(c, after, AlreadyReported)
  }

  // ---- how far the report has got with a pair ----

  datatype Phase = NEW | OPEN | DONE

  function PhaseOf(c: Comparison, stack: seq<Comparison>, expanded: seq<Comparison>): Phase {
    if c in stack then OPEN else if c in expanded then DONE else NEW
  }

  /** What a piece of text says of the pair, if the report gets so far with it. */
  ghost predicate Passes(o: Outcomes, c: Comparison, text: seq<Token>, from: Phase, to: Phase) {
    match from
    case NEW => if to.NEW? then Token.Changed(c) !in text else to.DONE? && ExpandedOnce(o, c, text)
    case OPEN => to.OPEN? && Marked(c, text, BeingReported)
    case DONE => to.DONE? && Marked(c, text, AlreadyReported)
  }

  lemma MarkedSum(c: Comparison, text1: seq<Token>, text2: seq<Token>, mark: Token)
    requires Marked(c, text1, mark) && Marked(c, text2, mark)
    ensures Marked(c, text1 + text2, mark)
  {
    var text := text1 + text2;
    forall q | 0 <= q < |text| && text[q] == Token.Changed(c) ensures q + 1 < |text| && text[q + 1] == mark {
      if q < |text1| {
        assert text1[q] == Token.Changed(c);
      } else {
        assert text2[q - |text1|] == Token.Changed(c) && text2[q - |text1| + 1] == text[q + 1];
      }
    }
  }

  lemma ExpandedLater(o: Outcomes, c: Comparison, text1: seq<Token>, text2: seq<Token>)
    requires Token.Changed(c) !in text1 && ExpandedOnce(o, c, text2)
    ensures ExpandedOnce(o, c, text1 + text2)
  {
    hide DetailLines, Marked;
    var before, width: nat, lines, after :|
      text2 == before + ([Token.Changed(c), NewLine] + lines) + after && Expansion(o, c, before, width, lines, after);
    assert Expansion(o, c, text1 + before, width, lines, after);
    assert text1 + text2 == (text1 + before) + ([Token.Changed(c), NewLine] + lines) + after;
  }

  lemma ExpandedBefore(o: Outcomes, c: Comparison, text1: seq<Token>, text2: seq<Token>)
    requires ExpandedOnce(o, c, text1) && Marked(c, text2, AlreadyReported)
    ensures ExpandedOnce(o, c, text1 + text2)
  {
    hide DetailLines, Marked;
    var before, width: nat, lines, after :|
      text1 == before + ([Token.Changed(c), NewLine] + lines) + after && Expansion(o, c, before, width, lines, after);
    MarkedSum(c, after, text2, AlreadyReported);
    assert Expansion(o, c, before, width, lines, after + text2);
    assert text1 + text2 == before + ([Token.Changed(c), NewLine] + lines) + (after + text2);
  }

  lemma PassesOn(o: Outcomes, c: Comparison, text1: seq<Token>, text2: seq<Token>, from: Phase, via: Phase, to: Phase)
    requires Passes(o, c, text1, from, via) && Passes(o, c, text2, via, to)
    ensures Passes(o, c, text1 + text2, from, to)
  {
    hide ExpandedOnce, Marked;
    match from {
      case NEW =>
        if via.NEW? && to.DONE? {
          ExpandedLater(o, c, text1, text2);
        } else if via.DONE? {
          ExpandedBefore(o, c, text1, text2);
        }
      case OPEN => MarkedSum(c, text1, text2, BeingReported);
      case DONE => MarkedSum(c, text1, text2, AlreadyReported);
    }
  }

  lemma Unmentioned(o: Outcomes, c: Comparison, text: seq<Token>, phase: Phase)
    requires Token.Changed(c) !in text
    ensures Passes(o, c, text, phase, phase)
  {
  }

  // ---- a tree ----

  lemma {:induction false} TreePasses(
      o: Outcomes, c: Comparison, d: Comparison, stack: seq<Comparison>, expanded: seq<Comparison>, indent: nat)
    requires Reportable(o) && d in o && Holds(o, c) && o[c].details != []
    ensures var r := PlainTree(o, d, stack, expanded, indent);
            Passes(o, c, r.text, PhaseOf(c, stack, expanded), PhaseOf(c, stack, r.expanded))
    decreases Unexpanded(o, expanded), 0, Size(o, d), 1, 0
  {
    hide Reportable, PlainDetails, Passes, PhaseOf, Holds;
    var phase := PhaseOf(c, stack, expanded);
    OneSidedHasNoDetails(o, d);
    HeldIsKnown(o, c);
    if !TwoSided(d) {
      Unmentioned(o, c, Headline(d), phase);
    } else if Holds(o, d) && (d in stack || d in expanded) {
      MarkPasses(o, c, d, stack, expanded, indent);
    } else {
      var inner, begun := Inside(o, d, stack), Begun(o, d, expanded);
      BegunFalls(o, d, expanded);
      DetailsPass(o, c, d, |o[d].details|, inner, begun, indent + INDENT_INCREMENT);
      var details := PlainDetails(o, d, |o[d].details|, inner, begun, indent + INDENT_INCREMENT);
      if d == c {
        PlainDetailsLines(o, c, |o[c].details|, inner, begun, indent + INDENT_INCREMENT);
        assert o[c].details[..|o[c].details|] == o[c].details;
        OwnTreePasses(o, c, stack, expanded, indent + INDENT_INCREMENT, details);
      } else {
        OtherPhase(o, c, d, stack, expanded, details.expanded);
        Unmentioned(o, c, Headline(d) + [NewLine], phase);
        PassesOn(o, c, Headline(d) + [NewLine], details.text, phase, phase, PhaseOf(c, stack, details.expanded));
      }
    }
  }

  /** A pair that is printed elsewhere. */
  lemma MarkPasses(
      o: Outcomes, c: Comparison, d: Comparison, stack: seq<Comparison>, expanded: seq<Comparison>, indent: nat)
    requires Reportable(o) && d in o && Holds(o, c) && o[c].details != []
    requires Holds(o, d) && (d in stack || d in expanded)
    ensures var r := PlainTree(o, d, stack, expanded, indent);
            Passes(o, c, r.text, PhaseOf(c, stack, expanded), PhaseOf(c, stack, r.expanded))
  {
    hide Reportable, PlainDetails, ExpandedOnce;
  }

  lemma OtherPhase(
      o: Outcomes, c: Comparison, d: Comparison, stack: seq<Comparison>, expanded: seq<Comparison>,
      more: seq<Comparison>)
    requires c != d
    ensures PhaseOf(c, Inside(o, d, stack), Begun(o, d, expanded)) == PhaseOf(c, stack, expanded)
    ensures PhaseOf(c, Inside(o, d, stack), more) == PhaseOf(c, stack, more)
  {
  }

  lemma OwnTreePasses(
      o: Outcomes, c: Comparison, stack: seq<Comparison>, expanded: seq<Comparison>, width: nat, details: Plain)
    requires Holds(o, c) && c !in stack && c !in expanded && Begun(o, c, expanded) <= details.expanded
    requires DetailLines(o, PlainStyle(width), o[c].details, details.text) && width > 0
    requires Passes(o, c, details.text, PhaseOf(c, Inside(o, c, stack), Begun(o, c, expanded)),
                    PhaseOf(c, Inside(o, c, stack), details.expanded))
    ensures Passes(o, c, Headline(c) + [NewLine] + details.text, PhaseOf(c, stack, expanded),
                   PhaseOf(c, stack, details.expanded))
  {
    hide DetailLines, Marked;
    BegunHolds(o, c, [], expanded, details.expanded);
    assert Inner(width, PLAIN) == PlainStyle(width);
    assert Marked(c, [], AlreadyReported) by { NothingMarked(c); }
    if Passes(o, c, details.text, OPEN, OPEN) { assert Expansion(o, c, [], width, details.text, []); }
    assert Headline(c) + [NewLine] + details.text == [] + ([Token.Changed(c), NewLine] + details.text) + [];
  }

  lemma NothingMarked(c: Comparison)
    ensures Marked(c, [], AlreadyReported)
  {
  }

  lemma {:induction false} DetailsPass(
      o: Outcomes, c: Comparison, d: Comparison, n: nat, stack: seq<Comparison>, expanded: seq<Comparison>,
      indent: nat)
    requires Reportable(o) && d in o && n <= |o[d].details| && Holds(o, c) && o[c].details != []
    ensures var r := PlainDetails(o, d, n, stack, expanded, indent);
            Passes(o, c, r.text, PhaseOf(c, stack, expanded), PhaseOf(c, stack, r.expanded))
    decreases Unexpanded(o, expanded), if Holds(o, d) then 1 else 0, Size(o, d), 0, n
  {
    hide Reportable, PlainTree, Passes, PhaseOf, Holds;
    var from := PhaseOf(c, stack, expanded);
    if n == 0 {
      Unmentioned(o, c, [], from);
    } else {
      var before := PlainDetails(o, d, n - 1, stack, expanded, indent);
      var detail := o[d].details[n - 1];
      var via := PhaseOf(c, stack, before.expanded);
      var start, spacing := [Indent(indent), Wording(detail.text)], if indent == 0 then [NewLine] else [];
      DetailsPass(o, c, d, n - 1, stack, expanded, indent);
      Unmentioned(o, c, start, via);
      if detail.edge.Some? {
        var e := detail.edge.value;
        assert HasDetail(o, d, e);
        SizeFalls(o, d, e);
        ExpandedNoRise(o, expanded, before.expanded);
        var tree := PlainTree(o, e, stack, before.expanded, indent);
        var to := PhaseOf(c, stack, tree.expanded);
        TreePasses(o, c, e, stack, before.expanded, indent);
        PassesOn(o, c, start, tree.text, via, via, to);
        Unmentioned(o, c, spacing, to);
        PassesOn(o, c, start + tree.text, spacing, via, to, to);
        PassesOn(o, c, before.text, start + tree.text + spacing, from, via, to);
      } else {
        Unmentioned(o, c, start + [NewLine] + spacing, via);
        PassesOn(o, c, before.text, start + [NewLine] + spacing, from, via, via);
      }
    }
  }

  /** In the plain report each pair that holds changes is marked as being reported within its details, and as
      already reported after them. */
  lemma MarksAreTrue(o: Outcomes, root: Comparison, c: Comparison)
    requires Reportable(o) && root in o && Reported(o, root, c) && Holds(o, c) && o[c].details != []
    ensures ExpandedOnce(o, c, Report(o, root).text)
  {
    hide Reportable, PlainDetails, Holds, Reported, ExpandedOnce, Told;
    ReportIsComplete(o, root);
    DetailsPass(o, c, root, |o[root].details|, [], [], 0);
  }
}

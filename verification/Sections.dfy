/** How reports lay out what is on record of a pair: a headline, and below it one line for each detail, in
    order, each with whatever is indented further. */
module Sections {
  import opened Wrappers
  import opened Reachability
  import opened Sequences
  import opened Diffs
  import opened DiffGraph

  datatype OutputFormat = PLAIN | FLAT | SMALL

  /** How the details of a pair are written: how far they are indented, whether their text is given,
      whether they are spaced out, and in which format. */
  datatype Style = Style(width: nat, titled: bool, spaced: bool, format: OutputFormat) {
    function Lead(text: DetailText): seq<Token> {
      if titled then [Indent(width), Wording(text)] else []
    }

    function Trail(): seq<Token> {
      if spaced then [NewLine] else []
    }
  }

  /** The details of a pair below a headline. */
  function Inner(width: nat, format: OutputFormat): Style {
    Style(width, true, false, format)
  }

  function FlatFormat(full: bool): OutputFormat {
    if full then FLAT else SMALL
  }

  /** The lines for one detail. A difference of the nodes, and a removed or added node, have a line of their own and
      nothing else. A pair of children has a headline and what follows it. It has no line in a small report exactly
      if there is nothing of interest in its tree. */
  ghost predicate DetailLine(o: Outcomes, style: Style, detail: DiffDetail, line: seq<Token>)
    decreases |line|, 0
  {
    match detail.edge
    case None => line == style.Lead(detail.text) + [NewLine] + style.Trail()
    case Some(d) =>
      && (d.first.Some? || d.second.Some?)
      && if !TwoSided(d) then line == style.Lead(detail.text) + Headline(d) + style.Trail()
         else if style.format.SMALL? && !Interesting(o, d, true) then line == []
         else
           exists tail :: |tail| < |line| && line == style.Lead(detail.text) + Headline(d) + tail + style.Trail() &&
                          DetailTail(o, d, style.width, style.format, tail)
  }

  /** What follows the headline of a pair, the line of which is indented so far: the lines for its own details,
      unless it holds changes and is printed elsewhere. */
  ghost predicate DetailTail(o: Outcomes, d: Comparison, width: nat, format: OutputFormat, tail: seq<Token>)
    decreases |tail|, 1
  {
    if Holds(o, d) && !format.PLAIN? then tail == [NewLine]
    else
      || (Holds(o, d) && IsMark(o, d, tail))
      || (|tail| > 0 && tail[0] == NewLine && d in o &&
          DetailLines(o, Inner(width + INDENT_INCREMENT, format), o[d].details, tail[1..]))
  }

  predicate IsMark(o: Outcomes, d: Comparison, tail: seq<Token>) {
    || tail == [BeingReported, NewLine] || tail == [AlreadyReported, NewLine]
    || (d in o && o[d].details == [] && tail == [])
  }

  /** The lines for some details, one after another. */
  ghost predicate DetailLines(o: Outcomes, style: Style, details: seq<DiffDetail>, lines: seq<Token>)
    decreases |lines|, |details| + 1
  {
    if details == [] then lines == []
    else
      var n := |details| - 1;
      exists cut: nat :: cut <= |lines| &&
        DetailLines(o, style, details[..n], lines[..cut]) && DetailLine(o, style, details[n], lines[cut..])
  }

  lemma LinesAppend(
      o: Outcomes, style: Style, details: seq<DiffDetail>, n: nat, lines: seq<Token>, line: seq<Token>)
    requires n < |details| && DetailLines(o, style, details[..n], lines) && DetailLine(o, style, details[n], line)
    ensures DetailLines(o, style, details[..n + 1], lines + line)
  {
    hide DetailLine;
    var some := details[..n + 1];
    assert some[..n] == details[..n] && some[n] == details[n];
    assert (lines + line)[..|lines|] == lines && (lines + line)[|lines|..] == line;
  }

  lemma PairLine(o: Outcomes, style: Style, detail: DiffDetail, tail: seq<Token>)
    requires detail.edge.Some? && TwoSided(detail.edge.value)
    requires !(style.format.SMALL? && !Interesting(o, detail.edge.value, true))
    requires DetailTail(o, detail.edge.value, style.width, style.format, tail)
    ensures DetailLine(o, style, detail, style.Lead(detail.text) + Headline(detail.edge.value) + tail + style.Trail())
  {
    hide DetailTail, Interesting;
  }

  /** There is a place where the pair has a headline, followed by the lines for all its details. */
  ghost predicate Told(o: Outcomes, n: Comparison, format: OutputFormat, text: seq<Token>) {
    && n in o && (n.first.Some? || n.second.Some?)
    && if !TwoSided(n) then Infix(Headline(n), text)
       else exists width: nat, lines ::
         Infix(Headline(n) + [NewLine] + lines, text) && DetailLines(o, Inner(width, format), o[n].details, lines)
  }

  lemma ToldStays(o: Outcomes, n: Comparison, format: OutputFormat, text: seq<Token>, more: seq<Token>)
    requires Told(o, n, format, text) && Infix(text, more)
    ensures Told(o, n, format, more)
  {
    hide DetailLines, Infix;
    if !TwoSided(n) {
      InfixTrans(Headline(n), text, more);
    } else {
      var width: nat, lines :|
        Infix(Headline(n) + [NewLine] + lines, text) && DetailLines(o, Inner(width, format), o[n].details, lines);
      InfixTrans(Headline(n) + [NewLine] + lines, text, more);
    }
  }

  // ---- trees of flat reports ----

  /** The layout of a pair at the top of a tree is its headline and what follows that. */
  lemma {:induction false} LayoutTail(o: Outcomes, d: Comparison, full: bool, indent: nat) returns (tail: seq<Token>)
    requires Reportable(o) && d in o && TwoSided(d)
    ensures Layout(o, d, full, true, indent) == Headline(d) + tail
    ensures DetailTail(o, d, indent, FlatFormat(full), tail)
    decreases 0, Size(o, d), 1, 0
  {
    hide Reportable, DetailsLayout, DetailLines, Interesting;
    if Holds(o, d) {
      tail := [NewLine];
    } else {
      var lines := DetailsLayout(o, d, |o[d].details|, full, indent + INDENT_INCREMENT);
      tail := [NewLine] + lines;
      DetailsLayoutLines(o, d, |o[d].details|, full, indent + INDENT_INCREMENT);
      assert o[d].details[..|o[d].details|] == o[d].details && tail[1..] == lines;
    }
  }

  lemma {:induction false} DetailsLayoutLines(o: Outcomes, c: Comparison, n: nat, full: bool, indent: nat)
    requires Reportable(o) && c in o && n <= |o[c].details|
    ensures DetailLines(o, Inner(indent, FlatFormat(full)), o[c].details[..n], DetailsLayout(o, c, n, full, indent))
    decreases if Holds(o, c) then 1 else 0, Size(o, c), 0, n
  {
    hide Reportable, Layout, Interesting, DetailLine, DetailTail;
    var style := Inner(indent, FlatFormat(full));
    if n > 0 {
      var before := DetailsLayout(o, c, n - 1, full, indent);
      var detail := o[c].details[n - 1];
      var line := DetailsLayout(o, c, n, full, indent)[|before|..];
      DetailsLayoutLines(o, c, n - 1, full, indent);
      if detail.edge.Some? && TwoSided(detail.edge.value) && (full || Interesting(o, detail.edge.value, true)) {
        assert HasDetail(o, c, detail.edge.value);
        SizeFalls(o, c, detail.edge.value);
        var tail := LayoutTail(o, detail.edge.value, full, indent);
        PairLine(o, style, detail, tail);
        assert line == style.Lead(detail.text) + Headline(detail.edge.value) + tail + style.Trail();
      } else {
        PlainLine(o, c, n, full, indent, line);
      }
      LinesAppend(o, style, o[c].details, n - 1, before, line);
      assert before + line == DetailsLayout(o, c, n, full, indent);
    }
  }

  lemma PlainLine(o: Outcomes, c: Comparison, n: nat, full: bool, indent: nat, line: seq<Token>)
    requires Reportable(o) && c in o && 0 < n <= |o[c].details|
    requires DetailsLayout(o, c, n, full, indent) == DetailsLayout(o, c, n - 1, full, indent) + line
    requires var edge := o[c].details[n - 1].edge;
             edge.Some? && TwoSided(edge.value) ==> !full && !Interesting(o, edge.value, true)
    ensures DetailLine(o, Inner(indent, FlatFormat(full)), o[c].details[n - 1], line)
  {
    hide Interesting, Reportable, Size;
    var detail := o[c].details[n - 1];
    var before := DetailsLayout(o, c, n - 1, full, indent);
    assert line == (before + line)[|before|..];
    if detail.edge.Some? {
      var d := detail.edge.value;
      assert HasDetail(o, c, d);
      SizeFalls(o, c, d);
      OneSidedHasNoDetails(o, d);
      InterestingStep(o, d, true);
      if !TwoSided(d) {
        assert before + line == before + ([Indent(indent), Wording(detail.text)] + Headline(d));
      } else {
        assert before + line == before + [];
      }
    } else {
      assert before + line == before + [Indent(indent), Wording(detail.text), NewLine];
    }
  }

  /** What is of interest below a pair is of interest above it. */
  lemma InterestRises(o: Outcomes, d: Comparison, n: Comparison)
    requires InTree(o, d, true, n) && Interesting(o, n, true)
    ensures Interesting(o, d, true)
  {
    hide Reaches;
    var m :| InTree(o, n, true, m) && IsChange(o, m) && !Holds(o, m);
    ReachesTrans(CutEdges(o), d, n, m);
    assert InTree(o, d, true, m);
  }

  /** The layout of a tree holds that of every pair in it at which the tree is not cut, if that is of interest. */
  lemma {:induction false} LayoutHolds(o: Outcomes, c: Comparison, full: bool, stop: bool, indent: nat, n: Comparison)
    returns (at: nat)
    requires Reportable(o) && Starts(o, c, stop) && InTree(o, c, stop, n) && n in o
    requires Holds(o, n) ==> n == c && !stop
    requires full || Interesting(o, n, !Holds(o, n))
    ensures Infix(Layout(o, n, full, !Holds(o, n), at), Layout(o, c, full, stop, indent))
    decreases if Holds(o, c) && !stop then 1 else 0, Size(o, c), 1, 0
  {
    hide Reportable, InTree, Infix, Interesting, Layout;
    if n == c {
      at := indent;
      InfixSelf(Layout(o, c, full, stop, indent));
    } else {
      OneSidedHasNoDetails(o, c);
      InTreeStep(o, c, stop, n);
      var d :| HasDetail(o, c, d) && InTree(o, d, true, n);
      var k :| 0 <= k < |o[c].details| && o[c].details[k].edge == Some(d);
      SizeFalls(o, c, d);
      at := LayoutHolds(o, d, full, true, indent + INDENT_INCREMENT, n);
      if !full { InterestRises(o, d, n); }
      DetailsLayoutHolds(o, c, |o[c].details|, full, indent + INDENT_INCREMENT, k);
      WholeLayoutHolds(o, c, full, stop, indent);
      InfixTrans(Layout(o, n, full, !Holds(o, n), at), Layout(o, d, full, true, indent + INDENT_INCREMENT),
                 DetailsLayout(o, c, |o[c].details|, full, indent + INDENT_INCREMENT));
      InfixTrans(Layout(o, n, full, !Holds(o, n), at),
                 DetailsLayout(o, c, |o[c].details|, full, indent + INDENT_INCREMENT),
                 Layout(o, c, full, stop, indent));
    }
  }

  lemma WholeLayoutHolds(o: Outcomes, c: Comparison, full: bool, stop: bool, indent: nat)
    requires Reportable(o) && Starts(o, c, stop) && TwoSided(c) && !(Holds(o, c) && stop)
    ensures Infix(DetailsLayout(o, c, |o[c].details|, full, indent + INDENT_INCREMENT),
                  Layout(o, c, full, stop, indent))
  {
    hide Reportable, DetailsLayout;
    var inner := DetailsLayout(o, c, |o[c].details|, full, indent + INDENT_INCREMENT);
    assert Layout(o, c, full, stop, indent) == (Headline(c) + [NewLine]) + inner + [];
  }

  lemma {:induction false} DetailsLayoutHolds(o: Outcomes, c: Comparison, n: nat, full: bool, indent: nat, k: nat)
    requires Reportable(o) && c in o && k < n <= |o[c].details| && o[c].details[k].edge.Some?
    requires o[c].details[k].edge.value in o
    requires full || Interesting(o, o[c].details[k].edge.value, true)
    ensures Infix(Layout(o, o[c].details[k].edge.value, full, true, indent), DetailsLayout(o, c, n, full, indent))
  {
    hide Reportable, Interesting, Layout, Size, Holds, Infix;
    var d := o[c].details[k].edge.value;
    var before := DetailsLayout(o, c, n - 1, full, indent);
    if k < n - 1 {
      DetailsLayoutHolds(o, c, n - 1, full, indent, k);
      InfixSum(Layout(o, d, full, true, indent), [], before, DetailsLayout(o, c, n, full, indent)[|before|..]);
      assert DetailsLayout(o, c, n, full, indent) == [] + before + DetailsLayout(o, c, n, full, indent)[|before|..];
    } else {
      var layout := Layout(o, d, full, true, indent);
      var start := before + [Indent(indent), Wording(o[c].details[k].text)];
      InfixSelf(layout);
      InfixSum(layout, start, layout, []);
      assert DetailsLayout(o, c, n, full, indent) == start + layout + [];
    }
  }

  lemma LayoutTells(o: Outcomes, n: Comparison, full: bool, indent: nat)
    requires Reportable(o) && n in o
    ensures Told(o, n, FlatFormat(full), Layout(o, n, full, !Holds(o, n), indent))
  {
    hide Reportable, Infix, DetailsLayout, DetailLines;
    OneSidedHasNoDetails(o, n);
    var layout := Layout(o, n, full, !Holds(o, n), indent);
    InfixSelf(layout);
    if TwoSided(n) {
      DetailsLayoutLines(o, n, |o[n].details|, full, indent + INDENT_INCREMENT);
      assert o[n].details[..|o[n].details|] == o[n].details;
    }
  }
}

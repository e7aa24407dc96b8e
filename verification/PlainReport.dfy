/** The plain report (reporting.cc): the difference graph as one tree, in which each pair that holds
    changes is expanded where it is met first. */
module PlainReport {
  import opened Reachability
  import opened Sequences
  import opened Diffs
  import opened DiffGraph
  import opened Sections

  // ---- what is printed, in terms of the pairs being printed and those expanded so far ----

  datatype Plain = Plain(text: seq<Token>, expanded: seq<Comparison>)

  ghost function Unexpanded(o: Outcomes, expanded: seq<Comparison>): nat {
    |o.Keys - Elements(expanded)|
  }

  /** The pairs being printed inside the tree of c. */
  ghost function Inside(o: Outcomes, c: Comparison, stack: seq<Comparison>): seq<Comparison> {
    if Holds(o, c) then stack + [c] else stack
  }

  /** The pairs expanded when the tree of c is begun. */
  ghost function Begun(o: Outcomes, c: Comparison, expanded: seq<Comparison>): seq<Comparison> {
    if Holds(o, c) then expanded + [c] else expanded
  }

  lemma BegunFalls(o: Outcomes, c: Comparison, expanded: seq<Comparison>)
    requires c in o && (Holds(o, c) ==> c !in expanded)
    ensures expanded <= Begun(o, c, expanded)
    ensures if Holds(o, c) then Unexpanded(o, Begun(o, c, expanded)) < Unexpanded(o, expanded)
            else Begun(o, c, expanded) == expanded
    ensures Distinct(expanded) ==> Distinct(Begun(o, c, expanded))
  {
    if Holds(o, c) {
      assert Elements(expanded + [c]) == Elements(expanded) + {c};
      ProperSubsetIsSmaller(o.Keys - Elements(expanded + [c]), o.Keys - Elements(expanded));
    }
  }

  lemma BegunHolds(o: Outcomes, c: Comparison, stack: seq<Comparison>, expanded: seq<Comparison>, more: seq<Comparison>)
    requires Begun(o, c, expanded) <= more && forall s :: s in stack ==> s in expanded
    ensures Holds(o, c) ==> c in more
    ensures forall s :: s in Inside(o, c, stack) ==> s in Begun(o, c, expanded)
  {
    if Holds(o, c) {
      assert (expanded + [c])[|expanded|] == c;
    }
  }

  lemma ExpandedNoRise(o: Outcomes, expanded: seq<Comparison>, more: seq<Comparison>)
    requires expanded <= more
    ensures Unexpanded(o, more) <= Unexpanded(o, expanded)
  {
    assert forall k :: 0 <= k < |expanded| ==> expanded[k] == more[k];
    SubsetSize(o.Keys - Elements(more), o.Keys - Elements(expanded));
  }

  /** The tree of a pair. `stack` lists the pairs that are being printed around it. */
  ghost function PlainTree(
      o: Outcomes, c: Comparison, stack: seq<Comparison>, expanded: seq<Comparison>, indent: nat): (r: Plain)
    requires Reportable(o) && c in o
    ensures expanded <= r.expanded
    decreases Unexpanded(o, expanded), 0, Size(o, c), 1, 0
  {
    if !TwoSided(c) then Plain(Headline(c), expanded)
    else if Holds(o, c) && c in stack then Plain(Headline(c) + [BeingReported, NewLine], expanded)
    else if Holds(o, c) && c in expanded then
      Plain(Headline(c) + if o[c].details != [] then [AlreadyReported, NewLine] else [], expanded)
    else
      BegunFalls(o, c, expanded);
      var r := PlainDetails(o, c, |o[c].details|, Inside(o, c, stack), Begun(o, c, expanded),
                            indent + INDENT_INCREMENT);
      Plain(Headline(c) + [NewLine] + r.text, r.expanded)
  }

  /** The first n details of a pair. */
  ghost function PlainDetails(
      o: Outcomes, c: Comparison, n: nat, stack: seq<Comparison>, expanded: seq<Comparison>, indent: nat): (r: Plain)
    requires Reportable(o) && c in o && n <= |o[c].details|
    ensures expanded <= r.expanded
    decreases Unexpanded(o, expanded), if Holds(o, c) then 1 else 0, Size(o, c), 0, n
  {
    if n == 0 then Plain([], expanded)
    else
      var before := PlainDetails(o, c, n - 1, stack, expanded, indent);
      var detail := o[c].details[n - 1];
      var start, spacing := [Indent(indent), Wording(detail.text)], if indent == 0 then [NewLine] else [];
      match detail.edge
      case None => Plain(before.text + (start + [NewLine] + spacing), before.expanded)
      case Some(d) =>
        assert HasDetail(o, c, d);
        SizeFalls(o, c, d);
        ExpandedNoRise(o, expanded, before.expanded);
        var r := PlainTree(o, d, stack, before.expanded, indent);
        Plain(before.text + (start + r.text + spacing), r.expanded)
  }

  // ---- every pair is expanded once, and everything is shown ----

  /** n is told, or if it holds changes it is expanded, here or elsewhere. */
  ghost predicate Shown(o: Outcomes, r: Plain, n: Comparison) {
    if Holds(o, n) then n in r.expanded else Told(o, n, PLAIN, r.text)
  }

  ghost predicate TreeShown(o: Outcomes, r: Plain, c: Comparison, stop: bool) {
    forall n :: InTree(o, c, stop, n) ==> Shown(o, r, n)
  }

  /** Each pair expanded since then holds changes, has been told, and has had its whole tree shown. */
  ghost predicate NewlyShown(o: Outcomes, r: Plain, since: seq<Comparison>) {
    forall h :: h in r.expanded && h !in since ==> Holds(o, h) && Told(o, h, PLAIN, r.text) && TreeShown(o, r, h, false)
  }

  ghost predicate Extends(r: Plain, s: Plain) {
    Infix(r.text, s.text) && forall c :: c in r.expanded ==> c in s.expanded
  }

  lemma ShownStays(o: Outcomes, r: Plain, s: Plain, c: Comparison, stop: bool)
    requires Extends(r, s) && TreeShown(o, r, c, stop)
    ensures TreeShown(o, s, c, stop)
  {
    hide InTree, Holds, Told, Infix;
    forall n | InTree(o, c, stop, n) ensures Shown(o, s, n) {
      if !Holds(o, n) { ToldStays(o, n, PLAIN, r.text, s.text); }
    }
  }

  lemma NewlyShownStays(o: Outcomes, r: Plain, s: Plain, since: seq<Comparison>, h: Comparison)
    requires Extends(r, s) && NewlyShown(o, r, since) && h in r.expanded && h !in since
    ensures Holds(o, h) && Told(o, h, PLAIN, s.text) && TreeShown(o, s, h, false)
  {
    hide TreeShown, Told, Holds, Infix;
    ShownStays(o, r, s, h, false);
    ToldStays(o, h, PLAIN, r.text, s.text);
  }

  /** A pair that is not expanded here. */
  lemma ClosedTreeShows(o: Outcomes, c: Comparison, r: Plain, expanded: seq<Comparison>)
    requires Reportable(o) && c in o && (!TwoSided(c) || Holds(o, c)) && (Holds(o, c) ==> c in expanded)
    requires r.expanded == expanded && (c.first.Some? || c.second.Some?) && Headline(c) <= r.text
    ensures TreeShown(o, r, c, true) && NewlyShown(o, r, expanded)
  {
    hide Reportable, InTree, Holds;
    OneSidedHasNoDetails(o, c);
    assert r.text == [] + Headline(c) + r.text[|Headline(c)|..];
    forall n | InTree(o, c, true, n) ensures Shown(o, r, n) {
      InTreeStep(o, c, true, n);
    }
  }

  /** A pair whose details have been shown. */
  lemma OpenTreeShows(o: Outcomes, c: Comparison, details: Plain, r: Plain, expanded: seq<Comparison>)
    requires Reportable(o) && c in o && TwoSided(c)
    requires r == Plain(Headline(c) + [NewLine] + details.text, details.expanded)
    requires Holds(o, c) ==> c in r.expanded
    requires NewlyShown(o, details, Begun(o, c, expanded)) && Told(o, c, PLAIN, r.text)
    requires DetailsShown(o, details, o[c].details[..|o[c].details|])
    ensures TreeShown(o, r, c, true) && NewlyShown(o, r, expanded)
  {
    hide Reportable, InTree, Holds, TreeShown, Headline, Told;
    OneSidedHasNoDetails(o, c);
    assert o[c].details[..|o[c].details|] == o[c].details;
    assert r.text == (Headline(c) + [NewLine]) + details.text + [];
    WholeTreeShown(o, details, r, c);
    hide Infix;
    forall h | h in r.expanded && h !in expanded
      ensures Holds(o, h) && Told(o, h, PLAIN, r.text) && TreeShown(o, r, h, false)
    {
      if h != c { NewlyShownStays(o, details, r, Begun(o, c, expanded), h); }
    }
  }

  lemma {:induction false} PlainTreeShows(
      o: Outcomes, c: Comparison, stack: seq<Comparison>, expanded: seq<Comparison>, indent: nat)
    requires Reportable(o) && c in o && (forall s :: s in stack ==> s in expanded) && Distinct(expanded)
    ensures var r := PlainTree(o, c, stack, expanded, indent);
            TreeShown(o, r, c, true) && NewlyShown(o, r, expanded) && Distinct(r.expanded)
    decreases Unexpanded(o, expanded), 0, Size(o, c), 1, 0
  {
    hide Reportable, Shown, Distinct, Holds, TreeShown, NewlyShown, PlainDetails, Headline, Inside, Begun, DetailsShown;
    var r := PlainTree(o, c, stack, expanded, indent);
    OneSidedHasNoDetails(o, c);
    HeldIsKnown(o, c);
    if !TwoSided(c) || (Holds(o, c) && (c in stack || c in expanded)) {
      ClosedTreeShows(o, c, r, expanded);
    } else {
      BegunFalls(o, c, expanded);
      BegunHolds(o, c, stack, expanded, r.expanded);
      PlainDetailsShow(o, c, |o[c].details|, Inside(o, c, stack), Begun(o, c, expanded), indent + INDENT_INCREMENT);
      OpenTreeTells(o, c, Inside(o, c, stack), Begun(o, c, expanded), indent);
      OpenTreeShows(
        o, c, PlainDetails(o, c, |o[c].details|, Inside(o, c, stack), Begun(o, c, expanded), indent + INDENT_INCREMENT),
        r, expanded);
    }
  }

  lemma WholeTreeShown(o: Outcomes, details: Plain, r: Plain, c: Comparison)
    requires Reportable(o) && c in o && Extends(details, r) && Shown(o, r, c)
    requires forall k :: 0 <= k < |o[c].details| && o[c].details[k].edge.Some? ==>
               TreeShown(o, details, o[c].details[k].edge.value, true)
    ensures TreeShown(o, r, c, true) && (Holds(o, c) ==> TreeShown(o, r, c, false))
  {
    hide Reportable, InTree, Holds, Extends, Told;
    DetailIndices(o, c);
    forall stop: bool, n | (stop || Holds(o, c)) && InTree(o, c, stop, n) ensures Shown(o, r, n) {
      InTreeStep(o, c, stop, n);
      if n != c {
        var d :| HasDetail(o, c, d) && InTree(o, d, true, n);
        ShownStays(o, details, r, d, true);
      }
    }
  }

  // ---- the lines of an expanded pair ----

  /** How the details of a pair are written at this indentation. */
  function PlainStyle(indent: nat): Style {
    Style(indent, true, indent == 0, PLAIN)
  }

  /** The text of a pair is its headline and what follows that. */
  lemma {:induction false} PlainTreeTail(
      o: Outcomes, c: Comparison, stack: seq<Comparison>, expanded: seq<Comparison>, indent: nat)
    returns (tail: seq<Token>)
    requires Reportable(o) && c in o && TwoSided(c)
    ensures PlainTree(o, c, stack, expanded, indent).text == Headline(c) + tail
    ensures DetailTail(o, c, indent, PLAIN, tail)
    decreases Unexpanded(o, expanded), 0, Size(o, c), 1, 0
  {
    hide Reportable, PlainDetails, Inside, Begun, DetailLines;
    if Holds(o, c) && c in stack {
      tail := [BeingReported, NewLine];
    } else if Holds(o, c) && c in expanded {
      tail := if o[c].details != [] then [AlreadyReported, NewLine] else [];
    } else {
      BegunFalls(o, c, expanded);
      var inner := PlainDetails(o, c, |o[c].details|, Inside(o, c, stack), Begun(o, c, expanded),
                                indent + INDENT_INCREMENT);
      PlainDetailsLines(o, c, |o[c].details|, Inside(o, c, stack), Begun(o, c, expanded), indent + INDENT_INCREMENT);
      assert o[c].details[..|o[c].details|] == o[c].details;
      tail := [NewLine] + inner.text;
      assert tail[1..] == inner.text;
      assert PlainStyle(indent + INDENT_INCREMENT) == Inner(indent + INDENT_INCREMENT, PLAIN);
    }
  }

  lemma {:induction false} PlainDetailsLines(
      o: Outcomes, c: Comparison, n: nat, stack: seq<Comparison>, expanded: seq<Comparison>, indent: nat)
    requires Reportable(o) && c in o && n <= |o[c].details|
    ensures DetailLines(o, PlainStyle(indent), o[c].details[..n],
                        PlainDetails(o, c, n, stack, expanded, indent).text)
    decreases Unexpanded(o, expanded), if Holds(o, c) then 1 else 0, Size(o, c), 0, n
  {
    hide Reportable, PlainTree, Holds, DetailLine, DetailTail;
    if n > 0 {
      var style := PlainStyle(indent);
      var before := PlainDetails(o, c, n - 1, stack, expanded, indent);
      var detail := o[c].details[n - 1];
      var line;
      PlainDetailsLines(o, c, n - 1, stack, expanded, indent);
      if detail.edge.Some? && TwoSided(detail.edge.value) {
        var d := detail.edge.value;
        assert HasDetail(o, c, d);
        SizeFalls(o, c, d);
        ExpandedNoRise(o, expanded, before.expanded);
        var tail := PlainTreeTail(o, d, stack, before.expanded, indent);
        line := TreeLine(o, c, n, stack, expanded, indent, tail);
      } else {
        line := PlainLine(o, c, n, stack, expanded, indent);
      }
      LinesAppend(o, style, o[c].details, n - 1, before.text, line);
    }
  }

  lemma TreeLine(
      o: Outcomes, c: Comparison, n: nat, stack: seq<Comparison>, expanded: seq<Comparison>, indent: nat,
      tail: seq<Token>)
    returns (line: seq<Token>)
    requires Reportable(o) && c in o && 0 < n <= |o[c].details|
    requires o[c].details[n - 1].edge.Some? && TwoSided(o[c].details[n - 1].edge.value)
    requires var d, before := o[c].details[n - 1].edge.value, PlainDetails(o, c, n - 1, stack, expanded, indent);
             d in o && PlainTree(o, d, stack, before.expanded, indent).text == Headline(d) + tail
    requires DetailTail(o, o[c].details[n - 1].edge.value, indent, PLAIN, tail)
    ensures PlainDetails(o, c, n, stack, expanded, indent).text
            == PlainDetails(o, c, n - 1, stack, expanded, indent).text + line
    ensures DetailLine(o, PlainStyle(indent), o[c].details[n - 1], line)
  {
    hide Reportable, DetailTail, DetailLine, PlainTree, Holds, Size;
    var style, detail := PlainStyle(indent), o[c].details[n - 1];
    PairLine(o, style, detail, tail);
    line := style.Lead(detail.text) + Headline(detail.edge.value) + tail + style.Trail();
    assert line == style.Lead(detail.text) + (Headline(detail.edge.value) + tail) + style.Trail();
  }

  lemma PlainLine(
      o: Outcomes, c: Comparison, n: nat, stack: seq<Comparison>, expanded: seq<Comparison>, indent: nat)
    returns (line: seq<Token>)
    requires Reportable(o) && c in o && 0 < n <= |o[c].details|
    requires o[c].details[n - 1].edge.Some? ==> !TwoSided(o[c].details[n - 1].edge.value)
    ensures PlainDetails(o, c, n, stack, expanded, indent).text
            == PlainDetails(o, c, n - 1, stack, expanded, indent).text + line
    ensures DetailLine(o, PlainStyle(indent), o[c].details[n - 1], line)
  {
    hide Reportable, Size, DetailTail;
    var detail := o[c].details[n - 1];
    var start, spacing := [Indent(indent), Wording(detail.text)], if indent == 0 then [NewLine] else [];
    line := start + [NewLine] + spacing;
    if detail.edge.Some? {
      var d := detail.edge.value;
      assert HasDetail(o, c, d);
      SizeFalls(o, c, d);
      OneSidedHasNoDetails(o, d);
      line := start + Headline(d) + spacing;
    }
  }

  lemma OpenTreeTells(o: Outcomes, c: Comparison, stack: seq<Comparison>, expanded: seq<Comparison>, indent: nat)
    requires Reportable(o) && c in o && TwoSided(c)
    ensures var inner := PlainDetails(o, c, |o[c].details|, stack, expanded, indent + INDENT_INCREMENT);
            Told(o, c, PLAIN, Headline(c) + [NewLine] + inner.text)
  {
    hide Reportable, PlainDetails, DetailLines, Infix;
    var inner := PlainDetails(o, c, |o[c].details|, stack, expanded, indent + INDENT_INCREMENT);
    PlainDetailsLines(o, c, |o[c].details|, stack, expanded, indent + INDENT_INCREMENT);
    assert o[c].details[..|o[c].details|] == o[c].details;
    InfixSelf(Headline(c) + [NewLine] + inner.text);
    assert PlainStyle(indent + INDENT_INCREMENT) == Inner(indent + INDENT_INCREMENT, PLAIN);
  }

  ghost predicate DetailsShown(o: Outcomes, r: Plain, details: seq<DiffDetail>) {
    forall k :: 0 <= k < |details| && details[k].edge.Some? ==> TreeShown(o, r, details[k].edge.value, true)
  }

  lemma OneMoreShown(
      o: Outcomes, details: seq<DiffDetail>, before: Plain, next: Plain, r: Plain, since: seq<Comparison>)
    requires details != [] && DetailsShown(o, before, details[..|details| - 1])
    requires NewlyShown(o, before, since) && NewlyShown(o, next, before.expanded)
    requires Extends(before, r) && Extends(next, r) && r.expanded == next.expanded
    requires var edge := details[|details| - 1].edge; edge.Some? ==> TreeShown(o, next, edge.value, true)
    ensures DetailsShown(o, r, details) && NewlyShown(o, r, since)
  {
    hide TreeShown, Extends, Told, Holds;
    var n := |details| - 1;
    forall k | 0 <= k < |details| && details[k].edge.Some? ensures TreeShown(o, r, details[k].edge.value, true) {
      if k < n {
        assert details[..n][k] == details[k];
        ShownStays(o, before, r, details[k].edge.value, true);
      } else {
        ShownStays(o, next, r, details[k].edge.value, true);
      }
    }
    forall h | h in r.expanded && h !in since
      ensures Holds(o, h) && Told(o, h, PLAIN, r.text) && TreeShown(o, r, h, false)
    {
      if h in before.expanded {
        NewlyShownStays(o, before, r, since, h);
      } else {
        NewlyShownStays(o, next, r, before.expanded, h);
      }
    }
  }

  lemma {:induction false} PlainDetailsShow(
      o: Outcomes, c: Comparison, n: nat, stack: seq<Comparison>, expanded: seq<Comparison>, indent: nat)
    requires Reportable(o) && c in o && n <= |o[c].details| && (forall s :: s in stack ==> s in expanded)
    requires Distinct(expanded)
    ensures var r := PlainDetails(o, c, n, stack, expanded, indent);
            DetailsShown(o, r, o[c].details[..n]) && NewlyShown(o, r, expanded) && Distinct(r.expanded)
    decreases Unexpanded(o, expanded), if Holds(o, c) then 1 else 0, Size(o, c), 0, n
  {
    hide Reportable, Distinct, Holds, NewlyShown, TreeShown, DetailsShown, PlainTree, Extends;
    if n == 0 {
      NothingShown(o, c, expanded);
    } else {
      var r := PlainDetails(o, c, n, stack, expanded, indent);
      var before := PlainDetails(o, c, n - 1, stack, expanded, indent);
      PlainDetailsShow(o, c, n - 1, stack, expanded, indent);
      assert o[c].details[..n][..n - 1] == o[c].details[..n - 1];
      if o[c].details[n - 1].edge.Some? {
        var d := o[c].details[n - 1].edge.value;
        assert HasDetail(o, c, d);
        SizeFalls(o, c, d);
        ExpandedNoRise(o, expanded, before.expanded);
        var tree := PlainTree(o, d, stack, before.expanded, indent);
        PlainTreeShows(o, d, stack, before.expanded, indent);
        AppendExtends(before, tree, r, [Indent(indent), Wording(o[c].details[n - 1].text)],
                      if indent == 0 then [NewLine] else []);
        OneMoreShown(o, o[c].details[..n], before, tree, r, expanded);
      } else {
        var line := Plain([NewLine], before.expanded);
        NoneNewlyShown(o, line);
        AppendExtends(before, line, r, [Indent(indent), Wording(o[c].details[n - 1].text)],
                      if indent == 0 then [NewLine] else []);
        OneMoreShown(o, o[c].details[..n], before, line, r, expanded);
      }
    }
  }

  lemma AppendExtends(before: Plain, next: Plain, r: Plain, start: seq<Token>, spacing: seq<Token>)
    requires r == Plain(before.text + (start + next.text + spacing), next.expanded) && before.expanded <= next.expanded
    ensures Extends(before, r) && Extends(next, r)
  {
    assert r.text == [] + before.text + (start + next.text + spacing);
    assert r.text == (before.text + start) + next.text + spacing;
  }

  lemma NoneNewlyShown(o: Outcomes, r: Plain)
    ensures NewlyShown(o, r, r.expanded)
  {
  }

  lemma NothingShown(o: Outcomes, c: Comparison, expanded: seq<Comparison>)
    requires c in o
    ensures DetailsShown(o, Plain([], expanded), o[c].details[..0]) && NewlyShown(o, Plain([], expanded), expanded)
  {
  }

  /** The whole report: the details of the root, with nothing around them. */
  ghost function Report(o: Outcomes, root: Comparison): Plain
    requires Reportable(o) && root in o
  {
    PlainDetails(o, root, |o[root].details|, [], [], 0)
  }

  /** Each pair that holds changes and can be reached is expanded exactly once, nothing else is expanded,
      and everything that can be reached is told. */
  lemma ReportIsComplete(o: Outcomes, root: Comparison)
    requires Reportable(o) && root in o
    ensures Distinct(Report(o, root).expanded)
    ensures forall c :: c in Report(o, root).expanded <==> Holds(o, c) && Reported(o, root, c)
    ensures forall n :: Reported(o, root, n) ==> Told(o, n, PLAIN, Report(o, root).text)
    ensures DetailLines(o, PlainStyle(0), o[root].details, Report(o, root).text)
  {
    hide Reportable, InTree, Reported, Holds, PlainDetails, TreeShown, Told, DetailLines;
    var r := Report(o, root);
    PlainDetailsShow(o, root, |o[root].details|, [], [], 0);
    PlainDetailsLines(o, root, |o[root].details|, [], [], 0);
    assert o[root].details[..|o[root].details|] == o[root].details;
    DetailIndices(o, root);
    ExpandedCovers(o, root, r);
    DetailsExpandReachable(o, root, |o[root].details|, [], [], 0);
    forall c | c in r.expanded ensures Reported(o, root, c) && Holds(o, c) {
      ExpandedIsReported(o, root, r, c);
    }
    forall n | Reported(o, root, n) ensures (Holds(o, n) ==> n in r.expanded) && Told(o, n, PLAIN, r.text) {
      ReportedHasEnd(o, root, n);
      AllInSomeTree(o, root, Elements(r.expanded), n);
      SomeTreeShown(o, root, r, n);
    }
  }

  lemma ExpandedIsReported(o: Outcomes, root: Comparison, r: Plain, c: Comparison)
    requires NewlyShown(o, r, []) && c in r.expanded
    requires exists d :: HasDetail(o, root, d) && Reaches(DetailEdges(o), d, c)
    ensures Holds(o, c) && Told(o, c, PLAIN, r.text) && Reported(o, root, c)
  {
  }

  lemma SomeTreeShown(o: Outcomes, root: Comparison, r: Plain, n: Comparison)
    requires NewlyShown(o, r, []) && InSomeTree(o, root, Elements(r.expanded), n)
    requires forall d :: HasDetail(o, root, d) ==> TreeShown(o, r, d, true)
    ensures Shown(o, r, n)
  {
    hide Holds, InTree, Shown;
  }

  lemma ExpandedCovers(o: Outcomes, root: Comparison, r: Plain)
    requires NewlyShown(o, r, [])
    requires forall d :: HasDetail(o, root, d) ==> TreeShown(o, r, d, true)
    ensures Covers(o, root, Elements(r.expanded))
  {
    forall h, c, d | h in r.expanded && HasDetail(o, h, d) && InTree(o, d, true, c) && Holds(o, c)
      ensures c in r.expanded
    {
      assert InTree(o, h, false, c);
    }
  }

  lemma {:induction false} TreeExpandsReachable(
      o: Outcomes, c: Comparison, stack: seq<Comparison>, expanded: seq<Comparison>, indent: nat)
    requires Reportable(o) && c in o
    ensures forall h :: h in PlainTree(o, c, stack, expanded, indent).expanded && h !in expanded ==>
              Reaches(DetailEdges(o), c, h)
    decreases Unexpanded(o, expanded), 0, Size(o, c), 1, 0
  {
    hide Reportable, PlainDetails, Reaches, Inside;
    if TwoSided(c) && (Holds(o, c) ==> c !in stack && c !in expanded) {
      BegunFalls(o, c, expanded);
      ReachesSelf(DetailEdges(o), c);
      DetailsExpandReachable(o, c, |o[c].details|, Inside(o, c, stack), Begun(o, c, expanded),
                             indent + INDENT_INCREMENT);
    }
  }

  lemma {:induction false} DetailsExpandReachable(
      o: Outcomes, c: Comparison, n: nat, stack: seq<Comparison>, expanded: seq<Comparison>, indent: nat)
    requires Reportable(o) && c in o && n <= |o[c].details|
    ensures forall h :: h in PlainDetails(o, c, n, stack, expanded, indent).expanded && h !in expanded ==>
              exists d :: HasDetail(o, c, d) && Reaches(DetailEdges(o), d, h)
    ensures forall h :: h in PlainDetails(o, c, n, stack, expanded, indent).expanded && h !in expanded ==>
              Reaches(DetailEdges(o), c, h)
    decreases Unexpanded(o, expanded), if Holds(o, c) then 1 else 0, Size(o, c), 0, n
  {
    hide Reportable, PlainTree, Reaches, Holds;
    if n > 0 {
      var before := PlainDetails(o, c, n - 1, stack, expanded, indent);
      DetailsExpandReachable(o, c, n - 1, stack, expanded, indent);
      if o[c].details[n - 1].edge.Some? {
        var d := o[c].details[n - 1].edge.value;
        assert HasDetail(o, c, d);
        SizeFalls(o, c, d);
        ExpandedNoRise(o, expanded, before.expanded);
        TreeExpandsReachable(o, d, stack, before.expanded, indent);
        forall h | Reaches(DetailEdges(o), d, h) ensures Reaches(DetailEdges(o), c, h) {
          ReachesStep(DetailEdges(o), c, d, h);
        }
      }
    }
  }
}

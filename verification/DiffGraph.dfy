/** The graph of differences that a comparison leaves behind, cut into trees at the pairs that hold
    changes, and how such a tree is laid out in a flat report. */
module DiffGraph {
  import opened Wrappers
  import opened Reachability
  import opened Graph
  import opened Diffs

  type Outcomes = map<Comparison, Diff>

  ghost predicate HasDetail(o: Outcomes, c: Comparison, d: Comparison) {
    c in o && exists k :: 0 <= k < |o[c].details| && o[c].details[k].edge == Some(d)
  }

  ghost function DetailEdges(o: Outcomes): (edges: Edges<Comparison>)
    ensures forall c, d :: (c, d) in edges <==> HasDetail(o, c, d)
  {
    set c, k | c in o && 0 <= k < |o[c].details| && o[c].details[k].edge.Some? :: (c, o[c].details[k].edge.value)
  }

  /** Reports print the changes of these pairs separately. */
  predicate Holds(o: Outcomes, c: Comparison) {
    TwoSided(c) && c in o && o[c].holdsChanges
  }

  /** The edges that printing follows without a break. */
  ghost function CutEdges(o: Outcomes): Edges<Comparison> {
    set e | e in DetailEdges(o) && !Holds(o, e.0)
  }

  /** What reports take for granted: no comparison is missing, and no cycle avoids all the pairs that
      hold changes. */
  ghost predicate Reportable(o: Outcomes) {
    && (forall c, d :: HasDetail(o, c, d) ==> d in o)
    && (forall c :: c in o ==> c.first.Some? || c.second.Some?)
    && (forall c :: c in o && !TwoSided(c) ==> o[c] == NO_DIFF)
    && Acyclic(CutEdges(o))
  }

  ghost function Size(o: Outcomes, c: Comparison): nat {
    |ReachSet(CutEdges(o), c)|
  }

  lemma SizeFalls(o: Outcomes, c: Comparison, d: Comparison)
    requires Reportable(o) && HasDetail(o, c, d)
    ensures d in o && (!Holds(o, c) ==> Size(o, d) < Size(o, c))
  {
    if !Holds(o, c) { ReachSetShrinks(CutEdges(o), c, d); }
  }

  // ---- the tree of a pair ----

  /** n belongs to the tree printed for c. With `stop`, the tree of a pair that holds changes is the
      pair alone. */
  ghost predicate InTree(o: Outcomes, c: Comparison, stop: bool, n: Comparison) {
    if stop then Reaches(CutEdges(o), c, n)
    else n == c || exists d :: HasDetail(o, c, d) && Reaches(CutEdges(o), d, n)
  }

  /** A change that a report must not lose: a removal or addition, or a difference of the nodes. */
  ghost predicate IsChange(o: Outcomes, n: Comparison) {
    !TwoSided(n) || (n in o && o[n].hasChanges)
  }

  /** The tree has something to show that is not printed elsewhere. */
  ghost predicate Interesting(o: Outcomes, c: Comparison, stop: bool) {
    exists n :: InTree(o, c, stop, n) && IsChange(o, n) && (Holds(o, n) ==> n == c && !stop)
  }

  ghost predicate Starts(o: Outcomes, c: Comparison, stop: bool) {
    c in o && (!stop ==> Holds(o, c))
  }

  ghost predicate InterestingDetail(o: Outcomes, detail: DiffDetail) {
    detail.edge.Some? && Interesting(o, detail.edge.value, true)
  }

  /** The pair itself, or one of its first n details, has something to show. */
  ghost predicate InterestingUpTo(o: Outcomes, c: Comparison, n: nat) {
    c in o && (o[c].hasChanges || exists k :: 0 <= k < n && k < |o[c].details| && InterestingDetail(o, o[c].details[k]))
  }

  lemma InTreeStep(o: Outcomes, c: Comparison, stop: bool, n: Comparison)
    requires Reportable(o) && Starts(o, c, stop)
    ensures InTree(o, c, stop, n) <==>
            n == c || (!(Holds(o, c) && stop) && exists d :: HasDetail(o, c, d) && InTree(o, d, true, n))
  {
    if stop {
      if InTree(o, c, stop, n) && n != c {
        var d := FirstStep(CutEdges(o), c, n);
      }
      if n == c { ReachesSelf(CutEdges(o), c); }
      if !Holds(o, c) {
        forall d | HasDetail(o, c, d) && InTree(o, d, true, n) ensures InTree(o, c, stop, n) {
          ReachesStep(CutEdges(o), c, d, n);
        }
      }
    }
  }

  /** Whether to print a tree can be decided node by node. */
  lemma InterestingStep(o: Outcomes, c: Comparison, stop: bool)
    requires Reportable(o) && Starts(o, c, stop)
    ensures Interesting(o, c, stop) <==>
            if !TwoSided(c) then true
            else if Holds(o, c) && stop then false
            else InterestingUpTo(o, c, |o[c].details|)
  {
    hide Reportable, InTree;
    forall n ensures InTree(o, c, stop, n) <==>
                       n == c || (!(Holds(o, c) && stop) && exists d :: HasDetail(o, c, d) && InTree(o, d, true, n))
    {
      InTreeStep(o, c, stop, n);
    }
    if k :| TwoSided(c) && !(Holds(o, c) && stop) && 0 <= k < |o[c].details| && InterestingDetail(o, o[c].details[k]) {
      var n :| InTree(o, o[c].details[k].edge.value, true, n) && IsChange(o, n) && !Holds(o, n);
      assert HasDetail(o, c, o[c].details[k].edge.value);
      assert InTree(o, c, stop, n);
    }
    if !TwoSided(c) || (!(Holds(o, c) && stop) && o[c].hasChanges) {
      assert InTree(o, c, stop, c);
    }
  }

  // ---- laying out a tree ----

  datatype Token =
    | Indent(width: nat)
    | Wording(text: DetailText)
    | NewLine
    | Removed(id: Id)
    | Added(id: Id)
    | Changed(comparison: Comparison)
    | BeingReported
    | AlreadyReported

  /** What is said of a pair itself. */
  function Headline(c: Comparison): seq<Token>
    requires c.first.Some? || c.second.Some?
  {
    if c.second.None? then [Token.Removed(c.first.value), NewLine]
    else if c.first.None? then [Token.Added(c.second.value), NewLine]
    else [Token.Changed(c)]
  }

  const INDENT_INCREMENT: nat := 2

  /** The tree of a pair as text. Unless the report is full, subtrees that are not interesting are left out. */
  ghost function Layout(o: Outcomes, c: Comparison, full: bool, stop: bool, indent: nat): seq<Token>
    requires Reportable(o) && Starts(o, c, stop)
    decreases if Holds(o, c) && !stop then 1 else 0, Size(o, c), 1, 0
  {
    if !TwoSided(c) then Headline(c)
    else if Holds(o, c) && stop then Headline(c) + [NewLine]
    else Headline(c) + [NewLine] + DetailsLayout(o, c, |o[c].details|, full, indent + INDENT_INCREMENT)
  }

  ghost function DetailsLayout(o: Outcomes, c: Comparison, n: nat, full: bool, indent: nat): seq<Token>
    requires Reportable(o) && c in o && n <= |o[c].details|
    decreases if Holds(o, c) then 1 else 0, Size(o, c), 0, n
  {
    if n == 0 then []
    else
      var detail := o[c].details[n - 1];
      DetailsLayout(o, c, n - 1, full, indent)
      + match detail.edge
        case None => [Indent(indent), Wording(detail.text), NewLine]
        case Some(d) =>
          assert HasDetail(o, c, d);
          SizeFalls(o, c, d);
          if Interesting(o, d, true) || full then
            [Indent(indent), Wording(detail.text)] + Layout(o, d, full, true, indent)
          else []
  }

  /** The pairs that hold changes at which the tree is cut, in the order in which printing meets them. */
  ghost function Frontier(o: Outcomes, c: Comparison, stop: bool): seq<Comparison>
    requires Reportable(o) && Starts(o, c, stop)
    decreases if Holds(o, c) && !stop then 1 else 0, Size(o, c), 1, 0
  {
    if !TwoSided(c) then []
    else if Holds(o, c) && stop then [c]
    else DetailsFrontier(o, c, |o[c].details|)
  }

  ghost function DetailsFrontier(o: Outcomes, c: Comparison, n: nat): seq<Comparison>
    requires Reportable(o) && c in o && n <= |o[c].details|
    decreases if Holds(o, c) then 1 else 0, Size(o, c), 0, n
  {
    if n == 0 then []
    else
      DetailsFrontier(o, c, n - 1)
      + match o[c].details[n - 1].edge
        case None => []
        case Some(d) =>
          assert HasDetail(o, c, d);
          SizeFalls(o, c, d);
          Frontier(o, d, true)
  }

  /** The frontier holds exactly the pairs that hold changes and are met before any other such pair. */
  lemma {:induction false} FrontierIsCut(o: Outcomes, c: Comparison, stop: bool, n: Comparison)
    requires Reportable(o) && Starts(o, c, stop)
    ensures n in Frontier(o, c, stop) <==>
            && Holds(o, n)
            && if stop then InTree(o, c, true, n) else exists d :: HasDetail(o, c, d) && InTree(o, d, true, n)
    decreases if Holds(o, c) && !stop then 1 else 0, Size(o, c), 1, 0
  {
    hide Reportable, InTree, HasDetail;
    OneSidedHasNoDetails(o, c);
    if stop { InTreeStep(o, c, true, n); }
    if TwoSided(c) && !(Holds(o, c) && stop) {
      DetailsFrontierIsCut(o, c, |o[c].details|, n);
      DetailIndices(o, c);
    }
  }

  lemma OneSidedHasNoDetails(o: Outcomes, c: Comparison)
    requires Reportable(o) && c in o
    ensures !TwoSided(c) ==> forall d :: !HasDetail(o, c, d)
    ensures c.first.Some? || c.second.Some?
  {
  }

  lemma DetailIndices(o: Outcomes, c: Comparison)
    requires c in o
    ensures forall d :: HasDetail(o, c, d) <==> exists k :: 0 <= k < |o[c].details| && o[c].details[k].edge == Some(d)
  {
  }

  lemma {:induction false} DetailsFrontierIsCut(o: Outcomes, c: Comparison, n: nat, h: Comparison)
    requires Reportable(o) && c in o && n <= |o[c].details|
    ensures h in DetailsFrontier(o, c, n) <==>
            && Holds(o, h)
            && exists k :: 0 <= k < n && o[c].details[k].edge.Some? && InTree(o, o[c].details[k].edge.value, true, h)
    decreases if Holds(o, c) then 1 else 0, Size(o, c), 0, n
  {
    hide Reportable, InTree;
    if n > 0 {
      DetailsFrontierIsCut(o, c, n - 1, h);
      var edge := o[c].details[n - 1].edge;
      if edge.Some? {
        assert HasDetail(o, c, edge.value);
        SizeFalls(o, c, edge.value);
        FrontierIsCut(o, edge.value, true, h);
      }
    }
  }

  // ---- the trees together ----

  /** What the details of the root lead to. */
  ghost predicate Reported(o: Outcomes, root: Comparison, n: Comparison) {
    exists d :: HasDetail(o, root, d) && Reaches(DetailEdges(o), d, n)
  }

  ghost function ReportedSet(o: Outcomes, root: Comparison): (s: set<Comparison>)
    requires Reportable(o)
    ensures forall c :: c in s <==> c in o && Reported(o, root, c)
  {
    set c | c in o && Reported(o, root, c)
  }

  lemma TreeIsReported(o: Outcomes, root: Comparison, d: Comparison, c: Comparison)
    requires HasDetail(o, root, d) && InTree(o, d, true, c)
    ensures Reported(o, root, c)
  {
    ReachesMonotone(CutEdges(o), DetailEdges(o), d, c);
  }

  lemma HeldIsKnown(o: Outcomes, c: Comparison)
    ensures Holds(o, c) ==> c in o && TwoSided(c)
  {
  }

  lemma ReportedHasEnd(o: Outcomes, root: Comparison, n: Comparison)
    requires Reportable(o) && Reported(o, root, n)
    ensures n in o && (n.first.Some? || n.second.Some?)
  {
    var d :| HasDetail(o, root, d) && Reaches(DetailEdges(o), d, n);
    var known := o.Keys;
    assert ClosedUnder(DetailEdges(o), known);
    ClosedSetTraps(DetailEdges(o), known, d, n);
  }

  /** These pairs include each one that holds changes and is met below the root's details or below one of
      these pairs themselves. */
  ghost predicate Covers(o: Outcomes, root: Comparison, heads: set<Comparison>) {
    && (forall c, d :: HasDetail(o, root, d) && InTree(o, d, true, c) && Holds(o, c) ==> c in heads)
    && (forall h, c, d :: h in heads && HasDetail(o, h, d) && InTree(o, d, true, c) && Holds(o, c) ==> c in heads)
  }

  /** n belongs to the tree of one of the root's details, or of one of these pairs. */
  ghost predicate InSomeTree(o: Outcomes, root: Comparison, heads: set<Comparison>, n: Comparison) {
    || (exists d :: HasDetail(o, root, d) && InTree(o, d, true, n))
    || (exists h :: h in heads && InTree(o, h, false, n))
  }

  lemma BelowHead(o: Outcomes, h: Comparison, c: Comparison) returns (d: Comparison)
    requires InTree(o, h, false, c) && h != c
    ensures HasDetail(o, h, d) && InTree(o, d, true, c)
  {
    d :| HasDetail(o, h, d) && Reaches(CutEdges(o), d, c);
  }

  lemma HeadIsCovered(o: Outcomes, root: Comparison, heads: set<Comparison>, n: Comparison)
    requires Covers(o, root, heads) && InSomeTree(o, root, heads, n) && Holds(o, n)
    ensures n in heads
  {
  }

  lemma TreesGoOn(o: Outcomes, root: Comparison, heads: set<Comparison>, n: Comparison, m: Comparison)
    requires Covers(o, root, heads) && InSomeTree(o, root, heads, n) && HasDetail(o, n, m)
    ensures InSomeTree(o, root, heads, m)
  {
    ReachesSelf(CutEdges(o), m);
    if Holds(o, n) {
      HeadIsCovered(o, root, heads, n);
      assert InTree(o, n, false, m);
    } else {
      ReachesByEdge(CutEdges(o), n, m);
      if d :| HasDetail(o, root, d) && InTree(o, d, true, n) {
        ReachesTrans(CutEdges(o), d, n, m);
        assert InTree(o, d, true, m);
      } else {
        var h :| h in heads && InTree(o, h, false, n);
        if h == n {
          assert InTree(o, h, false, m);
        } else {
          var d := BelowHead(o, h, n);
          ReachesTrans(CutEdges(o), d, n, m);
          assert InTree(o, h, false, m);
        }
      }
    }
  }

  /** Cutting the graph into trees loses nothing. */
  lemma AllInSomeTree(o: Outcomes, root: Comparison, heads: set<Comparison>, n: Comparison)
    requires Covers(o, root, heads) && Reported(o, root, n)
    ensures InSomeTree(o, root, heads, n)
    ensures Holds(o, n) ==> n in heads
  {
    hide InSomeTree, Holds, Covers;
    var d :| HasDetail(o, root, d) && Reaches(DetailEdges(o), d, n);
    var inside := set c | c in Targets(o) && InSomeTree(o, root, heads, c);
    InOwnTree(o, root, heads, d);
    assert d in Targets(o);
    forall a, b | a in inside && (a, b) in DetailEdges(o) ensures b in inside {
      TreesGoOn(o, root, heads, a, b);
    }
    ClosedSetTraps(DetailEdges(o), inside, d, n);
    if Holds(o, n) { HeadIsCovered(o, root, heads, n); }
  }

  lemma InOwnTree(o: Outcomes, root: Comparison, heads: set<Comparison>, d: Comparison)
    requires HasDetail(o, root, d)
    ensures InSomeTree(o, root, heads, d)
  {
    ReachesSelf(CutEdges(o), d);
    assert InTree(o, d, true, d);
  }

  ghost function Targets(o: Outcomes): (s: set<Comparison>)
    ensures forall c, d :: HasDetail(o, c, d) ==> d in s
  {
    assert forall c, d :: HasDetail(o, c, d) ==> (c, d) in DetailEdges(o);
    set e | e in DetailEdges(o) :: e.1
  }

  lemma HeadTreeIsReported(o: Outcomes, root: Comparison, h: Comparison, n: Comparison)
    requires Reported(o, root, h) && InTree(o, h, false, n)
    ensures Reported(o, root, n)
  {
    if n != h {
      var s :| HasDetail(o, root, s) && Reaches(DetailEdges(o), s, h);
      var d := BelowHead(o, h, n);
      ReachesMonotone(CutEdges(o), DetailEdges(o), d, n);
      ReachesStep(DetailEdges(o), h, d, n);
      ReachesTrans(DetailEdges(o), s, h, n);
    }
  }
}

/** The strongly-connected component finder (scc.h), a path-based algorithm driven by the depth first
    search of its user. */
module Scc {
  import opened Wrappers
  import opened Reachability
  import opened Sequences

  /** What the finder knows, as a value: the stack of open nodes, the indices that may still be roots
      of a component, the indices of the nodes under examination (the path of the search), the edges
      followed so far, and the nodes that were handed back. The last three are ghost in the finder. */
  datatype Snapshot<N(==)> = Snapshot(open: seq<N>, roots: seq<nat>, path: seq<nat>, edges: Edges<N>, closed: set<N>)

  ghost predicate Increasing(s: seq<nat>) {
    forall i, j :: 0 <= i < j < |s| ==> s[i] < s[j]
  }

  /** The roots cut the open stack into segments; i and j lie in the same one. */
  ghost predicate SameSegment(roots: seq<nat>, i: nat, j: nat) {
    forall k :: 0 <= k < |roots| ==> (roots[k] <= i <==> roots[k] <= j)
  }

  /** j is the node examined immediately inside the examination of i. */
  ghost predicate NextOnPath(path: seq<nat>, i: nat, j: nat) {
    exists k :: 0 <= k < |path| - 1 && path[k] == i && path[k + 1] == j
  }

  ghost predicate WellShaped<N(!new)>(v: Snapshot<N>) {
    && Distinct(v.open)
    && Increasing(v.roots) && Increasing(v.path)
    && (forall r :: r in v.roots ==> r in v.path)
    && (forall k :: 0 <= k < |v.path| ==> v.path[k] < |v.open|)
    && (|v.open| > 0 ==> |v.roots| > 0 && v.roots[0] == 0)
    && (forall n :: n in v.open ==> n !in v.closed)
  }

  /** An edge between open nodes stays within a segment, unless it is the one being followed. */
  ghost predicate EdgesTidy<N(!new)>(v: Snapshot<N>) {
    && (forall a, b :: (a, b) in v.edges ==> (a in v.open || a in v.closed) && (b in v.open || b in v.closed))
    && (forall i, j :: 0 <= i < |v.open| && 0 <= j < |v.open| && (v.open[i], v.open[j]) in v.edges ==>
          SameSegment(v.roots, i, j) || NextOnPath(v.path, i, j))
  }

  /** Open nodes reach everything opened later, and everything in their own segment. */
  ghost predicate SegmentsConnected<N(!new)>(v: Snapshot<N>) {
    forall i, j :: 0 <= i < |v.open| && 0 <= j < |v.open| && (i <= j || SameSegment(v.roots, i, j)) ==>
      Reaches(v.edges, v.open[i], v.open[j])
  }

  ghost predicate Inv<N(!new)>(v: Snapshot<N>) {
    WellShaped(v) && EdgesTidy(v) && SegmentsConnected(v)
  }

  /** The node under examination is the last possible root. */
  ghost predicate AtRoot<N>(v: Snapshot<N>) {
    |v.path| > 0 && |v.roots| > 0 && v.path[|v.path| - 1] == v.roots[|v.roots| - 1] < |v.open|
  }

  /** The node under examination, if there is one. */
  ghost function Top<N>(v: Snapshot<N>): N
    requires |v.path| > 0 && v.path[|v.path| - 1] < |v.open|
  {
    v.open[v.path[|v.path| - 1]]
  }

  /** The edge just followed from the node under examination. At top level there is none. */
  ghost function Followed<N(!new)>(v: Snapshot<N>, node: N): Edges<N>
    requires WellShaped(v)
  {
    if v.path == [] then {} else {(Top(v), node)}
  }

  ghost function Pushed<N(!new)>(v: Snapshot<N>, node: N): Snapshot<N>
    requires WellShaped(v)
  {
    Snapshot(v.open + [node], v.roots + [|v.open|], v.path + [|v.open|], v.edges + Followed(v, node), v.closed)
  }

  /** After an edge to the open node at ix: the last `popped` indices cannot be roots any more. */
  ghost function Merged<N(!new)>(v: Snapshot<N>, ix: nat, popped: nat): Snapshot<N>
    requires WellShaped(v) && ix < |v.open| && popped <= |v.roots|
  {
    v.(roots := v.roots[..|v.roots| - popped], edges := v.edges + Followed(v, v.open[ix]))
  }

  ghost function Left<N>(v: Snapshot<N>): Snapshot<N>
    requires |v.path| > 0
  {
    v.(path := v.path[..|v.path| - 1])
  }

  ghost function OpenFrom<N>(v: Snapshot<N>, ix: nat): set<N>
    requires ix <= |v.open|
  {
    Elements(v.open[ix..])
  }

  ghost function Removed<N(!new)>(v: Snapshot<N>, ix: nat): Snapshot<N>
    requires |v.path| > 0 && |v.roots| > 0 && ix <= |v.open|
  {
    Snapshot(v.open[..ix], v.roots[..|v.roots| - 1], v.path[..|v.path| - 1], v.edges, v.closed + OpenFrom(v, ix))
  }

  /** Every open node reaches the node under examination: it was opened before it, or no root
      separates the two. */
  lemma AllReachTop<N(!new)>(v: Snapshot<N>, i: nat)
    requires Inv(v) && i < |v.open| && |v.path| > 0
    ensures Reaches(v.edges, v.open[i], Top(v))
  {
    var t := v.path[|v.path| - 1];
    if i > t {
      forall k | 0 <= k < |v.roots| ensures v.roots[k] <= t {
        assert v.roots[k] in v.path;
      }
      assert SameSegment(v.roots, i, t);
    }
  }

  lemma PathNotEmpty<N(!new)>(v: Snapshot<N>)
    requires WellShaped(v) && |v.open| > 0
    ensures |v.path| > 0 && v.path[0] == 0 && |v.roots| > 0 && v.roots[0] == 0
    ensures v.path[|v.path| - 1] < |v.open|
  {
    assert v.roots[0] in v.path;
  }

  lemma RootsNeedPath<N(!new)>(v: Snapshot<N>)
    requires WellShaped(v)
    ensures |v.roots| > 0 ==> |v.path| > 0
  {
    if |v.roots| > 0 { assert v.roots[0] in v.path; }
  }

  lemma TopInRange<N(!new)>(v: Snapshot<N>)
    requires WellShaped(v) && |v.path| > 0
    ensures |v.roots| > 0 && v.path[|v.path| - 1] < |v.open| && Distinct(v.open)
  {
  }

  lemma PushKeepsInv<N(!new)>(v: Snapshot<N>, node: N)
    requires Inv(v) && node !in v.open && node !in v.closed
    ensures Inv(Pushed(v, node))
  {
    PushWellShaped(v, node);
    PushTidy(v, node);
    forall i, j | 0 <= i <= |v.open| && 0 <= j <= |v.open| && (i <= j || SameSegment(Pushed(v, node).roots, i, j))
      ensures Reaches(Pushed(v, node).edges, Pushed(v, node).open[i], Pushed(v, node).open[j])
    {
      PushConnects(v, node, i, j);
    }
  }

  lemma PushWellShaped<N(!new)>(v: Snapshot<N>, node: N)
    requires WellShaped(v) && node !in v.open && node !in v.closed
    ensures WellShaped(Pushed(v, node))
  {
    var w := Pushed(v, node);
    forall k | 0 <= k < |v.roots| ensures v.roots[k] < |v.open| {
      assert v.roots[k] in v.path;
    }
    forall r | r in w.roots ensures r in w.path {
      if r !in v.roots { assert w.path[|v.path|] == r; }
    }
  }

  lemma PushTidy<N(!new)>(v: Snapshot<N>, node: N)
    requires WellShaped(v) && EdgesTidy(v) && node !in v.open && node !in v.closed
    ensures EdgesTidy(Pushed(v, node))
  {
    var w := Pushed(v, node);
    var n := |v.open|;
    forall i, j | 0 <= i < |w.open| && 0 <= j < |w.open| && (w.open[i], w.open[j]) in w.edges
      ensures SameSegment(w.roots, i, j) || NextOnPath(w.path, i, j)
    {
      if (w.open[i], w.open[j]) in v.edges {
        assert i < n && j < n;
        if NextOnPath(v.path, i, j) {
          var k :| 0 <= k < |v.path| - 1 && v.path[k] == i && v.path[k + 1] == j;
          assert w.path[k] == i && w.path[k + 1] == j;
        }
      } else {
        assert w.path[|v.path| - 1] == i && w.path[|v.path|] == j;
      }
    }
  }

  lemma NewestIsAlone(roots: seq<nat>, n: nat, j: nat)
    requires j < n
    ensures !SameSegment(roots + [n], n, j)
  {
    assert (roots + [n])[|roots|] == n;
  }

  lemma PushConnects<N(!new)>(v: Snapshot<N>, node: N, i: nat, j: nat)
    requires Inv(v) && i <= |v.open| && j <= |v.open|
    requires i <= j || SameSegment(Pushed(v, node).roots, i, j)
    ensures Reaches(Pushed(v, node).edges, Pushed(v, node).open[i], Pushed(v, node).open[j])
  {
    var w := Pushed(v, node);
    var n := |v.open|;
    if i == j {
      ReachesSelf(w.edges, w.open[i]);
    } else if j == n {
      PathNotEmpty(v);
      AllReachTop(v, i);
      ReachesMonotone(v.edges, w.edges, v.open[i], Top(v));
      ReachesByEdge(w.edges, Top(v), node);
      ReachesTrans(w.edges, v.open[i], Top(v), node);
    } else if i == n {
      NewestIsAlone(v.roots, n, j);
      assert false;
    } else {
      if i > j {
        forall k | 0 <= k < |v.roots| ensures v.roots[k] <= i <==> v.roots[k] <= j {
          assert w.roots[k] == v.roots[k];
        }
        assert SameSegment(v.roots, i, j);
      }
      ReachesMonotone(v.edges, w.edges, v.open[i], v.open[j]);
    }
  }

  /** The finder drops exactly the indices beyond the open node that was met again. */
  ghost predicate PopsBeyond(roots: seq<nat>, ix: nat, popped: nat) {
    && popped <= |roots|
    && (forall k :: 0 <= k < |roots| - popped ==> roots[k] <= ix)
    && (forall k :: |roots| - popped <= k < |roots| ==> roots[k] > ix)
  }

  /** The edge just followed leads to an open node. */
  ghost predicate MetAgain<N(!new)>(v: Snapshot<N>, w: Snapshot<N>, node: N)
    requires WellShaped(v)
  {
    exists ix: nat, popped: nat :: ix < |v.open| && v.open[ix] == node &&
      PopsBeyond(v.roots, ix, popped) && w == Merged(v, ix, popped)
  }

  lemma MergeKeepsInv<N(!new)>(v: Snapshot<N>, ix: nat, popped: nat)
    requires Inv(v) && ix < |v.open| && PopsBeyond(v.roots, ix, popped)
    ensures Inv(Merged(v, ix, popped))
  {
    var w := Merged(v, ix, popped);
    PathNotEmpty(v);
    var t := v.path[|v.path| - 1];
    assert t in v.path;
    assert |w.roots| > 0;
    forall r | r in w.roots ensures r in w.path {
      assert r in v.roots;
    }
    assert WellShaped(w);
    forall k | 0 <= k < |w.roots| ensures w.roots[k] <= ix && w.roots[k] <= t {
      assert w.roots[k] in v.path;
    }
    forall i, j | 0 <= i < |w.open| && 0 <= j < |w.open| && (w.open[i], w.open[j]) in w.edges
      ensures SameSegment(w.roots, i, j) || NextOnPath(w.path, i, j)
    {
      if (w.open[i], w.open[j]) in v.edges {
        if SameSegment(v.roots, i, j) {
          FewerRootsKeepSegments(v.roots, |w.roots|, i, j);
        }
      } else {
        assert i == t && j == ix;
      }
    }
    forall i, j | 0 <= i < |w.open| && 0 <= j < |w.open| && (i <= j || SameSegment(w.roots, i, j))
      ensures Reaches(w.edges, w.open[i], w.open[j])
    {
      MergeConnects(v, ix, popped, i, j);
    }
  }

  lemma MergeOpen<N(!new)>(v: Snapshot<N>, ix: nat)
    requires Inv(v) && ix < |v.open|
    ensures Increasing(v.roots)
    ensures forall popped: nat :: PopsBeyond(v.roots, ix, popped) ==> Inv(Merged(v, ix, popped))
  {
    forall popped: nat | PopsBeyond(v.roots, ix, popped) ensures Inv(Merged(v, ix, popped)) {
      MergeKeepsInv(v, ix, popped);
    }
  }

  lemma FewerRootsKeepSegments(roots: seq<nat>, kept: nat, i: nat, j: nat)
    requires kept <= |roots| && SameSegment(roots, i, j)
    ensures SameSegment(roots[..kept], i, j)
  {
  }

  lemma MergeConnects<N(!new)>(v: Snapshot<N>, ix: nat, popped: nat, i: nat, j: nat)
    requires Inv(v) && ix < |v.open| && PopsBeyond(v.roots, ix, popped)
    requires i < |v.open| && j < |v.open|
    requires i <= j || SameSegment(Merged(v, ix, popped).roots, i, j)
    ensures Reaches(Merged(v, ix, popped).edges, v.open[i], v.open[j])
  {
    var w := Merged(v, ix, popped);
    if i <= j || SameSegment(v.roots, i, j) {
      ReachesMonotone(v.edges, w.edges, v.open[i], v.open[j]);
    } else {
      // A dropped root separates j from i, so i goes round through the node met again.
      var q :| 0 <= q < |v.roots| && !(v.roots[q] <= i <==> v.roots[q] <= j);
      assert forall k :: 0 <= k < |w.roots| ==> w.roots[k] == v.roots[k];
      PathNotEmpty(v);
      AllReachTop(v, i);
      ReachesMonotone(v.edges, w.edges, v.open[i], Top(v));
      ReachesByEdge(w.edges, Top(v), v.open[ix]);
      ReachesTrans(w.edges, v.open[i], Top(v), v.open[ix]);
      if ix > j {
        forall k | 0 <= k < |v.roots| ensures v.roots[k] <= ix <==> v.roots[k] <= j {
          if k < |w.roots| { assert w.roots[k] == v.roots[k]; }
        }
        assert SameSegment(v.roots, ix, j);
      }
      ReachesMonotone(v.edges, w.edges, v.open[ix], v.open[j]);
      ReachesTrans(w.edges, v.open[i], v.open[ix], v.open[j]);
    }
  }

  /** Leaving a node that is not a root: it joins the segment of the node examined around it. */
  lemma LeaveKeepsInv<N(!new)>(v: Snapshot<N>)
    requires Inv(v) && |v.path| > 0 && !AtRoot(v)
    ensures Inv(Left(v)) && |v.path| > 1
  {
    RootsBelowTop(v);
    LeaveTidy(v);
    hide EdgesTidy, SameSegment, NextOnPath;
    assert SegmentsConnected(Left(v));
  }

  lemma RootsBelowTop<N(!new)>(v: Snapshot<N>)
    requires WellShaped(v) && |v.path| > 0 && !AtRoot(v)
    ensures |v.path| > 1 && WellShaped(Left(v))
    ensures forall q :: 0 <= q < |v.roots| ==> v.roots[q] <= v.path[|v.path| - 2]
  {
    var m := |v.path| - 1;
    PathNotEmpty(v);
    assert v.roots[|v.roots| - 1] in v.path;
    forall q | 0 <= q < |v.roots|
      ensures v.roots[q] in v.path[..m] && v.roots[q] <= v.path[m - 1]
    {
      assert v.roots[q] in v.path;
      var k :| 0 <= k < |v.path| && v.path[k] == v.roots[q];
      assert k != m;
      assert v.path[..m][k] == v.roots[q];
    }
  }

  lemma LeaveTidy<N(!new)>(v: Snapshot<N>)
    requires WellShaped(v) && EdgesTidy(v) && |v.path| > 0 && !AtRoot(v)
    ensures EdgesTidy(Left(v))
  {
    RootsBelowTop(v);
    var w := Left(v);
    var m := |v.path| - 1;
    forall i, j | 0 <= i < |w.open| && 0 <= j < |w.open| && (w.open[i], w.open[j]) in w.edges
      ensures SameSegment(w.roots, i, j) || NextOnPath(w.path, i, j)
    {
      if NextOnPath(v.path, i, j) {
        var k :| 0 <= k < |v.path| - 1 && v.path[k] == i && v.path[k + 1] == j;
        if k + 1 < m {
          assert w.path[k] == i && w.path[k + 1] == j;
        }
      }
    }
  }

  /** Leaving a root: its segment goes, the rest is untouched. */
  lemma RemoveKeepsInv<N(!new)>(v: Snapshot<N>, ix: nat)
    requires Inv(v) && AtRoot(v) && ix == v.path[|v.path| - 1]
    ensures Inv(Removed(v, ix))
    ensures Removed(v, ix).open == [] <==> Removed(v, ix).path == []
  {
    RemoveWellShaped(v, ix);
    RemoveTidy(v, ix);
    hide EdgesTidy, WellShaped;
    var w := Removed(v, ix);
    forall i, j | 0 <= i < |w.open| && 0 <= j < |w.open| && (i <= j || SameSegment(w.roots, i, j))
      ensures Reaches(w.edges, w.open[i], w.open[j])
    {
      if SameSegment(w.roots, i, j) {
        forall k | 0 <= k < |v.roots| ensures v.roots[k] <= i <==> v.roots[k] <= j {
          if k < |w.roots| { assert w.roots[k] == v.roots[k]; }
        }
        assert SameSegment(v.roots, i, j);
      }
      assert Reaches(v.edges, v.open[i], v.open[j]);
    }
  }

  lemma RemoveWellShaped<N(!new)>(v: Snapshot<N>, ix: nat)
    requires WellShaped(v) && AtRoot(v) && ix == v.path[|v.path| - 1]
    ensures WellShaped(Removed(v, ix))
    ensures Removed(v, ix).open == [] <==> Removed(v, ix).path == []
  {
    var w := Removed(v, ix);
    forall r | r in w.roots ensures r in w.path {
      assert r in v.roots && r in v.path && r < ix;
      var k :| 0 <= k < |v.path| && v.path[k] == r;
      assert w.path[k] == r;
    }
    if |w.open| > 0 {
      assert v.roots[0] == 0 && |v.roots| > 1;
      assert w.roots[0] in w.path;
    } else {
      PathNotEmpty(v);
    }
  }

  lemma RemoveTidy<N(!new)>(v: Snapshot<N>, ix: nat)
    requires WellShaped(v) && EdgesTidy(v) && AtRoot(v) && ix == v.path[|v.path| - 1]
    ensures EdgesTidy(Removed(v, ix))
  {
    var w := Removed(v, ix);
    RemainingAreBefore(v.open, ix);
    forall i, j | 0 <= i < |w.open| && 0 <= j < |w.open| && (w.open[i], w.open[j]) in w.edges
      ensures SameSegment(w.roots, i, j) || NextOnPath(w.path, i, j)
    {
      assert (v.open[i], v.open[j]) in v.edges;
      if NextOnPath(v.path, i, j) {
        var k :| 0 <= k < |v.path| - 1 && v.path[k] == i && v.path[k + 1] == j;
        assert w.path[k] == i && w.path[k + 1] == j;
      } else {
        FewerRootsKeepSegments(v.roots, |v.roots| - 1, i, j);
      }
    }
  }

  /** The segment of a root is strongly connected, and no edge followed so far leads from it to a
      node that stays open, nor into it except the one being followed. */
  lemma TopSegmentIsolated<N(!new)>(v: Snapshot<N>, ix: nat)
    requires Inv(v) && AtRoot(v) && ix == v.path[|v.path| - 1]
    ensures forall a, b :: a in v.open[ix..] && b in v.open[ix..] ==> Reaches(v.edges, a, b)
    ensures forall a, b :: a in v.open[ix..] && b in v.open[..ix] ==> (a, b) !in v.edges
    ensures forall i, b :: 0 <= i < ix && i !in v.path && b in v.open[ix..] ==> (v.open[i], b) !in v.edges
  {
    var q := |v.roots| - 1;
    forall a, b | a in v.open[ix..] && b in v.open[ix..] ensures Reaches(v.edges, a, b) {
      var i :| ix <= i < |v.open| && v.open[i] == a;
      var j :| ix <= j < |v.open| && v.open[j] == b;
      assert SameSegment(v.roots, i, j);
    }
    forall a, b | a in v.open[ix..] && b in v.open[..ix] ensures (a, b) !in v.edges {
      var i :| ix <= i < |v.open| && v.open[i] == a;
      var j :| 0 <= j < ix && v.open[j] == b;
      assert v.roots[q] <= i && !(v.roots[q] <= j);
      assert !NextOnPath(v.path, i, j);
    }
    forall i, b | 0 <= i < ix && i !in v.path && b in v.open[ix..] ensures (v.open[i], b) !in v.edges {
      var j :| ix <= j < |v.open| && v.open[j] == b;
      assert v.roots[q] <= j && !(v.roots[q] <= i);
      assert !NextOnPath(v.path, i, j);
    }
  }

  lemma RemainingAreBefore<N>(s: seq<N>, ix: nat)
    requires Distinct(s) && ix <= |s|
    ensures s[ix..|s|] == s[ix..]
    ensures forall n :: n in s && n !in s[ix..] <==> n in s[..ix]
  {
  }

  /** The map gives each open node its place on the stack, and holds nothing else. */
  ghost predicate Indexes<N(!new)>(isOpen: map<N, nat>, open: seq<N>) {
    && (forall n :: n in isOpen <==> n in open)
    && (forall i :: 0 <= i < |open| ==> isOpen[open[i]] == i)
  }

  lemma RemainingIndexed<N(!new)>(isOpen: map<N, nat>, open: seq<N>, ix: nat)
    requires Distinct(open) && ix <= |open| && Indexes(isOpen, open)
    ensures Indexes(isOpen - (set n | n in open[ix..]), open[..ix])
  {
  }

  class SCC<Node(==,!new)> {
    var open: seq<Node>           // in the order in which they were opened
    var isOpen: map<Node, nat>    // where each is in open
    var rootIndex: seq<nat>
    ghost var path: seq<nat>
    ghost var edges: Edges<Node>
    ghost var closed: set<Node>

    ghost function View(): Snapshot<Node>
      reads this
    {
      Snapshot(open, rootIndex, path, edges, closed)
    }

    ghost predicate Valid()
      reads this
    {
      && Inv(View())
      && Indexes(isOpen, open)
    }

    constructor ()
      ensures Valid() && View() == Snapshot([], [], [], {}, {})
    {
      open, isOpen, rootIndex := [], map[], [];
      path, edges, closed := [], {}, {};
    }

    predicate Empty()
      reads this
    {
      open == [] && isOpen == map[] && rootIndex == []
    }

    /** When no node is under examination, the finder carries no state. */
    lemma IdleIsEmpty()
      requires Valid() && path == []
      ensures Empty()
    {
      if open != [] { PathNotEmpty(View()); }
      RootsNeedPath(View());
      assert isOpen.Keys == {};
    }

    /** Records the edge from the node under examination to this node. If the node is new it becomes
        the node under examination and its handle is returned. Nodes already handed back must not be
        opened again. */
    method Open(node: Node) returns (handle: Option<nat>)
      requires Valid() && node !in closed
      modifies this
      ensures Valid()
      ensures handle == if old(node in open) then None else Some(|old(open)|)
      ensures old(node in open) ==> MetAgain(old(View()), View(), node)
      ensures old(node !in open) ==> View() == Pushed(old(View()), node)
    {
      ghost var v := View();
      hide EdgesTidy, SegmentsConnected, SameSegment, Reaches;
      if node in isOpen {
        var ix := isOpen[node];
        PathNotEmpty(v);
        MergeOpen(v, ix);
        hide WellShaped;
        ghost var popped := 0;
        // the segments above ix merge with the one ix lies in
        while rootIndex[|rootIndex| - 1] > ix
          invariant open == v.open && isOpen == old(isOpen) && path == v.path
          invariant edges == v.edges && closed == v.closed
          invariant popped < |v.roots| && rootIndex == v.roots[..|v.roots| - popped]
          invariant forall k :: |v.roots| - popped <= k < |v.roots| ==> v.roots[k] > ix
          decreases |rootIndex|
        {
          rootIndex := rootIndex[..|rootIndex| - 1];
          popped := popped + 1;
        }
        assert PopsBeyond(v.roots, ix, popped);
        edges := edges + Followed(v, node);
        assert View() == Merged(v, ix, popped) && MetAgain(v, View(), node);
        return None;
      }
      var ix := |isOpen|;
      OpenMapSize();
      PushKeepsInv(v, node);
      hide WellShaped;
      isOpen := isOpen[node := ix];
      edges := edges + Followed(v, node);
      path := path + [ix];
      // a segment of its own
      open := open + [node];
      rootIndex := rootIndex + [ix];
      assert View() == Pushed(v, node);
      return Some(ix);
    }

    /** The map from node to index has one entry for each open node, so its size is a fresh index. */
    lemma OpenMapSize()
      requires Valid()
      ensures |isOpen| == |open|
    {
      assert isOpen.Keys == Elements(open);
      DistinctSize(open);
    }

    /** Drops the index entries of the nodes at ix and above. */
    method Forget(ix: nat)
      requires ix <= |open|
      modifies this`isOpen
      ensures isOpen == old(isOpen) - set n | n in open[ix..]
    {
      for o := ix to |open|
        invariant isOpen == old(isOpen) - set n | n in open[ix..o]
      {
        assert open[ix..o + 1] == open[ix..o] + [open[o]];
        isOpen := isOpen - {open[o]};
      }
      assert open[ix..|open|] == open[ix..];
    }

    /** Ends the examination of the node with this handle. If it is the root of a component then the
        component is returned, otherwise nothing is. */
    method Close(ix: nat) returns (scc: seq<Node>)
      requires Valid() && |path| > 0 && ix == path[|path| - 1]
      modifies this
      ensures Valid()
      ensures old(|rootIndex| > 0 && ix < |open|)
      ensures if old(ix == rootIndex[|rootIndex| - 1])
              then scc == old(open[ix..]) && scc != [] && View() == Removed(old(View()), ix)
              else scc == [] && View() == Left(old(View()))
    {
      ghost var v := View();
      TopInRange(v);
      hide WellShaped, EdgesTidy, SegmentsConnected;
      scc := [];
      if ix == rootIndex[|rootIndex| - 1] {
        RemoveKeepsInv(v, ix);
        RemainingIndexed(isOpen, open, ix);
        hide Indexes, AtRoot;
        Forget(ix);
        scc := open[ix..];
        closed := closed + Elements(scc);
        open := open[..ix];
        rootIndex := rootIndex[..|rootIndex| - 1];
        path := path[..|path| - 1];
        assert View() == Removed(v, ix);
      } else {
        LeaveKeepsInv(v);
        path := path[..|path| - 1];
        assert View() == Left(v);
      }
    }
  }
}

/** Depth first searches that follow the finder's protocol on a graph they explore, and what the
    finder then guarantees about that graph. */
module SccSearch {
  import opened Reachability
  import opened Scc

  /** Every edge of the graph out of n was followed, or leads to a node already handed back. */
  ghost predicate Explored<N(!new)>(v: Snapshot<N>, graph: Edges<N>, n: N) {
    forall b :: (n, b) in graph ==> b in v.closed || (n, b) in v.edges
  }

  /** The finder was told of edges of this graph only, and of all those that leave nodes whose
      examination is over. */
  ghost predicate Follows<N(!new)>(v: Snapshot<N>, graph: Edges<N>) {
    && v.edges <= graph
    && ClosedUnder(graph, v.closed)
    && (forall i :: 0 <= i < |v.open| && i !in v.path ==> Explored(v, graph, v.open[i]))
  }

  /** How the finder's state may change while one more edge is followed to the end: the search
      returns to where it was, and what was open stays open. */
  ghost predicate Extends<N(!new)>(v: Snapshot<N>, w: Snapshot<N>) {
    v.path == w.path && v.open <= w.open && v.edges <= w.edges && v.closed <= w.closed
  }

  ghost function Seen<N>(v: Snapshot<N>): set<N> {
    v.closed + set n | n in v.open
  }

  /** A maximal set of nodes that all reach one another. */
  ghost predicate IsComponent<N(!new)>(graph: Edges<N>, s: set<N>) {
    s != {} && forall a, b :: a in s ==> (b in s <==> MutuallyReach(graph, a, b))
  }

  lemma PushKeepsFollows<N(!new)>(v: Snapshot<N>, graph: Edges<N>, node: N)
    requires Inv(v) && Follows(v, graph) && node !in v.open && node !in v.closed
    requires Followed(v, node) <= graph
    ensures Follows(Pushed(v, node), graph)
  {
  }

  lemma MergeKeepsFollows<N(!new)>(v: Snapshot<N>, graph: Edges<N>, ix: nat, popped: nat)
    requires Inv(v) && Follows(v, graph) && ix < |v.open| && popped <= |v.roots|
    requires Followed(v, v.open[ix]) <= graph
    ensures Follows(Merged(v, ix, popped), graph)
  {
  }

  lemma LeaveKeepsFollows<N(!new)>(v: Snapshot<N>, graph: Edges<N>)
    requires Inv(v) && Follows(v, graph) && |v.path| > 0 && !AtRoot(v)
    requires v.path[|v.path| - 1] < |v.open| && Explored(v, graph, Top(v))
    ensures Follows(Left(v), graph)
  {
  }

  /** When a root has been examined in full, what is handed back is exactly one component of the
      graph, and everything handed back so far is closed under its edges. */
  lemma CloseYieldsComponent<N(!new)>(v: Snapshot<N>, graph: Edges<N>, ix: nat)
    requires Inv(v) && Follows(v, graph) && AtRoot(v) && ix == v.path[|v.path| - 1]
    requires Explored(v, graph, Top(v))
    ensures Follows(Removed(v, ix), graph)
    ensures IsComponent(graph, OpenFrom(v, ix))
  {
    var w := Removed(v, ix);
    var scc := OpenFrom(v, ix);
    TopSegmentIsolated(v, ix);
    SegmentClosesOff(v, graph, ix);
    assert v.path == w.path + [ix];
    forall i | 0 <= i < |w.open| && i !in w.path ensures Explored(w, graph, w.open[i]) {
      assert Explored(v, graph, v.open[i]);
    }
    assert v.open[ix] in v.open[ix..] && v.open[ix] in scc;
    forall a, b | a in scc ensures b in scc <==> MutuallyReach(graph, a, b) {
      if b in scc {
        ReachesMonotone(v.edges, graph, a, b);
        ReachesMonotone(v.edges, graph, b, a);
      } else if MutuallyReach(graph, a, b) {
        ClosedSetTraps(graph, w.closed, a, b);
        ClosedSetTraps(graph, v.closed, b, a);
      }
    }
  }

  lemma SegmentClosesOff<N(!new)>(v: Snapshot<N>, graph: Edges<N>, ix: nat)
    requires Inv(v) && Follows(v, graph) && AtRoot(v) && ix == v.path[|v.path| - 1]
    requires Explored(v, graph, Top(v))
    ensures ClosedUnder(graph, Removed(v, ix).closed)
  {
    TopSegmentIsolated(v, ix);
    hide Reaches, EdgesTidy, SegmentsConnected;
    forall a, b | a in Removed(v, ix).closed && (a, b) in graph ensures b in Removed(v, ix).closed {
      if a !in v.closed {
        var i :| ix <= i < |v.open| && v.open[i] == a;
        assert i == ix || i !in v.path;
        assert Explored(v, graph, a);
        assert v.open == v.open[..ix] + v.open[ix..];
      }
    }
  }

  /** At the outermost level every node examined in full is a root. */
  lemma OutermostIsRoot<N(!new)>(v: Snapshot<N>)
    requires Inv(v) && |v.path| == 1
    ensures AtRoot(v)
  {
    if !AtRoot(v) {
      LeaveKeepsInv(v);
    }
  }

  lemma RemovedSeen<N(!new)>(w: Snapshot<N>, ix: nat)
    requires WellShaped(w) && |w.path| > 0 && |w.roots| > 0 && ix <= |w.open|
    ensures Seen(Removed(w, ix)) == Seen(w)
    ensures OpenFrom(w, ix) !! w.closed
  {
  }
}

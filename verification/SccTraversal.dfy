/** The depth first search that scc_test.cc runs over a graph given by adjacency lists. */
module SccTraversal {
  import opened Wrappers
  import opened Reachability
  import opened Scc
  import opened SccSearch

  /** The edges of a graph given by adjacency lists. */
  ghost function GraphEdges(g: seq<seq<nat>>): (edges: Edges<nat>)
    ensures forall a, b :: (a, b) in edges <==> 0 <= a < |g| && b in g[a]
  {
    set a, k | 0 <= a < |g| && 0 <= k < |g[a]| :: (a, g[a][k])
  }

  ghost predicate InRange(g: seq<seq<nat>>) {
    forall a, k :: 0 <= a < |g| && 0 <= k < |g[a]| ==> g[a][k] < |g|
  }

  ghost function Union<N(!new)>(sets: seq<set<N>>): (u: set<N>)
    ensures forall n :: n in u <==> exists k :: 0 <= k < |sets| && n in sets[k]
  {
    set k, n | 0 <= k < |sets| && n in sets[k] :: n
  }

  /** n lies in one of the sets up to the k-th. */
  ghost predicate InUpTo<N>(sets: seq<set<N>>, k: nat, n: N) {
    exists l :: 0 <= l <= k && l < |sets| && n in sets[l]
  }

  /** The sets are pairwise disjoint components, and edges lead to the same or to earlier ones. */
  ghost predicate LeavesFirst<N(!new)>(graph: Edges<N>, sccs: seq<set<N>>) {
    && (forall k :: 0 <= k < |sccs| ==> IsComponent(graph, sccs[k]))
    && (forall k, l :: 0 <= k < l < |sccs| ==> sccs[k] !! sccs[l])
    && (forall k, a, b :: 0 <= k < |sccs| && a in sccs[k] && (a, b) in graph ==> InUpTo(sccs, k, b))
  }

  lemma AppendComponent<N(!new)>(graph: Edges<N>, sccs: seq<set<N>>, s: set<N>)
    requires LeavesFirst(graph, sccs) && IsComponent(graph, s) && s !! Union(sccs)
    requires ClosedUnder(graph, Union(sccs) + s)
    ensures LeavesFirst(graph, sccs + [s]) && Union(sccs + [s]) == Union(sccs) + s
  {
    hide IsComponent;
    var more := sccs + [s];
    UnionAppend(sccs, s);
    forall k, l | 0 <= k < l < |more| ensures more[k] !! more[l] {
      assert l == |sccs| ==> sccs[k] <= Union(sccs);
    }
    forall k, a, b | 0 <= k < |more| && a in more[k] && (a, b) in graph ensures InUpTo(more, k, b) {
      if k < |sccs| {
        assert InUpTo(sccs, k, b);
        var l :| 0 <= l <= k && b in sccs[l];
        assert b in more[l];
      } else {
        assert a in Union(more) && b in Union(more);
      }
    }
  }

  lemma UnionAppend<N(!new)>(sccs: seq<set<N>>, s: set<N>)
    ensures Union(sccs + [s]) == Union(sccs) + s
  {
    var more := sccs + [s];
    assert more[|sccs|] == s && forall k :: 0 <= k < |sccs| ==> more[k] == sccs[k];
  }

  ghost function Nodes(g: seq<seq<nat>>): (nodes: set<nat>)
    ensures forall n :: n in nodes <==> 0 <= n < |g|
  {
    set n: nat {:trigger n as int} | 0 <= n < |g|
  }

  /** What holds between any two steps of the search. */
  ghost predicate Sound(g: seq<seq<nat>>, v: Snapshot<nat>, sccs: seq<set<nat>>) {
    && Inv(v) && Follows(v, GraphEdges(g))
    && v.closed == Union(sccs) && LeavesFirst(GraphEdges(g), sccs)
    && Seen(v) <= Nodes(g)
  }

  /** The search followed an edge to this node and came back. */
  ghost predicate CameBack<N(!new)>(v: Snapshot<N>, w: Snapshot<N>, node: N)
    requires WellShaped(v)
  {
    && Extends(v, w) && Seen(v) <= Seen(w)
    && (node in w.closed || (node in w.open && Followed(v, node) <= w.edges))
    && (v.path == [] ==> w.open == [] && node in w.closed)
  }

  /** The edges to the first k neighbours have been followed. */
  ghost predicate ExploredUpTo<N(!new)>(v: Snapshot<N>, node: N, neighbours: seq<N>, k: nat) {
    forall j :: 0 <= j < k && j < |neighbours| ==> neighbours[j] in v.closed || (node, neighbours[j]) in v.edges
  }

  lemma SoundFacts(g: seq<seq<nat>>, v: Snapshot<nat>, sccs: seq<set<nat>>)
    requires Sound(g, v, sccs)
    ensures Inv(v) && WellShaped(v) && v.closed == Union(sccs)
    ensures v.open == [] <==> v.path == []
  {
    if v.open != [] { PathNotEmpty(v); } else if v.path != [] { TopInRange(v); }
  }

  lemma TopLevelDone(g: seq<seq<nat>>, v: Snapshot<nat>, sccs: seq<set<nat>>)
    requires Sound(g, v, sccs) && v.path == []
    ensures LeavesFirst(GraphEdges(g), sccs) && v.closed == Union(sccs) && v.closed <= Nodes(g)
  {
  }

  lemma OpenedNew(g: seq<seq<nat>>, v: Snapshot<nat>, sccs: seq<set<nat>>, node: nat)
    requires Sound(g, v, sccs) && node !in v.open && node !in v.closed && node < |g|
    requires Followed(v, node) <= GraphEdges(g)
    ensures Sound(g, Pushed(v, node), sccs)
    ensures Seen(Pushed(v, node)) == Seen(v) + {node} && node !in Seen(v)
  {
    PushKeepsInv(v, node);
    PushKeepsFollows(v, GraphEdges(g), node);
  }

  lemma MetAgainCameBack(g: seq<seq<nat>>, v: Snapshot<nat>, w: Snapshot<nat>, sccs: seq<set<nat>>, node: nat)
    requires Sound(g, v, sccs) && Followed(v, node) <= GraphEdges(g)
    requires MetAgain(v, w, node)
    ensures Sound(g, w, sccs) && CameBack(v, w, node)
  {
    var ix: nat, popped: nat :| ix < |v.open| && v.open[ix] == node &&
      PopsBeyond(v.roots, ix, popped) && w == Merged(v, ix, popped);
    MergeKeepsInv(v, ix, popped);
    MergeKeepsFollows(v, GraphEdges(g), ix, popped);
    PathNotEmpty(v);
  }

  lemma NothingToDo<N(!new)>(v: Snapshot<N>, node: N)
    requires WellShaped(v) && node in v.closed && (v.path == [] ==> v.open == [])
    ensures CameBack(v, v, node)
  {
  }

  lemma ExploredNothing<N(!new)>(v: Snapshot<N>, node: N, neighbours: seq<N>)
    ensures ExploredUpTo(v, node, neighbours, 0)
  {
  }

  /** Following one more edge from the node under examination. */
  lemma NextNeighbour(v: Snapshot<nat>, w: Snapshot<nat>, x: Snapshot<nat>, neighbours: seq<nat>, k: nat)
    requires WellShaped(v) && WellShaped(w) && |v.path| > 0 && v.path[|v.path| - 1] < |v.open|
    requires Extends(v, w) && Seen(v) <= Seen(w) && ExploredUpTo(w, Top(v), neighbours, k)
    requires k < |neighbours| && CameBack(w, x, neighbours[k])
    ensures Extends(v, x) && Seen(v) <= Seen(x) && ExploredUpTo(x, Top(v), neighbours, k + 1)
  {
  }

  /** The view v in which the node was met, p with the node opened, w with all its edges followed. */
  lemma LeftUnclosed(g: seq<seq<nat>>, v: Snapshot<nat>, w: Snapshot<nat>, sccs: seq<set<nat>>, node: nat)
    requires WellShaped(v) && Sound(g, w, sccs) && node < |g|
    requires Extends(Pushed(v, node), w) && Seen(v) + {node} <= Seen(w)
    requires ExploredUpTo(w, node, g[node], |g[node]|) && !AtRoot(w)
    ensures Sound(g, Left(w), sccs) && CameBack(v, Left(w), node)
  {
    assert w.open[|v.open|] == node;
    assert Explored(w, GraphEdges(g), Top(w));
    LeaveKeepsInv(w);
    LeaveKeepsFollows(w, GraphEdges(g));
  }

  lemma LeftClosed(g: seq<seq<nat>>, v: Snapshot<nat>, w: Snapshot<nat>, sccs: seq<set<nat>>, node: nat)
    requires WellShaped(v) && Sound(g, w, sccs) && node < |g|
    requires Extends(Pushed(v, node), w) && Seen(v) + {node} <= Seen(w)
    requires v.path == [] ==> v.open == []
    requires ExploredUpTo(w, node, g[node], |g[node]|) && AtRoot(w)
    ensures CameBack(v, Removed(w, |v.open|), node)
    ensures Sound(g, Removed(w, |v.open|), sccs + [OpenFrom(w, |v.open|)])
  {
    var ix := |v.open|;
    assert w.open[ix] == node;
    assert Explored(w, GraphEdges(g), Top(w));
    hide Inv;
    RemovedSound(g, w, sccs, ix);
    RemovedCameBack(v, w, node);
  }

  lemma HandleIsTop<N(!new)>(v: Snapshot<N>, w: Snapshot<N>, node: N)
    requires WellShaped(v) && WellShaped(w) && Extends(Pushed(v, node), w)
    ensures |w.path| > 0 && |w.roots| > 0 && w.path[|w.path| - 1] == |v.open| < |w.open|
  {
  }

  lemma RemovedCameBack<N(!new)>(v: Snapshot<N>, w: Snapshot<N>, node: N)
    requires WellShaped(v) && WellShaped(w) && |w.roots| > 0
    requires Extends(Pushed(v, node), w) && Seen(v) <= Seen(w)
    requires v.path == [] ==> v.open == []
    ensures CameBack(v, Removed(w, |v.open|), node)
  {
    var x := Removed(w, |v.open|);
    assert w.open[|v.open|] == node && node in w.open[|v.open|..];
    RemovedSeen(w, |v.open|);
    hide Seen, WellShaped;
    assert x.open == v.open && x.path == v.path;
  }

  lemma RemovedSound(g: seq<seq<nat>>, w: Snapshot<nat>, sccs: seq<set<nat>>, ix: nat)
    requires Sound(g, w, sccs) && AtRoot(w) && ix == w.path[|w.path| - 1]
    requires Explored(w, GraphEdges(g), Top(w))
    ensures Sound(g, Removed(w, ix), sccs + [OpenFrom(w, ix)])
  {
    CloseYieldsComponent(w, GraphEdges(g), ix);
    RemoveKeepsInv(w, ix);
    RemovedSeen(w, ix);
    assert ClosedUnder(GraphEdges(g), Removed(w, ix).closed);
    hide Inv, Follows, IsComponent, LeavesFirst, Seen, Explored;
    AppendComponent(GraphEdges(g), sccs, OpenFrom(w, ix));
  }

  class Traversal {
    const g: seq<seq<nat>>
    const scc: SCC<nat>
    var visited: set<nat>
    var sccs: seq<set<nat>>

    ghost predicate Valid()
      reads this, scc
    {
      InRange(g) && scc.Valid() && visited == scc.closed && Sound(g, scc.View(), sccs)
    }

    constructor (g: seq<seq<nat>>)
      requires InRange(g)
      ensures Valid() && fresh(scc) && this.g == g && scc.View() == Snapshot([], [], [], {}, {})
    {
      this.g := g;
      scc := new SCC<nat>();
      visited, sccs := {}, [];
    }

    /** One call of the depth first search: the node ends up handed back, or open with the edge to it
        on record. At the outermost level it is handed back and the finder is empty again. */
    method Dfs(node: nat)
      requires Valid() && node < |g|
      requires Inv(scc.View()) && Followed(scc.View(), node) <= GraphEdges(g)
      modifies this, scc
      ensures Valid() && old(Inv(scc.View())) && CameBack(old(scc.View()), scc.View(), node)
      ensures old(sccs) <= sccs
      decreases Nodes(g) - Seen(scc.View()), 0
    {
      ghost var v := scc.View();
      SoundFacts(g, v, sccs);
      hide Inv, Sound, WellShaped, SCC.Valid, MetAgain, Extends, Followed, Seen;
      if node in visited {
        NothingToDo(v, node);
        return;
      }
      var handle := scc.Open(node);
      if handle == None {
        MetAgainCameBack(g, v, scc.View(), sccs, node);
        return;
      }
      OpenedNew(g, v, sccs, node);
      Examine(v, node);
      Finish(v, node, handle.value);
    }

    method Examine(ghost v: Snapshot<nat>, node: nat)
      requires Valid() && node < |g| && WellShaped(v)
      requires scc.View() == Pushed(v, node)
      modifies this, scc
      ensures Valid() && Extends(Pushed(v, node), scc.View())
      ensures Seen(Pushed(v, node)) <= Seen(scc.View()) && old(sccs) <= sccs
      ensures ExploredUpTo(scc.View(), node, g[node], |g[node]|)
      decreases Nodes(g) - Seen(scc.View()), 1
    {
      ghost var p := scc.View();
      hide Inv, Sound, WellShaped, SCC.Valid, ExploredUpTo;
      assert ExploredUpTo(p, node, g[node], 0) by { ExploredNothing(p, node, g[node]); }
      for k := 0 to |g[node]|
        invariant Valid() && Extends(p, scc.View())
        invariant Seen(p) <= Seen(scc.View()) && old(sccs) <= sccs
        invariant ExploredUpTo(scc.View(), node, g[node], k)
      {
        ghost var w := scc.View();
        SoundFacts(g, w, sccs);
        Dfs(g[node][k]);
        NextNeighbour(p, w, scc.View(), g[node], k);
      }
    }

    /** The end of the examination of a node. */
    method Finish(ghost v: Snapshot<nat>, node: nat, handle: nat)
      requires Valid() && node < |g| && WellShaped(v) && handle == |v.open|
      requires Extends(Pushed(v, node), scc.View()) && Seen(v) + {node} <= Seen(scc.View())
      requires v.path == [] ==> v.open == []
      requires ExploredUpTo(scc.View(), node, g[node], |g[node]|)
      modifies this, scc
      ensures Valid() && CameBack(v, scc.View(), node)
      ensures old(sccs) <= sccs
    {
      hide Inv, Sound, SCC.Valid, Extends, Seen, ExploredUpTo, Pushed, WellShaped, CameBack;
      ghost var w := scc.View();
      SoundFacts(g, w, sccs);
      HandleIsTop(v, w, node);
      var nodes := scc.Close(handle);
      if nodes != [] {
        LeftClosed(g, v, w, sccs, node);
        var component := set n | n in nodes;
        assert component == OpenFrom(w, handle);
        visited := visited + component;
        sccs := sccs + [component];
      } else {
        LeftUnclosed(g, v, w, sccs, node);
      }
    }
  }

  /** Searching from every node in turn finds all the components: every node lies in exactly one of
      the sets, which come out leaves first, and the finder is empty after each search. */
  method Process(g: seq<seq<nat>>) returns (sccs: seq<set<nat>>)
    requires InRange(g)
    ensures LeavesFirst(GraphEdges(g), sccs)
    ensures Union(sccs) == Nodes(g)
  {
    hide Inv, Sound, WellShaped, SCC.Valid, LeavesFirst;
    var t := new Traversal(g);
    for o := 0 to |g|
      invariant t.Valid() && fresh(t) && fresh(t.scc) && t.g == g
      invariant t.scc.View().path == []
      invariant forall n :: 0 <= n < o ==> n in t.visited
    {
      SoundFacts(g, t.scc.View(), t.sccs);
      t.Dfs(o);
      assert t.scc.open == [];
    }
    sccs := t.sccs;
    TopLevelDone(g, t.scc.View(), sccs);
  }
}

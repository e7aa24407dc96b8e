/** Walks, reachability and acyclicity in finite directed graphs given by their edges. */
module Reachability {
  import opened Sequences

  type Edges<N(==)> = set<(N, N)>

  ghost predicate IsWalk<N>(edges: Edges<N>, walk: seq<N>) {
    && |walk| > 0
    && forall k :: 0 <= k < |walk| - 1 ==> (walk[k], walk[k + 1]) in edges
  }

  ghost predicate WalkBetween<N>(edges: Edges<N>, a: N, walk: seq<N>, b: N) {
    IsWalk(edges, walk) && walk[0] == a && walk[|walk| - 1] == b
  }

  /** There is a walk, possibly of length zero, from a to b. */
  ghost predicate Reaches<N(!new)>(edges: Edges<N>, a: N, b: N) {
    exists walk :: WalkBetween(edges, a, walk, b)
  }

  ghost predicate MutuallyReach<N(!new)>(edges: Edges<N>, a: N, b: N) {
    Reaches(edges, a, b) && Reaches(edges, b, a)
  }

  /** No edge leads out of the set. */
  ghost predicate ClosedUnder<N(!new)>(edges: Edges<N>, s: set<N>) {
    forall a, b :: a in s && (a, b) in edges ==> b in s
  }

  /** No edge lies on a cycle. */
  ghost predicate Acyclic<N(!new)>(edges: Edges<N>) {
    forall a, b :: (a, b) in edges ==> !Reaches(edges, b, a)
  }

  lemma ReachesSelf<N(!new)>(edges: Edges<N>, a: N)
    ensures Reaches(edges, a, a)
  {
    assert WalkBetween(edges, a, [a], a);
  }

  lemma ReachesByEdge<N(!new)>(edges: Edges<N>, a: N, b: N)
    requires (a, b) in edges
    ensures Reaches(edges, a, b)
  {
    assert WalkBetween(edges, a, [a, b], b);
  }

  lemma ReachesTrans<N(!new)>(edges: Edges<N>, a: N, b: N, c: N)
    requires Reaches(edges, a, b) && Reaches(edges, b, c)
    ensures Reaches(edges, a, c)
  {
    var p :| WalkBetween(edges, a, p, b);
    var q :| WalkBetween(edges, b, q, c);
    var walk := p + q[1..];
    forall k | 0 <= k < |walk| - 1
      ensures (walk[k], walk[k + 1]) in edges
    {
      if k >= |p| - 1 {
        assert walk[k] == q[k - |p| + 1] && walk[k + 1] == q[k - |p| + 2];
      }
    }
    assert WalkBetween(edges, a, walk, c);
  }

  lemma ReachesStep<N(!new)>(edges: Edges<N>, a: N, b: N, c: N)
    requires (a, b) in edges && Reaches(edges, b, c)
    ensures Reaches(edges, a, c)
  {
    ReachesByEdge(edges, a, b);
    ReachesTrans(edges, a, b, c);
  }

  /** A walk that leads elsewhere begins with an edge. */
  lemma FirstStep<N(!new)>(edges: Edges<N>, a: N, c: N) returns (b: N)
    requires Reaches(edges, a, c) && a != c
    ensures (a, b) in edges && Reaches(edges, b, c)
  {
    var p :| WalkBetween(edges, a, p, c);
    b := p[1];
    assert WalkBetween(edges, b, p[1..], c);
  }

  lemma ReachesMonotone<N(!new)>(fewer: Edges<N>, more: Edges<N>, a: N, b: N)
    requires fewer <= more && Reaches(fewer, a, b)
    ensures Reaches(more, a, b)
  {
    var p :| WalkBetween(fewer, a, p, b);
    assert WalkBetween(more, a, p, b);
  }

  /** A walk that starts in a closed set stays there. */
  lemma {:induction false} ClosedSetTraps<N(!new)>(edges: Edges<N>, s: set<N>, a: N, b: N)
    requires ClosedUnder(edges, s) && a in s && Reaches(edges, a, b)
    ensures b in s
  {
    var p :| WalkBetween(edges, a, p, b);
    WalkStaysInside(edges, s, p);
  }

  lemma {:induction false} WalkStaysInside<N(!new)>(edges: Edges<N>, s: set<N>, walk: seq<N>)
    requires ClosedUnder(edges, s) && IsWalk(edges, walk) && walk[0] in s
    ensures walk[|walk| - 1] in s
    decreases |walk|
  {
    if |walk| > 1 {
      assert (walk[0], walk[1]) in edges;
      WalkStaysInside(edges, s, walk[1..]);
    }
  }

  /** Everything reachable from a: finite, because apart from a itself it holds only edge targets. */
  ghost function ReachSet<N(!new)>(edges: Edges<N>, a: N): (s: set<N>)
    ensures forall b :: b in s <==> Reaches(edges, a, b)
  {
    var targets := {a} + set e | e in edges :: e.1;
    assert forall b :: Reaches(edges, a, b) ==> b in targets by {
      assert ClosedUnder(edges, targets);
      forall b | Reaches(edges, a, b) ensures b in targets {
        ClosedSetTraps(edges, targets, a, b);
      }
    }
    set b | b in targets && Reaches(edges, a, b)
  }

  /** In an acyclic graph the number of reachable nodes falls along every edge, so it can serve as a
      termination measure for anything that follows edges. */
  lemma ReachSetShrinks<N(!new)>(edges: Edges<N>, a: N, b: N)
    requires Acyclic(edges) && (a, b) in edges
    ensures |ReachSet(edges, b)| < |ReachSet(edges, a)|
  {
    EdgeGoesDown(edges, a, b);
  }

  lemma EdgeGoesDown<N(!new)>(edges: Edges<N>, a: N, b: N)
    requires (a, b) in edges && !Reaches(edges, b, a)
    ensures |ReachSet(edges, b)| < |ReachSet(edges, a)|
  {
    forall c | c in ReachSet(edges, b) ensures c in ReachSet(edges, a) {
      ReachesStep(edges, a, b, c);
    }
    ReachesSelf(edges, a);
    assert a in ReachSet(edges, a) && a !in ReachSet(edges, b);
    ProperSubsetIsSmaller(ReachSet(edges, b), ReachSet(edges, a));
  }

  lemma ProperSubsetIsSmaller<T>(s: set<T>, t: set<T>)
    requires s < t
    ensures |s| < |t|
  {
    var x :| x in t && x !in s;
    SubsetSize(s, t - {x});
  }

  // ---- measures ----

  ghost predicate FallsAlong<N(!new)>(measure: N -> nat, edges: Edges<N>) {
    forall x, y :: (x, y) in edges ==> measure(y) < measure(x)
  }

  lemma {:induction false} MeasureFalls<N(!new)>(edges: Edges<N>, measure: N -> nat, a: N, b: N)
    requires FallsAlong(measure, edges) && Reaches(edges, a, b)
    ensures a == b || measure(b) < measure(a)
    decreases measure(a)
  {
    if a != b {
      var m := FirstStep(edges, a, b);
      MeasureFalls(edges, measure, m, b);
    }
  }

  lemma MeasuredIsAcyclic<N(!new)>(edges: Edges<N>, measure: N -> nat)
    requires FallsAlong(measure, edges)
    ensures Acyclic(edges)
  {
    forall a, b | (a, b) in edges ensures !Reaches(edges, b, a) {
      if Reaches(edges, b, a) { MeasureFalls(edges, measure, b, a); }
    }
  }
}

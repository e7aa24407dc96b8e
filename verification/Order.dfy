/** Reconciling two orderings (order.h): ExtendOrder merges them greedily, Permute rearranges in
    place, Reorder puts the two together. */
module Order {
  import opened Wrappers
  import opened Reachability
  import opened Sequences

  // ---- ExtendOrder ----

  /** Where v first occurs. */
  function Find<T(==)>(s: seq<T>, v: T): (at: Option<nat>)
    ensures at.Some? ==> at.value < |s| && s[at.value] == v && v !in s[..at.value]
    ensures at.None? ==> v !in s
  {
    if s == [] then None
    else if s[0] == v then Some(0)
    else
      match Find(s[1..], v)
      case None => None
      case Some(k) =>
        assert s[..k + 1] == [s[0]] + s[1..][..k];
        Some(k + 1)
  }

  /** A merge in progress: the ordering so far, where the next new value goes, and which values of the
      second ordering have constrained it. */
  datatype Merge<T> = Merge(order: seq<T>, pos: nat, kept: seq<T>)

  function MergeStep<T(==)>(m: Merge<T>, v: T): (r: Merge<T>)
    requires m.pos <= |m.order|
    ensures r.pos <= |r.order|
  {
    match Find(m.order, v)
    case None => Merge(Insert(m.order, m.pos, v), m.pos + 1, m.kept + [v])
    case Some(found) =>
      if m.pos <= found then m.(pos := found + 1, kept := m.kept + [v]) else m
  }

  function Extended<T(==)>(indexes1: seq<T>, indexes2: seq<T>): (r: Merge<T>)
    ensures r.pos <= |r.order|
  {
    if indexes2 == [] then Merge(indexes1, 0, [])
    else MergeStep(Extended(indexes1, indexes2[..|indexes2| - 1]), indexes2[|indexes2| - 1])
  }

  /** Updates the first ordering with items from the second, in place in the source. */
  method ExtendOrder<T(==)>(indexes1: seq<T>, indexes2: seq<T>) returns (order: seq<T>)
    ensures order == Extended(indexes1, indexes2).order
  {
    order := indexes1;
    // everything before pos stays before whatever is inserted from now on
    var pos := 0;
    for i := 0 to |indexes2|
      invariant pos <= |order|
      invariant order == Extended(indexes1, indexes2[..i]).order && pos == Extended(indexes1, indexes2[..i]).pos
    {
      var value := indexes2[i];
      assert indexes2[..i + 1][..i] == indexes2[..i];
      var found := Find(order, value);
      if found == None {
        order := Insert(order, pos, value);
        pos := pos + 1;
      } else if pos <= found.value {
        pos := found.value + 1;
      }
    }
    assert indexes2[..|indexes2|] == indexes2;
  }

  /** x is the first element of s, or comes directly after its predecessor p. */
  ghost predicate DirectlyAfter<T>(s: seq<T>, p: Option<T>, x: T) {
    match p
    case None => |s| > 0 && s[0] == x
    case Some(y) => exists i :: 0 < i < |s| && s[i - 1] == y && s[i] == x
  }

  ghost function Predecessor<T>(s: seq<T>, k: nat): Option<T>
    requires k < |s|
  {
    if k == 0 then None else Some(s[k - 1])
  }

  /** Everything from both orderings, each value once. */
  ghost predicate Unites<T(!new)>(order: seq<T>, indexes1: seq<T>, indexes2: seq<T>) {
    Distinct(order) && forall v :: v in order <==> v in indexes1 || v in indexes2
  }

  /** Each new value comes directly after the kept value before it in the second ordering. */
  ghost predicate NewValuesPlaced<T(!new)>(order: seq<T>, kept: seq<T>, indexes1: seq<T>) {
    forall k :: 0 <= k < |kept| && kept[k] !in indexes1 ==>
      DirectlyAfter(order, Predecessor(kept, k), kept[k])
  }

  /** The order of a value of indexes2 is only ignored when the value is in indexes1, and already comes
      before some kept value that should precede it. */
  ghost predicate DropsOvertaken<T(!new)>(order: seq<T>, kept: seq<T>, indexes1: seq<T>, indexes2: seq<T>) {
    forall j :: 0 <= j < |indexes2| && indexes2[j] !in kept ==>
      indexes2[j] in indexes1 && Overtaken(order, kept, indexes2, j)
  }

  /** What a reconciliation of two orderings is. The first ordering stays intact, and so does the kept
      part of the second. */
  ghost predicate Reconciles<T(!new)>(order: seq<T>, kept: seq<T>, indexes1: seq<T>, indexes2: seq<T>) {
    && Unites(order, indexes1, indexes2)
    && IsSubsequence(indexes1, order)
    && IsSubsequence(kept, order) && IsSubsequence(kept, indexes2)
    && NewValuesPlaced(order, kept, indexes1)
    && DropsOvertaken(order, kept, indexes1, indexes2)
  }

  /** The value at j comes before a kept value that precedes it in indexes2. */
  ghost predicate Overtaken<T>(order: seq<T>, kept: seq<T>, indexes2: seq<T>, j: nat)
    requires j < |indexes2|
  {
    exists i :: 0 <= i < j && indexes2[i] in kept && Before(order, indexes2[j], indexes2[i])
  }

  /** Additionally, while the merge runs: the insertion point is directly after the last kept value. */
  ghost predicate MergeInv<T(!new)>(m: Merge<T>, indexes1: seq<T>, indexes2: seq<T>) {
    && m.pos <= |m.order|
    && Reconciles(m.order, m.kept, indexes1, indexes2)
    && IsSubsequence(m.kept, m.order[..m.pos])
    && (if m.kept == [] then m.pos == 0
        else m.pos > 0 && m.order[m.pos - 1] == m.kept[|m.kept| - 1])
  }

  lemma {:induction false} ExtendedReconciles<T(!new)>(indexes1: seq<T>, indexes2: seq<T>)
    requires Distinct(indexes1) && Distinct(indexes2)
    ensures MergeInv(Extended(indexes1, indexes2), indexes1, indexes2)
    decreases |indexes2|
  {
    hide MergeInv;
    if indexes2 == [] {
      NothingExtended(indexes1);
    } else {
      var n := |indexes2| - 1;
      ExtendedReconciles(indexes1, indexes2[..n]);
      MergeStepReconciles(Extended(indexes1, indexes2[..n]), indexes1, indexes2[..n], indexes2[n]);
      assert indexes2 == indexes2[..n] + [indexes2[n]];
    }
  }

  lemma NothingExtended<T(!new)>(order: seq<T>)
    requires Distinct(order)
    ensures MergeInv(Merge(order, 0, []), order, [])
  {
    hide IsSubsequence;
    SelfSubsequence(order);
    EmptySubsequence(order);
    EmptySubsequence<T>([]);
    assert order[..0] == [];
  }

  lemma MergeStepReconciles<T(!new)>(m: Merge<T>, indexes1: seq<T>, indexes2: seq<T>, v: T)
    requires MergeInv(m, indexes1, indexes2) && v !in indexes2
    ensures MergeInv(MergeStep(m, v), indexes1, indexes2 + [v])
  {
    hide Reconciles, IsSubsequence;
    match Find(m.order, v)
    case None =>
      NewValueReconciles(m, indexes1, indexes2, v);
    case Some(found) =>
      if m.pos <= found {
        KeptValueReconciles(m, indexes1, indexes2, v, found);
      } else {
        DroppedValueReconciles(m, indexes1, indexes2, v, found);
      }
  }

  lemma PlacedStable<T(!new)>(order: seq<T>, pos: nat, kept: seq<T>, indexes1: seq<T>, v: T)
    requires Distinct(order) && pos <= |order| && IsSubsequence(kept, order[..pos])
    requires NewValuesPlaced(order, kept, indexes1)
    requires if kept == [] then pos == 0 else pos > 0 && order[pos - 1] == kept[|kept| - 1]
    ensures NewValuesPlaced(Insert(order, pos, v), kept + [v], indexes1)
  {
    var more := Insert(order, pos, v);
    var f :| Embeds(f, kept, order[..pos]);
    forall k | 0 <= k < |kept + [v]| && (kept + [v])[k] !in indexes1
      ensures DirectlyAfter(more, Predecessor(kept + [v], k), (kept + [v])[k])
    {
      if k == |kept| {
        assert more[pos] == v && (pos > 0 ==> more[pos - 1] == order[pos - 1]);
      } else {
        assert order[f[k]] == kept[k] && f[k] < pos;
        assert DirectlyAfter(order, Predecessor(kept, k), kept[k]);
        if k > 0 {
          var i :| 0 < i < |order| && order[i - 1] == kept[k - 1] && order[i] == kept[k];
          assert i == f[k];
          assert more[i - 1] == kept[k - 1] && more[i] == kept[k];
        }
      }
    }
  }

  lemma OvertakenStable<T>(order: seq<T>, more: seq<T>, kept: seq<T>, indexes2: seq<T>, v: T, w: seq<T>, j: nat)
    requires j < |indexes2| && Overtaken(order, kept, indexes2, j) && IsSubsequence(order, more)
    ensures Overtaken(more, kept + w, indexes2 + [v], j)
  {
    var i :| 0 <= i < j && indexes2[i] in kept && Before(order, indexes2[j], indexes2[i]);
    SubsequenceBefore(order, more, indexes2[j], indexes2[i]);
    assert (indexes2 + [v])[i] == indexes2[i] && (indexes2 + [v])[j] == indexes2[j];
  }

  lemma DropsStable<T(!new)>(order: seq<T>, more: seq<T>, kept: seq<T>, indexes1: seq<T>, indexes2: seq<T>, v: T)
    requires DropsOvertaken(order, kept, indexes1, indexes2) && IsSubsequence(order, more)
    ensures DropsOvertaken(more, kept + [v], indexes1, indexes2 + [v])
  {
    hide Overtaken, IsSubsequence;
    forall j | 0 <= j < |indexes2 + [v]| && (indexes2 + [v])[j] !in kept + [v]
      ensures (indexes2 + [v])[j] in indexes1 && Overtaken(more, kept + [v], indexes2 + [v], j)
    {
      assert j < |indexes2|;
      OvertakenStable(order, more, kept, indexes2, v, [v], j);
    }
  }

  lemma NewValueReconciles<T(!new)>(m: Merge<T>, indexes1: seq<T>, indexes2: seq<T>, v: T)
    requires MergeInv(m, indexes1, indexes2) && v !in m.order
    ensures MergeInv(Merge(Insert(m.order, m.pos, v), m.pos + 1, m.kept + [v]), indexes1, indexes2 + [v])
  {
    hide IsSubsequence, NewValuesPlaced, DropsOvertaken;
    var order := Insert(m.order, m.pos, v);
    SelfSubsequence(m.order);
    SubsequenceInsert(m.order, m.order, m.pos, v);
    SubsequenceInsert(indexes1, m.order, m.pos, v);
    assert order[..m.pos + 1] == m.order[..m.pos] + [] + [v];
    SubsequenceAppend(m.kept, m.order[..m.pos], [], v);
    assert order == order[..m.pos + 1] + m.order[m.pos..];
    SubsequencePrefix(m.kept + [v], order[..m.pos + 1], m.order[m.pos..]);
    assert indexes2 + [v] == indexes2 + [] + [v];
    SubsequenceAppend(m.kept, indexes2, [], v);
    PlacedStable(m.order, m.pos, m.kept, indexes1, v);
    DropsStable(m.order, order, m.kept, indexes1, indexes2, v);
  }

  lemma KeptValueReconciles<T(!new)>(m: Merge<T>, indexes1: seq<T>, indexes2: seq<T>, v: T, found: nat)
    requires MergeInv(m, indexes1, indexes2) && v !in indexes2
    requires m.pos <= found < |m.order| && m.order[found] == v
    ensures MergeInv(m.(pos := found + 1, kept := m.kept + [v]), indexes1, indexes2 + [v])
  {
    hide IsSubsequence, DropsOvertaken;
    assert m.order[..found + 1] == m.order[..m.pos] + m.order[m.pos..found] + [v];
    SubsequenceAppend(m.kept, m.order[..m.pos], m.order[m.pos..found], v);
    assert m.order == m.order[..found + 1] + m.order[found + 1..];
    SubsequencePrefix(m.kept + [v], m.order[..found + 1], m.order[found + 1..]);
    assert indexes2 + [v] == indexes2 + [] + [v];
    SubsequenceAppend(m.kept, indexes2, [], v);
    SelfSubsequence(m.order);
    DropsStable(m.order, m.order, m.kept, indexes1, indexes2, v);
  }

  lemma DroppedValueReconciles<T(!new)>(m: Merge<T>, indexes1: seq<T>, indexes2: seq<T>, v: T, found: nat)
    requires MergeInv(m, indexes1, indexes2) && v !in indexes2
    requires found < m.pos && m.order[found] == v
    ensures MergeInv(m, indexes1, indexes2 + [v])
  {
    hide IsSubsequence, NewValuesPlaced;
    SubsequencePrefix(m.kept, indexes2, [v]);
    SelfSubsequence(m.order);
    forall j | 0 <= j < |indexes2 + [v]| && (indexes2 + [v])[j] !in m.kept
      ensures (indexes2 + [v])[j] in indexes1 && Overtaken(m.order, m.kept, indexes2 + [v], j)
    {
      if j < |indexes2| {
        OvertakenStable(m.order, m.order, m.kept, indexes2, v, [], j);
        assert m.kept + [] == m.kept;
      } else {
        var u := m.kept[|m.kept| - 1];
        KeptComeFromSecond(m.kept, indexes2, u);
        var i :| 0 <= i < |indexes2| && indexes2[i] == u;
        assert m.order[found] == v && m.order[m.pos - 1] == u && found < m.pos - 1;
        assert (indexes2 + [v])[i] == u;
      }
    }
  }

  lemma KeptComeFromSecond<T>(kept: seq<T>, indexes2: seq<T>, u: T)
    requires IsSubsequence(kept, indexes2) && u in kept
    ensures u in indexes2
  {
  }

  /** The two orderings agree on what they have in common. */
  ghost predicate Compatible<T>(indexes1: seq<T>, indexes2: seq<T>) {
    forall i, j :: 0 <= i < j < |indexes2| && indexes2[i] in indexes1 && indexes2[j] in indexes1 ==>
      Before(indexes1, indexes2[i], indexes2[j])
  }

  /** The second ordering survives exactly when it is compatible with the first. */
  lemma KeepsAllIffCompatible<T(!new)>(order: seq<T>, kept: seq<T>, indexes1: seq<T>, indexes2: seq<T>)
    requires Reconciles(order, kept, indexes1, indexes2) && Distinct(indexes1) && Distinct(indexes2)
    ensures IsSubsequence(indexes2, order) <==> Compatible(indexes1, indexes2)
    ensures Compatible(indexes1, indexes2) ==> kept == indexes2
  {
    if IsSubsequence(indexes2, order) {
      forall i, j | 0 <= i < j < |indexes2| && indexes2[i] in indexes1 && indexes2[j] in indexes1
        ensures Before(indexes1, indexes2[i], indexes2[j])
      {
        assert Before(indexes2, indexes2[i], indexes2[j]);
        SubsequenceBefore(indexes2, order, indexes2[i], indexes2[j]);
        BeforeInSubsequence(indexes1, order, indexes2[i], indexes2[j]);
      }
    }
    if Compatible(indexes1, indexes2) {
      forall j | 0 <= j < |indexes2| ensures indexes2[j] in kept {
        if indexes2[j] !in kept {
          var i :| 0 <= i < j && indexes2[i] in kept && Before(order, indexes2[j], indexes2[i]);
          NeverOvertaken(order, kept, indexes1, indexes2, i, j);
        }
      }
      FullSubsequence(kept, indexes2);
    }
  }

  /** No kept value is overtaken by a later common one: going back from a new value to the kept value
      directly before it always ends, at a common value or at the front. */
  lemma {:induction false} NeverOvertaken<T(!new)>(
      order: seq<T>, kept: seq<T>, indexes1: seq<T>, indexes2: seq<T>, i: nat, j: nat)
    requires Reconciles(order, kept, indexes1, indexes2) && Distinct(indexes1) && Distinct(indexes2)
    requires Compatible(indexes1, indexes2) && i < j < |indexes2|
    requires indexes2[i] in kept && indexes2[j] in indexes1
    ensures !Before(order, indexes2[j], indexes2[i])
    decreases i
  {
    hide Compatible, Distinct, DropsOvertaken, NewValuesPlaced, IsSubsequence;
    var u, v := indexes2[i], indexes2[j];
    if Before(order, v, u) {
      if u in indexes1 {
        CommonNotOvertaken(order, indexes1, indexes2, i, j);
      } else {
        var before := KeptBefore(order, kept, indexes1, indexes2, i, j);
        NeverOvertaken(order, kept, indexes1, indexes2, before, j);
      }
    }
  }

  lemma CommonNotOvertaken<T(!new)>(order: seq<T>, indexes1: seq<T>, indexes2: seq<T>, i: nat, j: nat)
    requires Distinct(order) && IsSubsequence(indexes1, order) && Compatible(indexes1, indexes2)
    requires i < j < |indexes2| && indexes2[i] in indexes1 && indexes2[j] in indexes1
    ensures !Before(order, indexes2[j], indexes2[i])
  {
  }

  /** A later common value that comes before a new one comes before the kept value in front of it. */
  lemma KeptBefore<T(!new)>(
      order: seq<T>, kept: seq<T>, indexes1: seq<T>, indexes2: seq<T>, i: nat, j: nat) returns (before: nat)
    requires Distinct(order) && Distinct(indexes2) && IsSubsequence(kept, indexes2)
    requires NewValuesPlaced(order, kept, indexes1)
    requires i < j < |indexes2| && indexes2[i] in kept && indexes2[i] !in indexes1
    requires Before(order, indexes2[j], indexes2[i])
    ensures before < i && indexes2[before] in kept && Before(order, indexes2[j], indexes2[before])
  {
    var p, q :| 0 <= p < q < |order| && order[p] == indexes2[j] && order[q] == indexes2[i];
    var f :| Embeds(f, kept, indexes2);
    var k :| 0 <= k < |kept| && kept[k] == indexes2[i];
    assert DirectlyAfter(order, Predecessor(kept, k), indexes2[i]);
    before := f[k - 1];
    assert f[k] == i && order[q - 1] == kept[k - 1] == indexes2[before];
  }

  lemma FullSubsequence<T(!new)>(s: seq<T>, t: seq<T>)
    requires IsSubsequence(s, t) && Distinct(t) && forall x :: x in t ==> x in s
    ensures s == t
  {
    var f :| Embeds(f, s, t);
    assert Distinct(s);
    DistinctSize(s);
    DistinctSize(t);
    assert Elements(s) == Elements(t) by {
      forall x | x in s ensures x in t { KeptComeFromSecond(s, t, x); }
    }
    IncreasingIsIdentity(f, |t|);
  }

  lemma {:induction false} IncreasingIsIdentity(f: seq<nat>, n: nat)
    requires |f| == n && (forall k :: 0 <= k < n ==> f[k] < n)
    requires forall k, l :: 0 <= k < l < n ==> f[k] < f[l]
    ensures forall k :: 0 <= k < n ==> f[k] == k
  {
    if n > 0 {
      var rest := f[..n - 1];
      forall k | 0 <= k < n - 1 ensures rest[k] < n - 1 {
        assert f[k] < f[n - 1];
      }
      IncreasingIsIdentity(rest, n - 1);
      assert forall k :: 0 <= k < n - 1 ==> f[k] == rest[k];
      assert n > 1 ==> f[n - 2] < f[n - 1];
    }
  }

  // ---- Permute ----

  /** What the permutation in progress still has to do: q says where each element is to come from. The
      index that refers to `to` refers to `from` in the array, as the element that was at `from` has been
      moved along the cycle to `to`. */
  ghost predicate OnCycle(permutation: seq<nat>, q: seq<nat>, from: nat, to: nat) {
    && |permutation| == |q|
    && (forall i :: 0 <= i < |q| ==> permutation[i] == if q[i] == to then from else q[i])
    && (forall i :: 0 <= i < from && i < |q| ==> q[i] == i)
    && (from < |q| && to != from ==> q[from] == from)
  }

  /** Resolving one element of the cycle puts the right element at `to`. */
  ghost function CycleStep(q: seq<nat>, to: nat): seq<nat>
    requires to < |q|
  {
    seq(|q|, i requires 0 <= i < |q| => if i == to then to else if q[i] == to then q[to] else q[i])
  }

  lemma CycleStepIsPermutation(q: seq<nat>, to: nat)
    requires IsPermutation(q, |q|) && to < |q|
    ensures IsPermutation(CycleStep(q, to), |q|)
  {
  }

  /** The indices whose element is not yet in place. */
  ghost function Misplaced(q: seq<nat>): set<nat> {
    set i: nat | i < |q| && q[i] != i :: i
  }

  /** Every swap puts an element in place for good. */
  lemma CycleStepPlacesMore(q: seq<nat>, to: nat)
    requires IsPermutation(q, |q|) && to < |q| && q[to] != to
    ensures Misplaced(CycleStep(q, to)) < Misplaced(q)
  {
    assert to in Misplaced(q);
  }

  // ---- the cycles of a permutation ----

  /** Each index leads to the one its element is to come from. */
  ghost function Arrows(q: seq<nat>): Edges<nat> {
    set i: nat | i < |q| :: (i, q[i])
  }

  ghost function CycleOf(q: seq<nat>, i: nat): (c: set<nat>)
    ensures forall k :: k in c <==> Reaches(Arrows(q), i, k)
  {
    ReachSet(Arrows(q), i)
  }

  ghost function Cycles(q: seq<nat>): set<set<nat>> {
    set i: nat | i < |q| :: CycleOf(q, i)
  }

  lemma {:induction false} ImageSize(q: seq<nat>, s: set<nat>)
    requires Distinct(q) && forall i :: i in s ==> i < |q|
    ensures |set i | i in s :: q[i]| == |s|
  {
    if s != {} {
      var k :| k in s;
      ImageSize(q, s - {k});
      assert (set i | i in s :: q[i]) == (set i | i in s - {k} :: q[i]) + {q[k]};
    }
  }

  lemma CycleIsClosed(q: seq<nat>, i: nat)
    ensures ClosedUnder(Arrows(q), CycleOf(q, i)) && i in CycleOf(q, i)
  {
    hide Reaches, CycleOf;
    ReachesSelf(Arrows(q), i);
    forall a, b | a in CycleOf(q, i) && (a, b) in Arrows(q) ensures b in CycleOf(q, i) {
      ReachesByEdge(Arrows(q), a, b);
      ReachesTrans(Arrows(q), i, a, b);
    }
  }

  lemma CycleInRange(q: seq<nat>, i: nat)
    requires IsPermutation(q, |q|) && i < |q|
    ensures CycleOf(q, i) <= Below(|q|)
  {
    hide Reaches, CycleOf;
    forall k: nat | k in CycleOf(q, i) ensures k in Below(|q|) {
      ClosedSetTraps(Arrows(q), Below(|q|), i, k);
    }
  }

  lemma ClosedSetHasSource(q: seq<nat>, s: set<nat>, i: nat)
    requires IsPermutation(q, |q|) && i < |q| && s <= Below(|q|)
    requires ClosedUnder(Arrows(q), s) && q[i] in s
    ensures i in s
  {
    hide Distinct;
    if i !in s {
      ImageSize(q, s + {i});
      forall k: nat | k in s + {i} ensures q[k] in s {
        assert (k, q[k]) in Arrows(q);
      }
      SubsetSize(set k | k in s + {i} :: q[k], s);
    }
  }

  /** An arrow leads back where it comes from, along the others. */
  lemma ArrowLeadsBack(q: seq<nat>, i: nat)
    requires IsPermutation(q, |q|) && i < |q|
    ensures Reaches(Arrows(q), q[i], i)
  {
    hide Reaches, CycleOf, Distinct, ClosedUnder, Arrows;
    CycleIsClosed(q, q[i]);
    CycleInRange(q, q[i]);
    ClosedSetHasSource(q, CycleOf(q, q[i]), i);
  }

  lemma CyclesAreSymmetric(q: seq<nat>, i: nat, k: nat)
    requires IsPermutation(q, |q|) && i < |q| && k in CycleOf(q, i)
    ensures k < |q| && i in CycleOf(q, k)
  {
    var back := set b | b in Below(|q|) && Reaches(Arrows(q), b, i);
    forall a, b | a in back && (a, b) in Arrows(q) ensures b in back {
      ArrowLeadsBack(q, a);
      ReachesTrans(Arrows(q), b, a, i);
    }
    ReachesSelf(Arrows(q), i);
    ClosedSetTraps(Arrows(q), back, i, k);
  }

  /** Two indices on one cycle have the same cycle. */
  lemma CyclesAreDisjoint(q: seq<nat>, i: nat, k: nat)
    requires IsPermutation(q, |q|) && i < |q| && k in CycleOf(q, i)
    ensures k < |q| && CycleOf(q, k) == CycleOf(q, i)
  {
    CyclesAreSymmetric(q, i, k);
    forall j ensures j in CycleOf(q, k) <==> j in CycleOf(q, i) {
      if j in CycleOf(q, k) { ReachesTrans(Arrows(q), i, k, j); }
      if j in CycleOf(q, i) { ReachesTrans(Arrows(q), k, i, j); }
    }
  }

  /** What a step leads to was on the same cycle before, and is not `to`. */
  lemma CycleStepStays(q: seq<nat>, to: nat, i: nat)
    requires IsPermutation(q, |q|) && to < |q| && q[to] != to && i < |q| && i != to
    ensures CycleOf(CycleStep(q, to), i) <= CycleOf(q, i) - {to}
  {
    hide Reaches;
    var next := CycleStep(q, to);
    var s := CycleOf(q, i) - {to};
    ReachesSelf(Arrows(q), i);
    forall a, b | a in s && (a, b) in Arrows(next) ensures b in s {
      ReachesByEdge(Arrows(q), a, q[a]);
      ReachesTrans(Arrows(q), i, a, q[a]);
      if q[a] == to {
        ReachesByEdge(Arrows(q), to, q[to]);
        ReachesTrans(Arrows(q), i, to, q[to]);
      }
    }
    forall k | k in CycleOf(next, i) ensures k in s { ClosedSetTraps(Arrows(next), s, i, k); }
  }

  /** What a step leads to, and `to` if it was led to from there. */
  ghost function WithStep(q: seq<nat>, to: nat, s: set<nat>): set<nat> {
    s + if exists a :: a in s && a < |q| && q[a] == to then {to} else {}
  }

  lemma WithStepClosed(q: seq<nat>, to: nat, s: set<nat>)
    requires to < |q| && to !in s && q[to] != to && ClosedUnder(Arrows(CycleStep(q, to)), s)
    ensures ClosedUnder(Arrows(q), WithStep(q, to, s))
  {
    var next := CycleStep(q, to);
    forall a, b | a in WithStep(q, to, s) && (a, b) in Arrows(q) ensures b in WithStep(q, to, s) {
      if a == to {
        var from :| from in s && from < |q| && q[from] == to;
        assert (from, next[from]) in Arrows(next);
      } else {
        assert (a, next[a]) in Arrows(next);
      }
    }
  }

  /** And everything else on that cycle is still led to. */
  lemma CycleStepKeeps(q: seq<nat>, to: nat, i: nat)
    requires IsPermutation(q, |q|) && to < |q| && q[to] != to && i < |q| && i != to
    ensures CycleOf(q, i) - {to} <= CycleOf(CycleStep(q, to), i)
  {
    hide Reaches, CycleOf, CycleStep, Arrows, Distinct;
    var s := CycleOf(CycleStep(q, to), i);
    CycleStepStays(q, to, i);
    CycleIsClosed(CycleStep(q, to), i);
    WithStepClosed(q, to, s);
    forall k | k in CycleOf(q, i) ensures k in WithStep(q, to, s) {
      ClosedSetTraps(Arrows(q), WithStep(q, to, s), i, k);
    }
  }

  lemma FixedIsItsOwnCycle(q: seq<nat>, i: nat)
    requires i < |q| && q[i] == i
    ensures CycleOf(q, i) == {i}
  {
    hide Reaches;
    ReachesSelf(Arrows(q), i);
    forall k | k in CycleOf(q, i) ensures k == i { ClosedSetTraps(Arrows(q), {i}, i, k); }
  }

  /** A step takes `to` out of its cycle, and changes no other. */
  lemma CycleAfterStep(q: seq<nat>, to: nat, i: nat)
    requires IsPermutation(q, |q|) && to < |q| && q[to] != to && i < |q|
    ensures CycleOf(CycleStep(q, to), i) ==
            if i == to then {to} else if i in CycleOf(q, to) then CycleOf(q, to) - {to} else CycleOf(q, i)
  {
    hide Reaches, CycleOf, Distinct;
    var next := CycleStep(q, to);
    OnOwnCycle(q, i);
    if i == to {
      FixedIsItsOwnCycle(next, to);
    } else {
      CycleStepStays(q, to, i);
      CycleStepKeeps(q, to, i);
      if i in CycleOf(q, to) {
        CyclesAreDisjoint(q, to, i);
      } else if to in CycleOf(q, i) {
        CyclesAreSymmetric(q, i, to);
      }
    }
  }

  lemma CyclesAfterStep(q: seq<nat>, to: nat)
    requires IsPermutation(q, |q|) && to < |q| && q[to] != to
    ensures var c := CycleOf(q, to);
            && c in Cycles(q) && to in c && c - {to} !in Cycles(q) && {to} !in Cycles(q) && c - {to} != {to}
            && Cycles(CycleStep(q, to)) == Cycles(q) - {c} + {c - {to}, {to}}
  {
    hide Reaches, CycleOf, Distinct;
    var next, c := CycleStep(q, to), CycleOf(q, to);
    OnOwnCycle(q, to);
    forall i: nat | i < |q|
      ensures CycleOf(next, i) == if i == to then {to} else if i in c then c - {to} else CycleOf(q, i)
      ensures i in CycleOf(q, i) && (i in c <==> CycleOf(q, i) == c)
    {
      CycleAfterStep(q, to, i);
      OnOwnCycle(q, i);
      if i in c { CyclesAreDisjoint(q, to, i); }
    }
    CyclesSplit(q, next, to, c);
  }

  lemma CyclesSplit(q: seq<nat>, next: seq<nat>, to: nat, c: set<nat>)
    requires |next| == |q| && to < |q| && q[to] < |q| && q[to] != to && c == CycleOf(q, to) && q[to] in c
    requires forall i: nat :: i < |q| ==>
               CycleOf(next, i) == if i == to then {to} else if i in c then c - {to} else CycleOf(q, i)
    requires forall i: nat :: i < |q| ==> i in CycleOf(q, i) && (i in c <==> CycleOf(q, i) == c)
    ensures Cycles(next) == Cycles(q) - {c} + {c - {to}, {to}}
    ensures c - {to} !in Cycles(q) && {to} !in Cycles(q)
  {
    hide CycleOf;
    forall x | x in Cycles(q) - {c} + {c - {to}, {to}} ensures x in Cycles(next) {
      if x == c - {to} {
        assert x == CycleOf(next, q[to]);
      } else if x == {to} {
        assert x == CycleOf(next, to);
      } else {
        var i: nat :| i < |q| && x == CycleOf(q, i);
        assert x == CycleOf(next, i);
      }
    }
  }

  lemma OnOwnCycle(q: seq<nat>, i: nat)
    requires i < |q|
    ensures i in CycleOf(q, i) && q[i] in CycleOf(q, i)
  {
    ReachesSelf(Arrows(q), i);
    ReachesByEdge(Arrows(q), i, q[i]);
  }

  /** Every swap makes one cycle into two. */
  lemma CycleStepAddsCycle(q: seq<nat>, to: nat)
    requires IsPermutation(q, |q|) && to < |q| && q[to] != to
    ensures |Cycles(CycleStep(q, to))| == |Cycles(q)| + 1
  {
    hide CycleOf, Cycles, CycleStep, Distinct;
    CyclesAfterStep(q, to);
    var c := CycleOf(q, to);
    assert |Cycles(q) - {c}| == |Cycles(q)| - 1;
    assert |Cycles(q) - {c} + {c - {to}}| == |Cycles(q)|;
    assert Cycles(q) - {c} + {c - {to}, {to}} == Cycles(q) - {c} + {c - {to}} + {{to}};
  }

  ghost function Singletons(n: nat): set<set<nat>> {
    set i: nat | i < n :: {i}
  }

  lemma {:induction false} SingletonsCount(n: nat)
    ensures |Singletons(n)| == n
  {
    if n > 0 {
      SingletonsCount(n - 1);
      assert Singletons(n) == Singletons(n - 1) + {{n - 1}};
    }
  }

  /** The identity has as many cycles as indices. */
  lemma CyclesOfIdentity(n: nat)
    ensures |Cycles(Identity(n))| == n
  {
    hide CycleOf;
    forall i: nat | i < n ensures CycleOf(Identity(n), i) == {i} {
      FixedIsItsOwnCycle(Identity(n), i);
    }
    assert Cycles(Identity(n)) == Singletons(n);
    hide Cycles;
    SingletonsCount(n);
  }

  lemma CycleAdvances(permutation: seq<nat>, q: seq<nat>, from: nat, to: nat)
    requires IsPermutation(q, |q|) && OnCycle(permutation, q, from, to)
    requires from <= to < |q| && permutation[to] != from
    ensures q[to] == permutation[to] != to && from <= permutation[to] < |q|
    ensures OnCycle(permutation[to := to], CycleStep(q, to), from, permutation[to])
  {
    assert q[to] != to;
    var k := q[to];
    assert q[k] == k ==> k == to;
  }

  lemma CycleCloses(permutation: seq<nat>, q: seq<nat>, from: nat, to: nat)
    requires IsPermutation(q, |q|) && OnCycle(permutation, q, from, to)
    requires from <= to < |q| && permutation[to] == from
    ensures q[to] == to && permutation[to := to] == q && q[from] == from
  {
  }

  /** Gathers the elements of the data in place, cycle by cycle, with one swap for every index beyond the
      first of its cycle. */
  method Permute<T>(data: array<T>, permutation: array<nat>) returns (ghost swaps: nat)
    requires data.Length == permutation.Length && data != permutation
    requires IsPermutation(permutation[..], data.Length)
    modifies data, permutation
    ensures data[..] == Gather(old(data[..]), old(permutation[..]))
    ensures permutation[..] == Identity(data.Length)
    ensures swaps == data.Length - |Cycles(old(permutation[..]))|
  {
    hide Distinct, Cycles;
    ghost var goal, cycles := Gather(data[..], permutation[..]), |Cycles(permutation[..])|;
    ghost var q := permutation[..];
    swaps := 0;
    for from := 0 to permutation.Length
      invariant IsPermutation(q, data.Length) && permutation[..] == q
      invariant Gather(data[..], q) == goal
      invariant forall i :: 0 <= i < from ==> q[i] == i
      invariant swaps == |Cycles(q)| - cycles
    {
      ghost var more;
      q, more := PermuteCycle(data, permutation, from);
      swaps := swaps + more;
    }
    assert q == Identity(data.Length);
    assert data[..] == Gather(data[..], q);
    CyclesOfIdentity(data.Length);
  }

  /** Resolves the cycle that starts at `from` by swapping elements. */
  method PermuteCycle<T>(data: array<T>, permutation: array<nat>, from: nat)
    returns (ghost q: seq<nat>, ghost swaps: nat)
    requires data.Length == permutation.Length && data != permutation && from < data.Length
    requires IsPermutation(permutation[..], data.Length)
    requires forall i :: 0 <= i < from ==> permutation[i] == i
    modifies data, permutation
    ensures permutation[..] == q && IsPermutation(q, data.Length)
    ensures Gather(data[..], q) == Gather(old(data[..]), old(permutation[..]))
    ensures forall i :: 0 <= i <= from ==> q[i] == i
    ensures swaps == |Cycles(q)| - |Cycles(old(permutation[..]))|
  {
    hide Distinct, Cycles;
    var to := from;
    ghost var goal, cycles := Gather(data[..], permutation[..]), |Cycles(permutation[..])|;
    q, swaps := permutation[..], 0;
    while permutation[to] != from
      invariant from <= to < data.Length
      invariant IsPermutation(q, data.Length) && OnCycle(permutation[..], q, from, to)
      invariant Gather(data[..], q) == goal
      invariant swaps == |Cycles(q)| - cycles
      decreases Misplaced(q)
    {
      var next := permutation[to];
      CycleAdvances(permutation[..], q, from, to);
      CycleStepPlacesMore(q, to);
      CycleStepAddsCycle(q, to);
      CycleStepIsPermutation(q, to);
      SwapGathers(data[..], q, to);
      data[to], data[next] := data[next], data[to];
      swaps := swaps + 1;
      permutation[to] := to;
      q := CycleStep(q, to);
      to := next;
    }
    CycleCloses(permutation[..], q, from, to);
    permutation[to] := to;
  }

  lemma SwapGathers<T>(data: seq<T>, q: seq<nat>, to: nat)
    requires IsPermutation(q, |data|) && to < |q|
    ensures IsPermutation(CycleStep(q, to), |data|)
    ensures Gather(data[to := data[q[to]]][q[to] := data[to]], CycleStep(q, to)) == Gather(data, q)
  {
  }

  // ---- renaming ----

  ghost predicate Injective<T(!new), U>(h: T -> U) {
    forall x, y :: h(x) == h(y) ==> x == y
  }

  function Renamed<T, U>(h: T -> U, s: seq<T>): seq<U> {
    seq(|s|, k requires 0 <= k < |s| => h(s[k]))
  }

  lemma {:induction false} FindRenamed<T(!new), U>(h: T -> U, s: seq<T>, v: T)
    requires Injective(h)
    ensures Find(Renamed(h, s), h(v)) == Find(s, v)
  {
    if s != [] {
      assert Renamed(h, s)[1..] == Renamed(h, s[1..]);
      FindRenamed(h, s[1..], v);
    }
  }

  /** Merging depends on which values are equal, not on what they are. */
  lemma {:induction false} MergeCommutesWithRenaming<T(!new), U>(h: T -> U, indexes1: seq<T>, indexes2: seq<T>)
    requires Injective(h)
    ensures Extended(Renamed(h, indexes1), Renamed(h, indexes2)).order == Renamed(h, Extended(indexes1, indexes2).order)
    ensures Extended(Renamed(h, indexes1), Renamed(h, indexes2)).pos == Extended(indexes1, indexes2).pos
    decreases |indexes2|
  {
    if indexes2 != [] {
      var n := |indexes2| - 1;
      assert Renamed(h, indexes2)[..n] == Renamed(h, indexes2[..n]);
      MergeCommutesWithRenaming(h, indexes1, indexes2[..n]);
      StepCommutesWithRenaming(h, Extended(indexes1, indexes2[..n]), indexes2[n]);
      var m := Extended(Renamed(h, indexes1), Renamed(h, indexes2[..n]));
      StepIgnoresKept(m.(kept := []), m, h(indexes2[n]));
    }
  }

  lemma StepCommutesWithRenaming<T(!new), U>(h: T -> U, m: Merge<T>, v: T)
    requires Injective(h) && m.pos <= |m.order|
    ensures MergeStep(Merge(Renamed(h, m.order), m.pos, []), h(v)).order == Renamed(h, MergeStep(m, v).order)
    ensures MergeStep(Merge(Renamed(h, m.order), m.pos, []), h(v)).pos == MergeStep(m, v).pos
  {
    FindRenamed(h, m.order, v);
    assert Insert(Renamed(h, m.order), m.pos, h(v)) == Renamed(h, Insert(m.order, m.pos, v));
  }

  lemma StepIgnoresKept<T>(m: Merge<T>, n: Merge<T>, v: T)
    requires m.order == n.order && m.pos == n.pos <= |m.order|
    ensures MergeStep(m, v).order == MergeStep(n, v).order && MergeStep(m, v).pos == MergeStep(n, v).pos
  {
  }

  // ---- Reorder ----

  /** The constraints of one side. */
  type Positions = seq<Option<nat>>

  /** Matched items give their place in the first ordering, in the second ordering, or in both. */
  type Matches = seq<(Option<nat>, Option<nat>)>

  function Firsts(data: Matches): Positions {
    seq(|data|, i requires 0 <= i < |data| => data[i].0)
  }

  function Seconds(data: Matches): Positions {
    seq(|data|, i requires 0 <= i < |data| => data[i].1)
  }

  /** Position-index pairs compare by position, then by index. */
  predicate PairLe(x: (nat, nat), y: (nat, nat)) {
    x.0 < y.0 || (x.0 == y.0 && x.1 <= y.1)
  }

  function PositionIndexes(positions: Positions): (r: seq<(nat, nat)>)
  {
    if positions == [] then []
    else
      var n := |positions| - 1;
      PositionIndexes(positions[..n]) + if positions[n].Some? then [(positions[n].value, n)] else []
  }

  function DropPositions(pairs: seq<(nat, nat)>): seq<nat> {
    seq(|pairs|, k requires 0 <= k < |pairs| => pairs[k].1)
  }

  /** The indices that have a position, ordered by position. */
  function OrderedIndexes(positions: Positions): seq<nat> {
    DropPositions(Sort(PositionIndexes(positions), PairLe))
  }

  /** The indices of all items in the reconciled order. */
  function ReorderedIndexes(data: Matches): seq<nat> {
    Extended(OrderedIndexes(Firsts(data)), OrderedIndexes(Seconds(data))).order
  }

  ghost predicate AllPositioned(data: Matches) {
    forall i :: 0 <= i < |data| ==> data[i].0.Some? || data[i].1.Some?
  }

  function Reordered(data: Matches): Matches
    requires AllPositioned(data)
  {
    ReorderedIsPermutation(data);
    Gather(data, ReorderedIndexes(data))
  }

  lemma {:induction false} PositionIndexesComplete(positions: Positions)
    ensures Distinct(PositionIndexes(positions))
    ensures forall p, i :: (p, i) in PositionIndexes(positions) <==>
                             0 <= i < |positions| && positions[i] == Some(p)
  {
    if positions != [] {
      PositionIndexesComplete(positions[..|positions| - 1]);
    }
  }

  lemma PairLeIsTotal()
    ensures TotalOrder(PairLe)
  {
  }

  predicate HasPosition(positions: Positions, i: nat) {
    i < |positions| && positions[i].Some?
  }

  function Key(positions: Positions, i: nat): (nat, nat)
    requires HasPosition(positions, i)
  {
    (positions[i].value, i)
  }

  /** s lists each index with a position once, by position, then by index. */
  ghost predicate ListsInOrder(positions: Positions, s: seq<nat>) {
    && Distinct(s)
    && (forall i: nat :: i in s <==> HasPosition(positions, i))
    && (forall k, l :: 0 <= k < l < |s| ==>
          && HasPosition(positions, s[k]) && HasPosition(positions, s[l])
          && PairLe(Key(positions, s[k]), Key(positions, s[l])))
  }

  lemma OrderedIndexesSorted(positions: Positions)
    ensures ListsInOrder(positions, OrderedIndexes(positions))
  {
    var pairs := PositionIndexes(positions);
    PositionIndexesComplete(positions);
    PairLeIsTotal();
    SortSorts(pairs, PairLe);
    SameElements(pairs, Sort(pairs, PairLe));
    SortedPairsList(positions, Sort(pairs, PairLe));
  }

  lemma SortedPairsList(positions: Positions, sorted: seq<(nat, nat)>)
    requires Distinct(sorted) && SortedBy(sorted, PairLe)
    requires forall p, i :: (p, i) in sorted <==> 0 <= i < |positions| && positions[i] == Some(p)
    ensures ListsInOrder(positions, DropPositions(sorted))
  {
    var order := DropPositions(sorted);
    forall k | 0 <= k < |sorted|
      ensures HasPosition(positions, order[k]) && Key(positions, order[k]) == sorted[k]
    {
      assert sorted[k] in sorted && sorted[k] == (sorted[k].0, sorted[k].1);
    }
    forall i: nat | HasPosition(positions, i) ensures i in order {
      assert (positions[i].value, i) in sorted;
      var k :| 0 <= k < |sorted| && sorted[k] == (positions[i].value, i);
      assert order[k] == i;
    }
  }

  lemma ReorderedIsPermutation(data: Matches)
    requires AllPositioned(data)
    ensures IsPermutation(ReorderedIndexes(data), |data|)
    ensures Reconciles(ReorderedIndexes(data),
                       Extended(OrderedIndexes(Firsts(data)), OrderedIndexes(Seconds(data))).kept,
                       OrderedIndexes(Firsts(data)), OrderedIndexes(Seconds(data)))
  {
    hide OrderedIndexes, Extended, IsSubsequence, NewValuesPlaced, DropsOvertaken, Distinct;
    var indexes1, indexes2 := OrderedIndexes(Firsts(data)), OrderedIndexes(Seconds(data));
    OrderedIndexesSorted(Firsts(data));
    OrderedIndexesSorted(Seconds(data));
    ExtendedReconciles(indexes1, indexes2);
    forall i: nat ensures i in ReorderedIndexes(data) <==> i < |data| {
      assert i in indexes1 <==> HasPosition(Firsts(data), i);
      assert i in indexes2 <==> HasPosition(Seconds(data), i);
    }
    ListingIsPermutation(ReorderedIndexes(data), |data|);
  }

  /** Brings the items into the merged order of their first and second positions. */
  method Reorder(data: array<(Option<nat>, Option<nat>)>)
    requires AllPositioned(data[..])
    modifies data
    ensures data[..] == old(Reordered(data[..]))
  {
    hide Reconciles, Distinct, Extended, Sort;
    var size := data.Length;
    ghost var input := data[..];
    var positions1: seq<(nat, nat)>, positions2: seq<(nat, nat)> := [], [];
    for index := 0 to size
      invariant positions1 == PositionIndexes(Firsts(input)[..index])
      invariant positions2 == PositionIndexes(Seconds(input)[..index])
    {
      var (position1, position2) := data[index];
      assert Firsts(input)[..index + 1][..index] == Firsts(input)[..index];
      assert Seconds(input)[..index + 1][..index] == Seconds(input)[..index];
      if position1.Some? {
        positions1 := positions1 + [(position1.value, index)];
      }
      if position2.Some? {
        positions2 := positions2 + [(position2.value, index)];
      }
    }
    assert Firsts(input)[..size] == Firsts(input) && Seconds(input)[..size] == Seconds(input);
    positions1 := Sort(positions1, PairLe);
    positions2 := Sort(positions2, PairLe);
    var indexes := ExtendOrder(DropPositions(positions1), DropPositions(positions2));
    ReorderedIsPermutation(input);
    var permutation := new nat[size](k requires 0 <= k < size => indexes[k]);
    assert permutation[..] == indexes;
    ghost var swaps := Permute(data, permutation);
  }

  /** What is reordered is exactly the input. */
  lemma ReorderKeepsItems(data: Matches)
    requires AllPositioned(data)
    ensures multiset(Reordered(data)) == multiset(data)
  {
    ReorderedIsPermutation(data);
    GatherKeepsElements(data, ReorderedIndexes(data));
  }

  ghost predicate Ascending(positions: Positions) {
    forall i, j :: 0 <= i < j < |positions| && positions[i].Some? && positions[j].Some? ==>
      positions[i].value <= positions[j].value
  }

  ghost predicate DistinctPositions(positions: Positions) {
    forall i, j :: 0 <= i < j < |positions| && positions[i].Some? && positions[j].Some? ==>
      positions[i].value != positions[j].value
  }

  /** In any order of which the sorted indices are a subsequence, positions ascend. */
  lemma SubsequenceAscends(positions: Positions, order: seq<nat>)
    requires IsPermutation(order, |positions|) && IsSubsequence(OrderedIndexes(positions), order)
    ensures Ascending(Gather(positions, order))
  {
    hide OrderedIndexes, IsSubsequence;
    forall a, b | 0 <= a < b < |order| && positions[order[a]].Some? && positions[order[b]].Some?
      ensures positions[order[a]].value <= positions[order[b]].value
    {
      PairAscends(positions, order, a, b);
    }
  }

  lemma PairAscends(positions: Positions, order: seq<nat>, a: nat, b: nat)
    requires IsPermutation(order, |positions|) && IsSubsequence(OrderedIndexes(positions), order)
    requires a < b < |order| && positions[order[a]].Some? && positions[order[b]].Some?
    ensures positions[order[a]].value <= positions[order[b]].value
  {
    hide OrderedIndexes, IsSubsequence;
    OrderedIndexesSorted(positions);
    var sorted := OrderedIndexes(positions);
    assert Before(order, order[a], order[b]);
    BeforeInSubsequence(sorted, order, order[a], order[b]);
    var k, l :| 0 <= k < l < |sorted| && sorted[k] == order[a] && sorted[l] == order[b];
  }

  /** First positions always come out in order. */
  lemma FirstPositionsAscend(data: Matches)
    requires AllPositioned(data)
    ensures Ascending(Firsts(Reordered(data)))
  {
    ReorderedIsPermutation(data);
    SubsequenceAscends(Firsts(data), ReorderedIndexes(data));
    assert Firsts(Reordered(data)) == Gather(Firsts(data), ReorderedIndexes(data));
  }

  ghost predicate InBothPositions(data: Matches, i: int) {
    0 <= i < |data| && data[i].0.Some? && data[i].1.Some?
  }

  /** No two items are placed one way by the first positions and the other way by the second. */
  ghost predicate Uncrossed(data: Matches) {
    forall i, j :: InBothPositions(data, i) && InBothPositions(data, j) && data[i].0.value < data[j].0.value ==>
                     data[i].1.value < data[j].1.value
  }

  lemma UncrossedIsCompatible(data: Matches)
    requires DistinctPositions(Firsts(data)) && DistinctPositions(Seconds(data)) && Uncrossed(data)
    ensures Compatible(OrderedIndexes(Firsts(data)), OrderedIndexes(Seconds(data)))
  {
    var indexes1, indexes2 := OrderedIndexes(Firsts(data)), OrderedIndexes(Seconds(data));
    OrderedIndexesSorted(Firsts(data));
    OrderedIndexesSorted(Seconds(data));
    forall k, l | 0 <= k < l < |indexes2| && indexes2[k] in indexes1 && indexes2[l] in indexes1
      ensures Before(indexes1, indexes2[k], indexes2[l])
    {
      var i, j := indexes2[k], indexes2[l];
      assert i in indexes2 && j in indexes2 && i != j;
      assert InBothPositions(data, i) && InBothPositions(data, j);
      assert Before(indexes2, i, j);
      SortedBefore(Seconds(data), i, j);
      SortedBefore(Firsts(data), i, j);
    }
  }

  /** For distinct positions, coming first is having the smaller position. */
  lemma SortedBefore(positions: Positions, i: nat, j: nat)
    requires DistinctPositions(positions) && i < |positions| && j < |positions| && i != j
    requires positions[i].Some? && positions[j].Some?
    ensures Before(OrderedIndexes(positions), i, j) <==> positions[i].value < positions[j].value
  {
    OrderedIndexesSorted(positions);
    var sorted := OrderedIndexes(positions);
    assert i in sorted && j in sorted;
    var k, l :| 0 <= k < |sorted| && 0 <= l < |sorted| && sorted[k] == i && sorted[l] == j;
  }

  /** Second positions come out in order, too, exactly when the two orders do not conflict. */
  lemma SecondPositionsAscendIffUncrossed(data: Matches)
    requires AllPositioned(data) && DistinctPositions(Firsts(data)) && DistinctPositions(Seconds(data))
    ensures Ascending(Seconds(Reordered(data))) <==> Uncrossed(data)
  {
    var order := ReorderedIndexes(data);
    ReorderedIsPermutation(data);
    FirstPositionsAscend(data);
    assert Seconds(Reordered(data)) == Gather(Seconds(data), order);
    if Uncrossed(data) {
      UncrossedIsCompatible(data);
      OrderedIndexesSorted(Firsts(data));
      OrderedIndexesSorted(Seconds(data));
      KeepsAllIffCompatible(order, Extended(OrderedIndexes(Firsts(data)), OrderedIndexes(Seconds(data))).kept,
                            OrderedIndexes(Firsts(data)), OrderedIndexes(Seconds(data)));
      SubsequenceAscends(Seconds(data), order);
    }
    if Ascending(Seconds(Reordered(data))) {
      BothAscendUncrossed(data, order);
    }
  }

  lemma BothAscendUncrossed(data: Matches, order: seq<nat>)
    requires IsPermutation(order, |data|) && DistinctPositions(Firsts(data)) && DistinctPositions(Seconds(data))
    requires Ascending(Firsts(Gather(data, order))) && Ascending(Seconds(Gather(data, order)))
    ensures Uncrossed(data)
  {
    var firsts, seconds := Firsts(Gather(data, order)), Seconds(Gather(data, order));
    forall i, j | InBothPositions(data, i) && InBothPositions(data, j) && data[i].0.value < data[j].0.value
      ensures data[i].1.value < data[j].1.value
    {
      PermutationIsOnto(order, |data|, i);
      PermutationIsOnto(order, |data|, j);
      var a, b :| 0 <= a < |order| && 0 <= b < |order| && order[a] == i && order[b] == j;
      assert firsts[a] == data[i].0 && firsts[b] == data[j].0;
      assert seconds[a] == data[i].1 && seconds[b] == data[j].1;
      assert Seconds(data)[i] == data[i].1 && Seconds(data)[j] == data[j].1;
    }
  }
}

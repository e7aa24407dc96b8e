/** When the result of Reorder does not depend on the order of its input (order.h). */
module InputOrder {
  import opened Wrappers
  import opened Sequences
  import opened Order
  import opened Matching

  /** Items with the same first position are the same. */
  ghost predicate FirstsDecide(data: Matches) {
    forall x, y :: x in data && y in data && x.0.Some? && x.0 == y.0 ==> x == y
  }

  /** Some item comes after these two positions by the first ordering, and before them by the second. */
  ghost predicate OvertakenBy(data: Matches, a: nat, m: nat) {
    exists b: nat, l: nat :: a < b && l < m && (Some(b), Some(l)) in data
  }

  /** An item that the second ordering puts level with a new one is one that it does not move. */
  ghost predicate LevelAreOvertaken(data: Matches) {
    forall a: nat, m: nat :: (None, Some(m)) in data && (Some(a), Some(m)) in data ==> OvertakenBy(data, a, m)
  }

  ghost predicate Settled(data: Matches) {
    AllPositioned(data) && FirstsDecide(data) && LevelAreOvertaken(data)
  }

  ghost predicate IgnoresInputOrder(data: Matches)
    requires AllPositioned(data)
  {
    forall shuffle :: IsPermutation(shuffle, |data|) ==>
      AllPositioned(Gather(data, shuffle)) && Reordered(Gather(data, shuffle)) == Reordered(data)
  }

  // ---- shuffled lists of indices ----

  lemma GatherShuffled<T>(data: seq<T>, shuffle: seq<nat>, order: seq<nat>)
    requires IsPermutation(shuffle, |data|) && IsPermutation(order, |data|)
    ensures IsPermutation(Renamed(Extension(shuffle), order), |data|)
    ensures Gather(Gather(data, shuffle), order) == Gather(data, Renamed(Extension(shuffle), order))
  {
  }

  /** The permutation as a function on all numbers. */
  function Extension(p: seq<nat>): nat -> nat {
    (k: nat) => if k < |p| then p[k] else k
  }

  lemma ExtensionIsInjective(p: seq<nat>)
    requires IsPermutation(p, |p|)
    ensures Injective(Extension(p))
  {
  }

  /** Indices with the same position come in the same order as before. */
  ghost predicate KeepsTies(positions: Positions, shuffle: seq<nat>)
    requires IsPermutation(shuffle, |positions|)
  {
    forall k, l :: 0 <= k < l < |shuffle| && positions[shuffle[k]].Some? ==>
      positions[shuffle[k]] == positions[shuffle[l]] ==> shuffle[k] < shuffle[l]
  }

  lemma OrderedIndexesShuffled(positions: Positions, shuffle: seq<nat>)
    requires IsPermutation(shuffle, |positions|) && KeepsTies(positions, shuffle)
    ensures Renamed(Extension(shuffle), OrderedIndexes(Gather(positions, shuffle))) == OrderedIndexes(positions)
  {
    var shuffled := Gather(positions, shuffle);
    OrderedIndexesSorted(positions);
    OrderedIndexesSorted(shuffled);
    ShuffledListsInOrder(positions, shuffle, OrderedIndexes(shuffled));
    ListsInOrderUnique(positions, OrderedIndexes(positions), Renamed(Extension(shuffle), OrderedIndexes(shuffled)));
  }

  lemma ShuffledListsInOrder(positions: Positions, shuffle: seq<nat>, s: seq<nat>)
    requires IsPermutation(shuffle, |positions|) && KeepsTies(positions, shuffle)
    requires ListsInOrder(Gather(positions, shuffle), s)
    ensures ListsInOrder(positions, Renamed(Extension(shuffle), s))
  {
    var shuffled := Gather(positions, shuffle);
    var t := Renamed(Extension(shuffle), s);
    forall k | 0 <= k < |s| ensures HasPosition(shuffled, s[k]) && t[k] == shuffle[s[k]] {
      assert s[k] in s;
    }
    forall i: nat | HasPosition(positions, i) ensures i in t {
      PermutationIsOnto(shuffle, |positions|, i);
      var k :| 0 <= k < |shuffle| && shuffle[k] == i;
      assert HasPosition(shuffled, k);
      var l :| 0 <= l < |s| && s[l] == k;
      assert t[l] == i;
    }
    forall k, l | 0 <= k < l < |t| ensures t[k] != t[l] && PairLe(Key(positions, t[k]), Key(positions, t[l])) {
      assert PairLe(Key(shuffled, s[k]), Key(shuffled, s[l]));
    }
  }

  lemma ListsInOrderUnique(positions: Positions, s: seq<nat>, t: seq<nat>)
    requires ListsInOrder(positions, s) && ListsInOrder(positions, t)
    ensures s == t
  {
    IndexLeIsTotal(positions);
    assert forall k :: 0 <= k < |s| ==> s[k] in s;
    assert forall k :: 0 <= k < |t| ==> t[k] in t;
    SortedIsUnique(s, t, IndexLe(positions));
  }

  /** Indices compared as ListsInOrder does; those without a position do not matter. */
  ghost function IndexLe(positions: Positions): (nat, nat) -> bool {
    (i: nat, j: nat) =>
      PairLe(if HasPosition(positions, i) then Key(positions, i) else (0, i),
             if HasPosition(positions, j) then Key(positions, j) else (0, j))
  }

  lemma IndexLeIsTotal(positions: Positions)
    ensures TotalOrder(IndexLe(positions))
  {
  }

  // ---- steps of the merge that can change places ----

  ghost predicate SamePlace<T(!new)>(m: Merge<T>, n: Merge<T>) {
    m.order == n.order && m.pos == n.pos
  }

  /** v comes before whatever is inserted from now on. */
  ghost predicate Passed<T(!new)>(m: Merge<T>, v: T)
    requires m.pos <= |m.order|
  {
    v in m.order[..m.pos]
  }

  lemma StepPasses<T(!new)>(m: Merge<T>, v: T)
    requires m.pos <= |m.order|
    ensures Passed(MergeStep(m, v), v)
    ensures forall w :: Passed(m, w) ==> Passed(MergeStep(m, v), w)
  {
    var r := MergeStep(m, v);
    match Find(m.order, v)
    case None =>
      assert r.order[..r.pos] == m.order[..m.pos] + [v];
    case Some(found) =>
      if m.pos <= found {
        assert r.order[..r.pos] == m.order[..m.pos] + m.order[m.pos..found + 1] && r.order[found] == v;
      } else {
        assert r.order[..r.pos][found] == v;
      }
  }

  lemma {:induction false} AllPassed<T(!new)>(indexes1: seq<T>, indexes2: seq<T>)
    ensures forall v :: v in indexes2 ==> Passed(Extended(indexes1, indexes2), v)
  {
    hide MergeStep, Passed;
    if indexes2 != [] {
      var n := |indexes2| - 1;
      AllPassed(indexes1, indexes2[..n]);
      StepPasses(Extended(indexes1, indexes2[..n]), indexes2[n]);
      assert indexes2 == indexes2[..n] + [indexes2[n]];
    }
  }

  /** A value that has been passed is not moved, nor does it move anything. */
  lemma PassedIsSkipped<T(!new)>(m: Merge<T>, v: T)
    requires m.pos <= |m.order| && Passed(m, v)
    ensures MergeStep(m, v) == m
  {
    var k :| 0 <= k < m.pos && m.order[..m.pos][k] == v;
    assert m.order[k] == v;
  }

  lemma TwoKnown<T(!new)>(m: Merge<T>, c: T, d: T)
    requires m.pos <= |m.order| && c in m.order && d in m.order
    ensures SamePlace(MergeStep(MergeStep(m, c), d), MergeStep(MergeStep(m, d), c))
  {
  }

  lemma OnePassed<T(!new)>(m: Merge<T>, c: T, d: T)
    requires m.pos <= |m.order| && Passed(m, c)
    ensures SamePlace(MergeStep(MergeStep(m, c), d), MergeStep(MergeStep(m, d), c))
  {
    hide MergeStep, Passed;
    PassedIsSkipped(m, c);
    StepPasses(m, d);
    PassedIsSkipped(MergeStep(m, d), c);
  }

  lemma OneMoreStep<T(!new)>(indexes1: seq<T>, s: seq<T>, v: T)
    ensures Extended(indexes1, s + [v]) == MergeStep(Extended(indexes1, s), v)
  {
    assert (s + [v])[..|s|] == s;
  }

  lemma {:induction false} RestIsSame<T(!new)>(indexes1: seq<T>, s: seq<T>, t: seq<T>, rest: seq<T>)
    requires SamePlace(Extended(indexes1, s), Extended(indexes1, t))
    ensures SamePlace(Extended(indexes1, s + rest), Extended(indexes1, t + rest))
  {
    hide Extended, MergeStep;
    if rest == [] {
      assert s + rest == s && t + rest == t;
    } else {
      var n := |rest| - 1;
      RestIsSame(indexes1, s, t, rest[..n]);
      assert s + rest == s + rest[..n] + [rest[n]] && t + rest == t + rest[..n] + [rest[n]];
      OneMoreStep(indexes1, s + rest[..n], rest[n]);
      OneMoreStep(indexes1, t + rest[..n], rest[n]);
      StepIgnoresKept(Extended(indexes1, s + rest[..n]), Extended(indexes1, t + rest[..n]), rest[n]);
    }
  }

  /** Two neighbours of the second ordering may change places if their steps may. */
  lemma NeighboursChange<T(!new)>(indexes1: seq<T>, s: seq<T>, c: T, d: T, rest: seq<T>)
    requires var m := Extended(indexes1, s);
             SamePlace(MergeStep(MergeStep(m, c), d), MergeStep(MergeStep(m, d), c))
    ensures Extended(indexes1, s + [c, d] + rest).order == Extended(indexes1, s + [d, c] + rest).order
  {
    hide Extended, MergeStep;
    OneMoreStep(indexes1, s, c);
    OneMoreStep(indexes1, s + [c], d);
    OneMoreStep(indexes1, s, d);
    OneMoreStep(indexes1, s + [d], c);
    assert s + [c] + [d] == s + [c, d] && s + [d] + [c] == s + [d, c];
    RestIsSame(indexes1, s + [c, d], s + [d, c], rest);
  }

  // ---- neighbours that change places ----

  function Exchange(n: nat, i: nat): (p: seq<nat>)
    requires i + 1 < n
    ensures IsPermutation(p, n)
  {
    Identity(n)[i := i + 1][i + 1 := i]
  }

  function Exchanged(data: Matches, i: nat): Matches
    requires i + 1 < |data|
  {
    data[i := data[i + 1]][i + 1 := data[i]]
  }

  lemma ExchangedItems(data: Matches, i: nat)
    requires i + 1 < |data|
    ensures Exchanged(data, i) == Gather(data, Exchange(|data|, i))
    ensures multiset(Exchanged(data, i)) == multiset(data)
  {
    assert Exchanged(data, i) == Gather(data, Exchange(|data|, i));
    GatherKeepsElements(data, Exchange(|data|, i));
  }

  lemma SettledByItems(data: Matches, other: Matches)
    requires multiset(data) == multiset(other) && Settled(data)
    ensures Settled(other)
  {
    SameElements(data, other);
    assert forall k :: 0 <= k < |other| ==> other[k] in other;
    assert forall x :: x in data ==> x.0.Some? || x.1.Some?;
  }

  /** Where neighbours have the same position, their indices are neighbours in the list, too. */
  lemma LevelNeighbours(positions: Positions, i: nat) returns (k: nat)
    requires i + 1 < |positions| && positions[i].Some? && positions[i] == positions[i + 1]
    ensures var s := OrderedIndexes(positions);
            k + 1 < |s| && s[k] == i && s[k + 1] == i + 1
  {
    hide OrderedIndexes;
    OrderedIndexesSorted(positions);
    var s := OrderedIndexes(positions);
    assert HasPosition(positions, i) && HasPosition(positions, i + 1);
    k :| 0 <= k < |s| && s[k] == i;
    var l :| 0 <= l < |s| && s[l] == i + 1;
    assert k < l;
  }

  lemma ExchangedOrder(data: Matches, i: nat)
    requires AllPositioned(data) && i + 1 < |data|
    ensures var h := Extension(Exchange(|data|, i));
            var other := Exchanged(data, i);
            && AllPositioned(other)
            && var indexes1 := Renamed(h, OrderedIndexes(Firsts(other)));
            && var indexes2 := Renamed(h, OrderedIndexes(Seconds(other)));
            && var order := Extended(indexes1, indexes2).order;
            && IsPermutation(order, |data|) && Reordered(other) == Gather(data, order)
  {
    hide OrderedIndexes, Extended, Reconciles, Extension, Renamed;
    var shuffle := Exchange(|data|, i);
    var h: nat -> nat := Extension(shuffle);
    var other := Exchanged(data, i);
    ExchangedItems(data, i);
    ExtensionIsInjective(shuffle);
    MergeCommutesWithRenaming(h, OrderedIndexes(Firsts(other)), OrderedIndexes(Seconds(other)));
    ReorderedIsPermutation(other);
    GatherShuffled(data, shuffle, ReorderedIndexes(other));
  }

  lemma UnlevelExchanged(positions: Positions, i: nat)
    requires i + 1 < |positions| && !(positions[i].Some? && positions[i] == positions[i + 1])
    ensures var other := positions[i := positions[i + 1]][i + 1 := positions[i]];
            Renamed(Extension(Exchange(|positions|, i)), OrderedIndexes(other)) == OrderedIndexes(positions)
  {
    hide OrderedIndexes, Extension;
    assert positions[i := positions[i + 1]][i + 1 := positions[i]] == Gather(positions, Exchange(|positions|, i));
    OrderedIndexesShuffled(positions, Exchange(|positions|, i));
  }

  lemma LevelExchanged(positions: Positions, i: nat) returns (s: seq<nat>, rest: seq<nat>)
    requires i + 1 < |positions| && positions[i].Some? && positions[i] == positions[i + 1]
    ensures OrderedIndexes(positions) == s + [i, i + 1] + rest
    ensures var other := positions[i := positions[i + 1]][i + 1 := positions[i]];
            Renamed(Extension(Exchange(|positions|, i)), OrderedIndexes(other)) == s + [i + 1, i] + rest
  {
    hide OrderedIndexes;
    assert positions[i := positions[i + 1]][i + 1 := positions[i]] == positions;
    var all := OrderedIndexes(positions);
    OrderedIndexesSorted(positions);
    var k := LevelNeighbours(positions, i);
    s, rest := all[..k], all[k + 2..];
    assert all == s + [i, i + 1] + rest;
    var h: nat -> nat := Extension(Exchange(|positions|, i));
    forall l | 0 <= l < |all| && l != k && l != k + 1 ensures h(all[l]) == all[l] {
      assert all[l] in all && all[l] != all[k] && all[l] != all[k + 1];
    }
    assert Renamed(h, all) == s + [i + 1, i] + rest;
  }

  // ---- settled data come out the same ----

  lemma MergedFacts(indexes1: seq<nat>, s: seq<nat>)
    requires Distinct(indexes1) && Distinct(s)
    ensures var m := Extended(indexes1, s);
            && Distinct(m.order) && IsSubsequence(indexes1, m.order)
            && forall v :: v in m.order <==> v in indexes1 || v in s
  {
    hide Extended, IsSubsequence, NewValuesPlaced, DropsOvertaken;
    ExtendedReconciles(indexes1, s);
  }

  /** What has a lower second position, and a higher first one, has been passed, and so has been this item. */
  lemma OvertakenIsPassed(data: Matches, s: seq<nat>, c: nat, m: nat)
    requires AllPositioned(data) && c < |data| && data[c].0.Some? && OvertakenBy(data, data[c].0.value, m)
    requires Distinct(s) && forall v: nat :: v < |data| && data[v].1.Some? && data[v].1.value < m ==> v in s
    ensures Passed(Extended(OrderedIndexes(Firsts(data)), s), c)
  {
    hide OrderedIndexes, Extended, IsSubsequence, Passed, Before;
    var b: nat, l: nat :| data[c].0.value < b && l < m && (Some(b), Some(l)) in data;
    var k: nat :| k < |data| && data[k] == (Some(b), Some(l));
    var indexes1 := OrderedIndexes(Firsts(data));
    OrderedIndexesSorted(Firsts(data));
    ListedBefore(Firsts(data), indexes1, c, k);
    MergedFacts(indexes1, s);
    var merged := Extended(indexes1, s);
    SubsequenceBefore(indexes1, merged.order, c, k);
    AllPassed(indexes1, s);
    assert k in s;
    BeforePassed(merged, c, k);
  }

  lemma ListedBefore(positions: Positions, s: seq<nat>, i: nat, j: nat)
    requires ListsInOrder(positions, s) && HasPosition(positions, i) && HasPosition(positions, j)
    requires i != j && PairLe(Key(positions, i), Key(positions, j))
    ensures Before(s, i, j)
  {
    var k :| 0 <= k < |s| && s[k] == i;
    var l :| 0 <= l < |s| && s[l] == j;
    assert l < k ==> PairLe(Key(positions, s[l]), Key(positions, s[k]));
  }

  lemma BeforePassed<T(!new)>(m: Merge<T>, c: T, k: T)
    requires Distinct(m.order) && m.pos <= |m.order| && Before(m.order, c, k) && Passed(m, k)
    ensures Passed(m, c)
  {
    var i, j :| 0 <= i < j < |m.order| && m.order[i] == c && m.order[j] == k;
    var l :| 0 <= l < m.pos && m.order[..m.pos][l] == k;
    assert m.order[l] == m.order[j];
    assert m.order[..m.pos][i] == c;
  }

  /** The steps for two neighbours on the same level can change places. */
  lemma LevelStepsChange(data: Matches, i: nat, j: nat, s: seq<nat>, rest: seq<nat>)
    requires Settled(data) && j == i + 1 < |data| && data[i] != data[j]
    requires data[i].1.Some? && data[i].1 == data[j].1
    requires OrderedIndexes(Seconds(data)) == s + [i, j] + rest
    ensures var m := Extended(OrderedIndexes(Firsts(data)), s);
            SamePlace(MergeStep(MergeStep(m, i), j), MergeStep(MergeStep(m, j), i))
  {
    hide OrderedIndexes, Extended, MergeStep, Passed, OvertakenBy;
    var m := Extended(OrderedIndexes(Firsts(data)), s);
    assert data[i] in data && data[j] in data;
    BeforeLevel(data, i, s, rest);
    if data[i].0.Some? && data[j].0.Some? {
      KnownFromFirst(data, s, i);
      KnownFromFirst(data, s, j);
      TwoKnown(m, i, j);
    } else if data[i].0.Some? {
      assert data[j] == (None, Some(data[i].1.value)) && data[i] == (Some(data[i].0.value), Some(data[i].1.value));
      OvertakenIsPassed(data, s, i, data[i].1.value);
      OnePassed(m, i, j);
    } else {
      assert data[i] == (None, Some(data[i].1.value)) && data[j] == (Some(data[j].0.value), Some(data[i].1.value));
      OvertakenIsPassed(data, s, j, data[i].1.value);
      OnePassed(m, j, i);
    }
  }

  lemma KnownFromFirst(data: Matches, s: seq<nat>, c: nat)
    requires c < |data| && data[c].0.Some? && Distinct(s)
    ensures c in Extended(OrderedIndexes(Firsts(data)), s).order
  {
    hide OrderedIndexes, Extended;
    OrderedIndexesSorted(Firsts(data));
    assert HasPosition(Firsts(data), c);
    MergedFacts(OrderedIndexes(Firsts(data)), s);
  }

  /** What is listed in front of an index includes all lower positions. */
  lemma BeforeLevel(data: Matches, i: nat, s: seq<nat>, rest: seq<nat>)
    requires i + 1 < |data| && data[i].1.Some? && OrderedIndexes(Seconds(data)) == s + [i, i + 1] + rest
    ensures Distinct(s)
    ensures forall v: nat :: v < |data| && data[v].1.Some? && data[v].1.value < data[i].1.value ==> v in s
  {
    hide OrderedIndexes;
    var positions, all := Seconds(data), OrderedIndexes(Seconds(data));
    OrderedIndexesSorted(positions);
    assert all[|s|] == i && forall k :: 0 <= k < |s| ==> all[k] == s[k];
    forall v: nat | v < |data| && data[v].1.Some? && data[v].1.value < data[i].1.value ensures v in s {
      ListedBefore(positions, all, v, i);
      var k, l :| 0 <= k < l < |all| && all[k] == v && all[l] == i;
      assert l == |s| && s[k] == v;
    }
  }

  lemma NeighboursExchanged(data: Matches, i: nat)
    requires Settled(data) && i + 1 < |data|
    ensures Settled(Exchanged(data, i)) && Reordered(Exchanged(data, i)) == Reordered(data)
  {
    hide OrderedIndexes, Extended, MergeStep, Extension, Renamed, FirstsDecide, LevelAreOvertaken;
    var other := Exchanged(data, i);
    ExchangedItems(data, i);
    SettledByItems(data, other);
    if data[i] == data[i + 1] {
      assert other == data;
    } else {
      ExchangedOrder(data, i);
      FirstsNotLevel(data, i);
      ExchangedSides(data, i);
      UnlevelExchanged(Firsts(data), i);
      if data[i].1.Some? && data[i].1 == data[i + 1].1 {
        var s, rest := LevelExchanged(Seconds(data), i);
        var j: nat := i + 1;
        LevelStepsChange(data, i, j, s, rest);
        NeighboursChange(OrderedIndexes(Firsts(data)), s, i, j, rest);
      } else {
        UnlevelExchanged(Seconds(data), i);
      }
    }
  }

  lemma FirstsNotLevel(data: Matches, i: nat)
    requires Settled(data) && i + 1 < |data| && data[i] != data[i + 1]
    ensures !(data[i].0.Some? && data[i].0 == data[i + 1].0)
  {
    assert data[i] in data && data[i + 1] in data;
  }

  lemma ExchangedSides(data: Matches, i: nat)
    requires i + 1 < |data|
    ensures Firsts(Exchanged(data, i)) == Firsts(data)[i := Firsts(data)[i + 1]][i + 1 := Firsts(data)[i]]
    ensures Seconds(Exchanged(data, i)) == Seconds(data)[i := Seconds(data)[i + 1]][i + 1 := Seconds(data)[i]]
  {
  }

  /** Moves the item at j forward to i. */
  function Forwarded(data: Matches, i: nat, j: nat): Matches
    requires i <= j < |data|
  {
    data[..i] + [data[j]] + data[i..j] + data[j + 1..]
  }

  lemma {:induction false} ForwardedIsSame(data: Matches, i: nat, j: nat)
    requires Settled(data) && i <= j < |data|
    ensures Settled(Forwarded(data, i, j)) && Reordered(Forwarded(data, i, j)) == Reordered(data)
    ensures multiset(Forwarded(data, i, j)) == multiset(data)
    decreases j - i
  {
    hide FirstsDecide, LevelAreOvertaken, Reordered, Forwarded, Exchanged;
    ForwardedStep(data, i, j);
    if i < j {
      ExchangedItems(data, j - 1);
      NeighboursExchanged(data, j - 1);
      ForwardedIsSame(Exchanged(data, j - 1), i, j - 1);
    }
  }

  lemma ForwardedStep(data: Matches, i: nat, j: nat)
    requires i <= j < |data|
    ensures i == j ==> Forwarded(data, i, j) == data
    ensures i < j ==>
              && |Exchanged(data, j - 1)| == |data|
              && Forwarded(Exchanged(data, j - 1), i, j - 1) == Forwarded(data, i, j)
  {
  }

  /** Settled data with the same items come out the same. */
  lemma {:induction false} SameItemsSameResult(data: Matches, other: Matches, i: nat)
    requires Settled(data) && multiset(data) == multiset(other) && i <= |data|
    requires |data| == |other| && data[..i] == other[..i]
    ensures AllPositioned(other) && Reordered(other) == Reordered(data)
    decreases |data| - i
  {
    hide Reordered, FirstsDecide, LevelAreOvertaken;
    SettledByItems(data, other);
    if i == |data| {
      assert data == other;
    } else {
      RestHasItem(data, other, i);
      var j :| i <= j < |data| && data[j] == other[i];
      ForwardedIsSame(data, i, j);
      assert Forwarded(data, i, j)[..i + 1] == data[..i] + [data[j]] == other[..i + 1];
      SameItemsSameResult(Forwarded(data, i, j), other, i + 1);
    }
  }

  lemma RestHasItem(data: Matches, other: Matches, i: nat)
    requires multiset(data) == multiset(other) && i < |data| == |other| && data[..i] == other[..i]
    ensures exists j :: i <= j < |data| && data[j] == other[i]
  {
    assert data == data[..i] + data[i..] && other == other[..i] + other[i..];
    var x := other[i];
    assert multiset(data)[x] == multiset(data[..i])[x] + multiset(data[i..])[x];
    assert multiset(other)[x] == multiset(other[..i])[x] + multiset(other[i..])[x];
    assert other[i..][0] == x && x in multiset(other[i..]);
    assert x in data[i..];
    var k :| 0 <= k < |data[i..]| && data[i..][k] == other[i];
    assert data[i + k] == other[i];
  }

  lemma SettledIgnoresInputOrder(data: Matches)
    requires Settled(data)
    ensures IgnoresInputOrder(data)
  {
    hide FirstsDecide, LevelAreOvertaken, Reordered;
    forall shuffle | IsPermutation(shuffle, |data|)
      ensures AllPositioned(Gather(data, shuffle)) && Reordered(Gather(data, shuffle)) == Reordered(data)
    {
      GatherKeepsElements(data, shuffle);
      SameItemsSameResult(data, Gather(data, shuffle), 0);
    }
  }

  // ---- what comes out the same is settled ----

  /** This item first, for which the first item makes way. */
  ghost function Leading(data: Matches, i: nat): Matches
    requires i < |data|
  {
    data[0 := data[i]][i := data[0]]
  }

  lemma LeadingIsShuffle(data: Matches, i: nat)
    requires AllPositioned(data) && i < |data|
    ensures AllPositioned(Leading(data, i)) && Leading(data, i)[0] == data[i]
    ensures multiset(Leading(data, i)) == multiset(data)
    ensures IgnoresInputOrder(data) ==> Reordered(Leading(data, i)) == Reordered(data)
  {
    hide Reordered;
    var shuffle := Identity(|data|)[0 := i][i := 0];
    assert Leading(data, i) == Gather(data, shuffle);
    assert IsPermutation(shuffle, |data|);
    GatherKeepsElements(data, shuffle);
  }

  /** x comes out, and nothing of a certain kind in front of it. */
  ghost predicate ComesFirst(r: Matches, x: (Option<nat>, Option<nat>), others: set<(Option<nat>, Option<nat>)>) {
    exists k :: 0 <= k < |r| && r[k] == x && forall l :: 0 <= l < k ==> r[l] !in others
  }

  lemma FirstIsOne(
      r: Matches, x: (Option<nat>, Option<nat>), y: (Option<nat>, Option<nat>), others: set<(Option<nat>, Option<nat>)>)
    requires ComesFirst(r, x, others) && ComesFirst(r, y, others) && x in others && y in others
    ensures x == y
  {
  }

  lemma NotBothFirst(r: Matches, x: (Option<nat>, Option<nat>), y: (Option<nat>, Option<nat>))
    requires x != y && ComesFirst(r, x, {y})
    ensures !ComesFirst(r, y, {x})
  {
  }

  /** The first index comes out in front of others, if it comes out in front of each. */
  lemma LeaderFirst(data: Matches, others: set<(Option<nat>, Option<nat>)>)
    requires AllPositioned(data) && data != []
    requires forall v: nat :: 0 < v < |data| && data[v] in others ==> Before(ReorderedIndexes(data), 0, v)
    ensures ComesFirst(Reordered(data), data[0], others)
  {
    hide ReorderedIndexes, Reconciles;
    var order, r := ReorderedIndexes(data), Reordered(data);
    ReorderedIsPermutation(data);
    PermutationIsOnto(order, |data|, 0);
    var k :| 0 <= k < |order| && order[k] == 0;
    forall l | 0 <= l < k ensures r[l] !in others {
      assert order[l] != order[k] && !Before(order, 0, order[l]);
    }
    assert r[k] == data[0];
  }

  lemma OrderFacts(data: Matches)
    requires AllPositioned(data)
    ensures var order := ReorderedIndexes(data);
            && IsPermutation(order, |data|) && IsSubsequence(OrderedIndexes(Firsts(data)), order)
  {
    hide ReorderedIndexes, OrderedIndexes, IsSubsequence, Extended, NewValuesPlaced, DropsOvertaken;
    ReorderedIsPermutation(data);
  }

  /** Of the items with the same first position, the one with the lowest index comes out first. */
  lemma TieLeaderFirst(data: Matches, others: set<(Option<nat>, Option<nat>)>)
    requires AllPositioned(data) && data != [] && data[0].0.Some?
    requires forall x :: x in others ==> x.0 == data[0].0
    ensures ComesFirst(Reordered(data), data[0], others)
  {
    hide ReorderedIndexes, OrderedIndexes, IsSubsequence, Reordered, ComesFirst;
    var positions := Firsts(data);
    OrderFacts(data);
    OrderedIndexesSorted(positions);
    forall v: nat | 0 < v < |data| && data[v] in others ensures Before(ReorderedIndexes(data), 0, v) {
      ListedBefore(positions, OrderedIndexes(positions), 0, v);
      SubsequenceBefore(OrderedIndexes(positions), ReorderedIndexes(data), 0, v);
    }
    LeaderFirst(data, others);
  }

  lemma IgnoresFirstsDecide(data: Matches)
    requires AllPositioned(data) && IgnoresInputOrder(data)
    ensures FirstsDecide(data)
  {
    hide Reordered, IgnoresInputOrder, ComesFirst;
    forall x, y | x in data && y in data && x.0.Some? && x.0 == y.0 ensures x == y {
      var i: nat :| i < |data| && data[i] == x;
      var j: nat :| j < |data| && data[j] == y;
      LeadingIsShuffle(data, i);
      LeadingIsShuffle(data, j);
      TieLeaderFirst(Leading(data, i), {x, y});
      TieLeaderFirst(Leading(data, j), {x, y});
      FirstIsOne(Reordered(data), x, y, {x, y});
    }
  }

  // ---- an item on the level of a new one ----

  /** Nothing new comes in front of an item placed by both that has the lowest index on its level. */
  lemma CommonBeforeNew(order: seq<nat>, kept: seq<nat>, indexes1: seq<nat>, indexes2: seq<nat>, c: nat, v: nat)
    requires Reconciles(order, kept, indexes1, indexes2) && Distinct(indexes2)
    requires Before(indexes2, c, v) && v !in indexes1
    ensures Before(order, c, v)
  {
    hide NewValuesPlaced;
    var p, q :| 0 <= p < q < |indexes2| && indexes2[p] == c && indexes2[q] == v;
    assert v in kept;
    if c in kept {
      KeptKeepOrder(order, kept, indexes2, c, v);
    } else {
      var i :| 0 <= i < p && indexes2[i] in kept && Before(order, indexes2[p], indexes2[i]);
      assert Before(indexes2, indexes2[i], v);
      KeptKeepOrder(order, kept, indexes2, indexes2[i], v);
      BeforeTrans(order, c, indexes2[i], v);
    }
  }

  lemma BeforeTrans(s: seq<nat>, x: nat, y: nat, z: nat)
    requires Distinct(s) && Before(s, x, y) && Before(s, y, z)
    ensures Before(s, x, z)
  {
  }

  lemma KeptKeepOrder(order: seq<nat>, kept: seq<nat>, indexes2: seq<nat>, x: nat, y: nat)
    requires IsSubsequence(kept, order) && IsSubsequence(kept, indexes2) && Distinct(indexes2)
    requires x in kept && y in kept && Before(indexes2, x, y)
    ensures Before(order, x, y)
  {
    hide IsSubsequence;
    BeforeInSubsequence(kept, indexes2, x, y);
    SubsequenceBefore(kept, order, x, y);
  }

  lemma CommonLeaderFirst(data: Matches)
    requires AllPositioned(data) && data != [] && data[0].0.Some? && data[0].1.Some?
    ensures ComesFirst(Reordered(data), data[0], {(None, data[0].1)})
  {
    hide ReorderedIndexes, OrderedIndexes, Extended, Reconciles, Reordered, ComesFirst;
    var indexes1, indexes2 := OrderedIndexes(Firsts(data)), OrderedIndexes(Seconds(data));
    OrderedIndexesSorted(Firsts(data));
    OrderedIndexesSorted(Seconds(data));
    ReorderedIsPermutation(data);
    forall v: nat | 0 < v < |data| && data[v] in {(None, data[0].1)} ensures Before(ReorderedIndexes(data), 0, v) {
      ListedBefore(Seconds(data), indexes2, 0, v);
      assert !HasPosition(Firsts(data), v);
      CommonBeforeNew(ReorderedIndexes(data), Extended(indexes1, indexes2).kept, indexes1, indexes2, 0, v);
    }
    LeaderFirst(data, {(None, data[0].1)});
  }

  lemma StepNotPassed(m: Merge<nat>, v: nat, c: nat)
    requires m.pos <= |m.order| && Distinct(m.order) && c in m.order[m.pos..]
    requires v in m.order ==> Before(m.order, v, c)
    ensures c in MergeStep(m, v).order[MergeStep(m, v).pos..]
  {
    hide Distinct, Before;
    match Find(m.order, v)
    case None =>
      assert MergeStep(m, v).order[m.pos + 1..] == m.order[m.pos..];
    case Some(found) =>
      if m.pos <= found { NextNotPassed(m, found, c); }
  }

  lemma NextNotPassed(m: Merge<nat>, found: nat, c: nat)
    requires Distinct(m.order) && m.pos <= found < |m.order| && Before(m.order, m.order[found], c)
    ensures c in m.order[found + 1..]
  {
    var i, j :| 0 <= i < j < |m.order| && m.order[i] == m.order[found] && m.order[j] == c;
    assert m.order[found + 1..][j - found - 1] == c;
  }

  /** As long as only items come up that are in front of c anyway, c is not passed. */
  lemma {:induction false} NotPassed(indexes1: seq<nat>, indexes2: seq<nat>, c: nat)
    requires Distinct(indexes1) && Distinct(indexes2) && c in indexes1
    requires forall v :: v in indexes2 && v in indexes1 ==> Before(indexes1, v, c)
    ensures var m := Extended(indexes1, indexes2);
            c in m.order[m.pos..]
  {
    hide MergeStep, IsSubsequence, Before;
    if indexes2 != [] {
      var n := |indexes2| - 1;
      var v, m := indexes2[n], Extended(indexes1, indexes2[..n]);
      assert indexes2 == indexes2[..n] + [v] && v !in indexes2[..n];
      NotPassed(indexes1, indexes2[..n], c);
      MergedFacts(indexes1, indexes2[..n]);
      if v in m.order { SubsequenceBefore(indexes1, m.order, v, c); }
      StepNotPassed(m, v, c);
    }
  }

  lemma {:induction false} OrderGrows(indexes1: seq<nat>, s: seq<nat>, rest: seq<nat>)
    ensures IsSubsequence(Extended(indexes1, s).order, Extended(indexes1, s + rest).order)
  {
    hide Extended, IsSubsequence;
    var order := Extended(indexes1, s).order;
    if rest == [] {
      assert s + rest == s;
      SelfSubsequence(order);
    } else {
      var n := |rest| - 1;
      OrderGrows(indexes1, s, rest[..n]);
      assert s + rest == s + rest[..n] + [rest[n]];
      OneMoreStep(indexes1, s + rest[..n], rest[n]);
      var m := Extended(indexes1, s + rest[..n]);
      SubsequenceInsert(order, m.order, m.pos, rest[n]);
    }
  }

  /** A new value is inserted in front of what has not been passed. */
  lemma NewBeforeNotPassed(indexes1: seq<nat>, s: seq<nat>, v: nat, rest: seq<nat>, c: nat)
    requires Distinct(indexes1) && Distinct(s) && v !in indexes1 && v !in s
    requires var m := Extended(indexes1, s); c in m.order[m.pos..]
    ensures Before(Extended(indexes1, s + [v] + rest).order, v, c)
  {
    hide Extended, IsSubsequence;
    var m := Extended(indexes1, s);
    MergedFacts(indexes1, s);
    OneMoreStep(indexes1, s, v);
    var order := Extended(indexes1, s + [v]).order;
    assert order == Insert(m.order, m.pos, v);
    var k :| 0 <= k < |m.order[m.pos..]| && m.order[m.pos..][k] == c;
    assert order[m.pos] == v && order[m.pos + 1 + k] == c;
    OrderGrows(indexes1, s + [v], rest);
    SubsequenceBefore(order, Extended(indexes1, s + [v] + rest).order, v, c);
  }

  /** In front of the lowest index on its level, the second ordering lists only lower levels. */
  lemma BeforeLeader(data: Matches) returns (s: seq<nat>, rest: seq<nat>)
    requires data != [] && data[0].1.Some?
    ensures OrderedIndexes(Seconds(data)) == s + [0] + rest && Distinct(s) && 0 !in s
    ensures forall v: nat :: v in s ==> v < |data| && data[v].1.Some? && data[v].1.value < data[0].1.value
  {
    hide OrderedIndexes;
    var positions, all := Seconds(data), OrderedIndexes(Seconds(data));
    OrderedIndexesSorted(positions);
    assert HasPosition(positions, 0);
    var k :| 0 <= k < |all| && all[k] == 0;
    s, rest := all[..k], all[k + 1..];
    forall v: nat | v in s ensures v < |data| && data[v].1.Some? && data[v].1.value < data[0].1.value && v != 0 {
      var l :| 0 <= l < k && all[l] == v;
      assert PairLe(Key(positions, all[l]), Key(positions, all[k]));
    }
  }

  /** By the first ordering, all that comes up before a level is in front of an item on it, unless that is
      overtaken. */
  lemma LowerInFront(data: Matches, a: nat, m: nat, c: nat, v: nat)
    requires AllPositioned(data) && FirstsDecide(data) && !OvertakenBy(data, a, m)
    requires c < |data| && data[c] == (Some(a), Some(m))
    requires v < |data| && data[v].0.Some? && data[v].1.Some? && data[v].1.value < m
    ensures Before(OrderedIndexes(Firsts(data)), v, c)
  {
    hide OrderedIndexes;
    assert data[v] in data && data[c] in data;
    assert data[v] == (Some(data[v].0.value), Some(data[v].1.value));
    OrderedIndexesSorted(Firsts(data));
    ListedBefore(Firsts(data), OrderedIndexes(Firsts(data)), v, c);
  }

  lemma NewLeaderFirst(data: Matches, a: nat, m: nat)
    requires AllPositioned(data) && FirstsDecide(data) && data != [] && data[0] == (None, Some(m))
    requires !OvertakenBy(data, a, m)
    ensures ComesFirst(Reordered(data), data[0], {(Some(a), Some(m))})
  {
    hide OrderedIndexes, Extended, Reordered, ComesFirst, FirstsDecide, OvertakenBy, Before;
    var indexes1 := OrderedIndexes(Firsts(data));
    OrderedIndexesSorted(Firsts(data));
    var s, rest := BeforeLeader(data);
    forall c: nat | 0 < c < |data| && data[c] in {(Some(a), Some(m))} ensures Before(ReorderedIndexes(data), 0, c) {
      assert HasPosition(Firsts(data), c) && !HasPosition(Firsts(data), 0);
      forall v | v in s && v in indexes1 ensures Before(indexes1, v, c) {
        assert HasPosition(Firsts(data), v);
        LowerInFront(data, a, m, c, v);
      }
      NotPassed(indexes1, s, c);
      NewBeforeNotPassed(indexes1, s, 0, rest, c);
    }
    LeaderFirst(data, {(Some(a), Some(m))});
  }

  lemma IgnoresLevelAreOvertaken(data: Matches)
    requires AllPositioned(data) && FirstsDecide(data) && IgnoresInputOrder(data)
    ensures LevelAreOvertaken(data)
  {
    hide Reordered, IgnoresInputOrder, ComesFirst, OvertakenBy;
    forall a: nat, m: nat | (None, Some(m)) in data && (Some(a), Some(m)) in data ensures OvertakenBy(data, a, m) {
      if !OvertakenBy(data, a, m) {
        BothCanLead(data, a, m);
        NotBothFirst(Reordered(data), (None, Some(m)), (Some(a), Some(m)));
      }
    }
  }

  lemma BothCanLead(data: Matches, a: nat, m: nat)
    requires AllPositioned(data) && FirstsDecide(data) && IgnoresInputOrder(data) && !OvertakenBy(data, a, m)
    requires (None, Some(m)) in data && (Some(a), Some(m)) in data
    ensures ComesFirst(Reordered(data), (None, Some(m)), {(Some(a), Some(m))})
    ensures ComesFirst(Reordered(data), (Some(a), Some(m)), {(None, Some(m))})
  {
    hide Reordered, IgnoresInputOrder, ComesFirst;
    var v: nat :| v < |data| && data[v] == (None, Some(m));
    var c: nat :| c < |data| && data[c] == (Some(a), Some(m));
    LeadingIsShuffle(data, v);
    LeadingIsShuffle(data, c);
    SameElements(data, Leading(data, v));
    NewLeaderFirst(Leading(data, v), a, m);
    CommonLeaderFirst(Leading(data, c));
  }

  /** The result does not depend on the order of the input exactly if the data are settled. */
  lemma IgnoresInputOrderIffSettled(data: Matches)
    requires AllPositioned(data)
    ensures IgnoresInputOrder(data) <==> FirstsDecide(data) && LevelAreOvertaken(data)
  {
    hide IgnoresInputOrder, FirstsDecide, LevelAreOvertaken;
    if FirstsDecide(data) && LevelAreOvertaken(data) {
      SettledIgnoresInputOrder(data);
    }
    if IgnoresInputOrder(data) {
      IgnoresFirstsDecide(data);
      IgnoresLevelAreOvertaken(data);
    }
  }

  /** In particular, it does not if positions do not repeat. */
  lemma DistinctIgnoresInputOrder(data: Matches)
    requires AllPositioned(data) && DistinctPositions(Firsts(data)) && DistinctPositions(Seconds(data))
    ensures IgnoresInputOrder(data)
  {
    hide IgnoresInputOrder;
    assert forall k :: 0 <= k < |data| ==> Firsts(data)[k] == data[k].0 && Seconds(data)[k] == data[k].1;
    IgnoresInputOrderIffSettled(data);
  }

  lemma {:induction false} PresentOnce(positions: Positions)
    requires Distinct(Present(positions))
    ensures DistinctPositions(positions)
    ensures forall k :: 0 <= k < |positions| && positions[k].Some? ==> positions[k].value in Present(positions)
  {
    if positions != [] {
      var rest, all := positions[1..], Present(positions);
      var skipped := |all| - |Present(rest)|;
      assert Present(rest) == all[skipped..];
      PresentOnce(rest);
      assert forall k :: 0 < k < |positions| ==> positions[k] == rest[k - 1];
      assert forall i :: i in Present(rest) ==> i in all[skipped..];
      if positions[0].Some? {
        assert positions[0].value == all[0] && all[0] !in all[1..];
      }
    }
  }

  /** What is reordered are the pairs of a matching, each index in one of them. */
  lemma MatchedIgnoresInputOrder(keys1: seq<string>, keys2: seq<string>)
    ensures AllPositioned(Paired(SortedKeys(keys1), SortedKeys(keys2)))
    ensures IgnoresInputOrder(Paired(SortedKeys(keys1), SortedKeys(keys2)))
  {
    hide Paired, SortedKeys, IgnoresInputOrder, Firsts, Seconds;
    var pairs := Paired(SortedKeys(keys1), SortedKeys(keys2));
    PairUpCoversAll(keys1, keys2);
    PresentOnce(Firsts(pairs));
    PresentOnce(Seconds(pairs));
    DistinctIgnoresInputOrder(pairs);
  }

  /** For instance, two items with the same first position stay as they were. */
  lemma TiesFollowInputOrder(p: nat, m: nat, n: nat)
    ensures AllPositioned([(Some(p), Some(m)), (Some(p), Some(n))])
    ensures Reordered([(Some(p), Some(m)), (Some(p), Some(n))]) == [(Some(p), Some(m)), (Some(p), Some(n))]
  {
    hide OrderedIndexes, Extended;
    var data: Matches := [(Some(p), Some(m)), (Some(p), Some(n))];
    assert Firsts(data) == [Some(p), Some(p)] && Seconds(data) == [Some(m), Some(n)];
    hide Firsts, Seconds;
    TwoOrdered(p, p);
    TwoOrdered(m, n);
    TwoExtended();
    assert ReorderedIndexes(data) == [0, 1];
  }

  lemma TwoIndexed(m: nat, n: nat)
    ensures PositionIndexes([Some(m), Some(n)]) == [(m, 0), (n, 1)]
  {
    var positions: Positions := [Some(m), Some(n)];
    assert positions[..1] == [Some(m)] && positions[..1][..0] == [];
    assert PositionIndexes(positions[..1]) == [(m, 0)];
  }

  lemma TwoSorted(x: (nat, nat), y: (nat, nat))
    ensures Sort([x, y], PairLe) == if PairLe(x, y) then [x, y] else [y, x]
  {
    assert [x, y][1..] == [y] && [y][1..] == [];
    assert Sort([y], PairLe) == [y];
    assert Sort([x, y], PairLe) == InsertSorted(x, [y], PairLe);
    assert InsertSorted(x, [], PairLe) == [x];
  }

  lemma TwoOrdered(m: nat, n: nat)
    ensures OrderedIndexes([Some(m), Some(n)]) == if m <= n then [0, 1] else [1, 0]
  {
    hide PositionIndexes, Sort;
    TwoIndexed(m, n);
    TwoSorted((m, 0), (n, 1));
  }

  lemma TwoExtended()
    ensures Extended<nat>([0, 1], [0, 1]).order == [0, 1]
    ensures Extended<nat>([0, 1], [1, 0]).order == [0, 1]
  {
  }
}

/** Matching the children of two nodes by key: MatchingKeys and PairUp of stg.cc. */
module Matching {
  import opened Wrappers
  import opened Sequences
  import opened Strings
  import opened Graph
  import opened Order

  type KeyIndexPairs = seq<(string, nat)>

  predicate KeyIndexLe(x: (string, nat), y: (string, nat)) {
    CompareStrings(x.0, y.0) < 0 || (x.0 == y.0 && x.1 <= y.1)
  }

  lemma KeyIndexLeIsTotal()
    ensures TotalOrder(KeyIndexLe)
  {
    forall x, y ensures (KeyIndexLe(x, y) || KeyIndexLe(y, x)) && (KeyIndexLe(x, y) && KeyIndexLe(y, x) ==> x == y) {
      CompareMirrors(x.0, y.0);
      CompareMirrors(y.0, x.0);
    }
    forall x, y, z | KeyIndexLe(x, y) && KeyIndexLe(y, z) ensures KeyIndexLe(x, z) {
      StringLeTransitive(x.0, y.0, z.0);
      CompareMirrors(x.0, y.0);
    }
  }

  /** Each key with its index. */
  function Indexed(keys: seq<string>): KeyIndexPairs {
    seq(|keys|, k requires 0 <= k < |keys| => (keys[k], k))
  }

  function SortedKeys(keys: seq<string>): KeyIndexPairs {
    Sort(Indexed(keys), KeyIndexLe)
  }

  /** The keys of the nodes; those without one are numbered as they come. */
  function NodeKeys(g: Graph, nodes: seq<Id>): (r: (seq<string>, nat))
    requires WellFormed(g) && forall id :: id in nodes ==> id in g
    ensures |r.0| == |nodes|
  {
    if nodes == [] then ([], 0)
    else
      var n := |nodes| - 1;
      var (keys, anonymousIx) := NodeKeys(g, nodes[..n]);
      var key := MatchingKey(g, nodes[n]);
      if key == "" then (keys + ["#anon#" + Decimal(anonymousIx)], anonymousIx + 1)
      else (keys + [key], anonymousIx)
  }

  method MatchingKeys(g: Graph, nodes: seq<Id>) returns (keys: KeyIndexPairs)
    requires WellFormed(g) && forall id :: id in nodes ==> id in g
    ensures keys == SortedKeys(NodeKeys(g, nodes).0)
  {
    hide WellFormed, MatchingKey;
    keys := [];
    var anonymousIx := 0;
    for ix := 0 to |nodes|
      invariant keys == Indexed(NodeKeys(g, nodes[..ix]).0) && anonymousIx == NodeKeys(g, nodes[..ix]).1
    {
      assert nodes[..ix + 1][..ix] == nodes[..ix] && nodes[ix] in nodes;
      var key := MatchingKey(g, nodes[ix]);
      if key == "" {
        key := "#anon#" + Decimal(anonymousIx);
        anonymousIx := anonymousIx + 1;
      }
      keys := keys + [(key, ix)];
    }
    assert nodes[..|nodes|] == nodes;
    keys := Sort(keys, KeyIndexLe);
  }

  /** The merge join of two sorted key lists. */
  function Paired(keys1: KeyIndexPairs, keys2: KeyIndexPairs): Matches {
    if keys1 == [] && keys2 == [] then []
    else if keys2 == [] || (keys1 != [] && CompareStrings(keys1[0].0, keys2[0].0) < 0) then
      [(Some(keys1[0].1), None)] + Paired(keys1[1..], keys2)
    else if keys1 == [] || CompareStrings(keys1[0].0, keys2[0].0) > 0 then
      [(None, Some(keys2[0].1))] + Paired(keys1, keys2[1..])
    else
      [(Some(keys1[0].1), Some(keys2[0].1))] + Paired(keys1[1..], keys2[1..])
  }

  lemma PairNext(keys1: KeyIndexPairs, i: nat, keys2: KeyIndexPairs, j: nat)
    requires i <= |keys1| && j <= |keys2| && (i < |keys1| || j < |keys2|)
    ensures Paired(keys1[i..], keys2[j..]) ==
            if j == |keys2| || (i < |keys1| && CompareStrings(keys1[i].0, keys2[j].0) < 0) then
              [(Some(keys1[i].1), None)] + Paired(keys1[i + 1..], keys2[j..])
            else if i == |keys1| || CompareStrings(keys1[i].0, keys2[j].0) > 0 then
              [(None, Some(keys2[j].1))] + Paired(keys1[i..], keys2[j + 1..])
            else [(Some(keys1[i].1), Some(keys2[j].1))] + Paired(keys1[i + 1..], keys2[j + 1..])
  {
  }

  lemma NothingToPair()
    ensures Paired([], []) == []
  {
  }

  method PairUp(keys1: KeyIndexPairs, keys2: KeyIndexPairs) returns (pairs: Matches)
    ensures pairs == Paired(keys1, keys2)
  {
    hide Paired, CompareStrings;
    pairs := [];
    var it1, it2 := 0, 0;
    while it1 != |keys1| || it2 != |keys2|
      invariant it1 <= |keys1| && it2 <= |keys2|
      invariant Paired(keys1, keys2) == pairs + Paired(keys1[it1..], keys2[it2..])
      decreases |keys1| - it1 + |keys2| - it2
    {
      PairNext(keys1, it1, keys2, it2);
      if it2 == |keys2| || (it1 != |keys1| && CompareStrings(keys1[it1].0, keys2[it2].0) < 0) {
        pairs := pairs + [(Some(keys1[it1].1), None)];
        it1 := it1 + 1;
      } else if it1 == |keys1| || (it2 != |keys2| && CompareStrings(keys1[it1].0, keys2[it2].0) > 0) {
        pairs := pairs + [(None, Some(keys2[it2].1))];
        it2 := it2 + 1;
      } else {
        pairs := pairs + [(Some(keys1[it1].1), Some(keys2[it2].1))];
        it1 := it1 + 1;
        it2 := it2 + 1;
      }
    }
    assert keys1[it1..] == [] && keys2[it2..] == [];
    NothingToPair();
  }

  // ---- what is matched with what ----

  /** The indices at which a key occurs, in ascending order. */
  function Occurrences(keys: seq<string>, key: string): (r: seq<nat>)
    ensures forall i :: i in r <==> 0 <= i < |keys| && keys[i] == key
    ensures forall k, l :: 0 <= k < l < |r| ==> r[k] < r[l]
  {
    if keys == [] then []
    else
      var n := |keys| - 1;
      var before := Occurrences(keys[..n], key);
      assert forall k :: 0 <= k < |before| ==> before[k] in before;
      before + if keys[n] == key then [n] else []
  }

  /** The entries of a key list for one key. */
  function Entries(pairs: KeyIndexPairs, key: string): seq<nat> {
    if pairs == [] then []
    else if pairs[0].0 == key then [pairs[0].1] + Entries(pairs[1..], key)
    else Entries(pairs[1..], key)
  }

  /** The k-th of one list with the k-th of the other, and the rest of the longer one on its own. */
  function Zipped(s: seq<nat>, t: seq<nat>): Matches {
    if s == [] && t == [] then []
    else if t == [] then [(Some(s[0]), None)] + Zipped(s[1..], t)
    else if s == [] then [(None, Some(t[0]))] + Zipped(s, t[1..])
    else [(Some(s[0]), Some(t[0]))] + Zipped(s[1..], t[1..])
  }

  /** The key of a pair of indices into two lists of keys. */
  ghost predicate HasKey(pair: (Option<nat>, Option<nat>), keys1: seq<string>, keys2: seq<string>, key: string) {
    match pair
    case (Some(i), _) => i < |keys1| && keys1[i] == key
    case (None, Some(j)) => j < |keys2| && keys2[j] == key
    case (None, None) => false
  }

  ghost function WithKey(pairs: Matches, keys1: seq<string>, keys2: seq<string>, key: string): Matches {
    if pairs == [] then []
    else if HasKey(pairs[0], keys1, keys2, key) then [pairs[0]] + WithKey(pairs[1..], keys1, keys2, key)
    else WithKey(pairs[1..], keys1, keys2, key)
  }

  /** The entries of a key list are what the keys say. */
  ghost predicate Indexes(pairs: KeyIndexPairs, keys: seq<string>) {
    forall k :: 0 <= k < |pairs| ==> pairs[k].1 < |keys| && keys[pairs[k].1] == pairs[k].0
  }

  ghost predicate SortedByKey(pairs: KeyIndexPairs) {
    forall k, l :: 0 <= k < l < |pairs| ==> StringLe(pairs[k].0, pairs[l].0)
  }

  lemma {:induction false} NoEntries(pairs: KeyIndexPairs, key: string)
    requires forall k :: 0 <= k < |pairs| ==> pairs[k].0 != key
    ensures Entries(pairs, key) == []
  {
    if pairs != [] {
      NoEntries(pairs[1..], key);
    }
  }

  /** Everything after a greater key is greater. */
  lemma NoSmallerEntries(pairs: KeyIndexPairs, key: string)
    requires SortedByKey(pairs) && (pairs != [] ==> CompareStrings(key, pairs[0].0) < 0)
    ensures Entries(pairs, key) == []
  {
    StringLeIsTotal();
    forall k | 0 <= k < |pairs| ensures pairs[k].0 != key {
      CompareMirrors(key, pairs[0].0);
      if k > 0 { assert StringLe(pairs[0].0, pairs[k].0); }
    }
    NoEntries(pairs, key);
  }

  lemma {:induction false} PairedZipsEntries(
      pairs1: KeyIndexPairs, pairs2: KeyIndexPairs, keys1: seq<string>, keys2: seq<string>, key: string)
    requires SortedByKey(pairs1) && SortedByKey(pairs2) && Indexes(pairs1, keys1) && Indexes(pairs2, keys2)
    ensures WithKey(Paired(pairs1, pairs2), keys1, keys2, key) == Zipped(Entries(pairs1, key), Entries(pairs2, key))
    decreases |pairs1| + |pairs2|
  {
    if pairs1 == [] && pairs2 == [] {
    } else if pairs2 == [] || (pairs1 != [] && CompareStrings(pairs1[0].0, pairs2[0].0) < 0) {
      PairedZipsEntries(pairs1[1..], pairs2, keys1, keys2, key);
      NoSmallerEntries(pairs2, pairs1[0].0);
    } else if pairs1 == [] || CompareStrings(pairs1[0].0, pairs2[0].0) > 0 {
      PairedZipsEntries(pairs1, pairs2[1..], keys1, keys2, key);
      if pairs1 != [] { CompareMirrors(pairs2[0].0, pairs1[0].0); }
      NoSmallerEntries(pairs1, pairs2[0].0);
    } else {
      PairedZipsEntries(pairs1[1..], pairs2[1..], keys1, keys2, key);
    }
  }

  lemma SortedKeysSorted(keys: seq<string>)
    ensures SortedByKey(SortedKeys(keys)) && Indexes(SortedKeys(keys), keys) && Distinct(SortedKeys(keys))
    ensures SortedBy(SortedKeys(keys), KeyIndexLe)
    ensures forall key, i :: (key, i) in SortedKeys(keys) <==> 0 <= i < |keys| && keys[i] == key
  {
    var pairs := Indexed(keys);
    KeyIndexLeIsTotal();
    SortSorts(pairs, KeyIndexLe);
    SameElements(pairs, SortedKeys(keys));
    forall key, i ensures (key, i) in pairs <==> 0 <= i < |keys| && keys[i] == key {
      if 0 <= i < |keys| { assert pairs[i] == (keys[i], i); }
    }
    forall k | 0 <= k < |SortedKeys(keys)|
      ensures SortedKeys(keys)[k].1 < |keys| && keys[SortedKeys(keys)[k].1] == SortedKeys(keys)[k].0
    {
      assert SortedKeys(keys)[k] in pairs;
    }
  }

  lemma {:induction false} EntriesHold(pairs: KeyIndexPairs, key: string)
    ensures forall i :: i in Entries(pairs, key) <==> (key, i) in pairs
    ensures Distinct(pairs) && SortedBy(pairs, KeyIndexLe) ==>
              forall k, l :: 0 <= k < l < |Entries(pairs, key)| ==> Entries(pairs, key)[k] < Entries(pairs, key)[l]
  {
    if pairs != [] {
      var rest := Entries(pairs[1..], key);
      EntriesHold(pairs[1..], key);
      assert pairs == [pairs[0]] + pairs[1..];
      if pairs[0].0 == key && Distinct(pairs) && SortedBy(pairs, KeyIndexLe) {
        forall l | 0 <= l < |rest| ensures pairs[0].1 < rest[l] {
          assert rest[l] in rest;
          var k :| 0 <= k < |pairs[1..]| && pairs[1..][k] == (key, rest[l]);
          assert KeyIndexLe(pairs[0], pairs[k + 1]) && pairs[0] != pairs[k + 1];
        }
      }
    }
  }

  /** Sorting keeps the entries of each key in their original order. */
  lemma EntriesAreOccurrences(keys: seq<string>, key: string)
    ensures Entries(SortedKeys(keys), key) == Occurrences(keys, key)
  {
    SortedKeysSorted(keys);
    EntriesHold(SortedKeys(keys), key);
    var s, t := Entries(SortedKeys(keys), key), Occurrences(keys, key);
    var le := (i: nat, j: nat) => i <= j;
    forall i ensures i in s <==> i in t {
      assert i in s <==> (key, i) in SortedKeys(keys);
    }
    SortedIsUnique(s, t, le);
  }

  /** For every key, the k-th occurrence on the left is paired with the k-th on the right up to the
      smaller count; the rest are removed or added. */
  lemma PairUpMatchesByRank(keys1: seq<string>, keys2: seq<string>, key: string)
    ensures WithKey(Paired(SortedKeys(keys1), SortedKeys(keys2)), keys1, keys2, key)
         == Zipped(Occurrences(keys1, key), Occurrences(keys2, key))
  {
    SortedKeysSorted(keys1);
    SortedKeysSorted(keys2);
    PairedZipsEntries(SortedKeys(keys1), SortedKeys(keys2), keys1, keys2, key);
    EntriesAreOccurrences(keys1, key);
    EntriesAreOccurrences(keys2, key);
  }

  /** The indices present on one side, in the order of the pairs. */
  ghost function Present(positions: Positions): seq<nat> {
    if positions == [] then []
    else if positions[0].Some? then [positions[0].value] + Present(positions[1..])
    else Present(positions[1..])
  }

  lemma {:induction false} PairedUsesEachOnce(keys1: KeyIndexPairs, keys2: KeyIndexPairs)
    ensures Present(Firsts(Paired(keys1, keys2))) == Indices(keys1)
    ensures Present(Seconds(Paired(keys1, keys2))) == Indices(keys2)
    ensures AllPositioned(Paired(keys1, keys2))
    decreases |keys1| + |keys2|
  {
    var pairs := Paired(keys1, keys2);
    if pairs != [] {
      assert Firsts(pairs)[1..] == Firsts(pairs[1..]) && Seconds(pairs)[1..] == Seconds(pairs[1..]);
      PairedUsesEachOnce(if pairs[0].0.Some? then keys1[1..] else keys1,
                         if pairs[0].1.Some? then keys2[1..] else keys2);
    }
  }

  function Indices(pairs: KeyIndexPairs): seq<nat> {
    if pairs == [] then [] else [pairs[0].1] + Indices(pairs[1..])
  }

  lemma {:induction false} IndicesAt(pairs: KeyIndexPairs)
    ensures |Indices(pairs)| == |pairs|
    ensures forall k :: 0 <= k < |pairs| ==> Indices(pairs)[k] == pairs[k].1
  {
    if pairs != [] { IndicesAt(pairs[1..]); }
  }

  /** Every index of either side occurs in exactly one pair. */
  lemma PairUpCoversAll(keys1: seq<string>, keys2: seq<string>)
    ensures AllPositioned(Paired(SortedKeys(keys1), SortedKeys(keys2)))
    ensures IsPermutation(Present(Firsts(Paired(SortedKeys(keys1), SortedKeys(keys2)))), |keys1|)
    ensures IsPermutation(Present(Seconds(Paired(SortedKeys(keys1), SortedKeys(keys2)))), |keys2|)
  {
    PairedUsesEachOnce(SortedKeys(keys1), SortedKeys(keys2));
    IndicesArePermutation(keys1);
    IndicesArePermutation(keys2);
  }

  lemma IndicesArePermutation(keys: seq<string>)
    ensures IsPermutation(Indices(SortedKeys(keys)), |keys|)
  {
    var pairs := SortedKeys(keys);
    SortedKeysSorted(keys);
    IndicesAt(pairs);
    forall i: nat ensures i in Indices(pairs) <==> i < |keys| {
      if i < |keys| {
        assert (keys[i], i) in pairs;
        var k :| 0 <= k < |pairs| && pairs[k] == (keys[i], i);
        assert Indices(pairs)[k] == i;
      }
    }
    forall k, l | 0 <= k < l < |pairs| ensures Indices(pairs)[k] != Indices(pairs)[l] {
      assert pairs[k] != pairs[l];
    }
    ListingIsPermutation(Indices(pairs), |keys|);
  }
}

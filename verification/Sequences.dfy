/** Vocabulary for orderings kept in sequences: distinct elements, subsequences, permutations, and
    sorting as std::stable_sort does it. */
module Sequences {

  ghost predicate Distinct<T>(s: seq<T>) {
    forall i, j :: 0 <= i < j < |s| ==> s[i] != s[j]
  }

  /** f places each element of s in t, keeping their order. */
  ghost predicate Embeds<T>(f: seq<nat>, s: seq<T>, t: seq<T>) {
    && |f| == |s|
    && (forall k :: 0 <= k < |f| ==> f[k] < |t| && t[f[k]] == s[k])
    && (forall k, l :: 0 <= k < l < |f| ==> f[k] < f[l])
  }

  ghost predicate IsSubsequence<T>(s: seq<T>, t: seq<T>) {
    exists f :: Embeds(f, s, t)
  }

  /** x occurs in s before y does. */
  ghost predicate Before<T>(s: seq<T>, x: T, y: T) {
    exists i, j :: 0 <= i < j < |s| && s[i] == x && s[j] == y
  }

  /** s occurs in t as one block. */
  ghost predicate Infix<T(!new)>(s: seq<T>, t: seq<T>) {
    exists before, after :: t == before + s + after
  }

  lemma InfixTrans<T(!new)>(s: seq<T>, t: seq<T>, u: seq<T>)
    requires Infix(s, t) && Infix(t, u)
    ensures Infix(s, u)
  {
    var before, after :| t == before + s + after;
    var before2, after2 :| u == before2 + t + after2;
    assert u == (before2 + before) + s + (after + after2);
  }

  lemma InfixSelf<T(!new)>(s: seq<T>)
    ensures Infix(s, s)
  {
    assert s == [] + s + [];
  }

  lemma InfixSum<T(!new)>(s: seq<T>, before: seq<T>, t: seq<T>, after: seq<T>)
    requires Infix(s, t)
    ensures Infix(s, before + t + after)
  {
    assert Infix(t, before + t + after);
    InfixTrans(s, t, before + t + after);
  }

  function Insert<T>(s: seq<T>, pos: nat, x: T): seq<T>
    requires pos <= |s|
  {
    s[..pos] + [x] + s[pos..]
  }

  lemma EmptySubsequence<T>(t: seq<T>)
    ensures IsSubsequence([], t)
  {
    assert Embeds([], [], t);
  }

  lemma SelfSubsequence<T>(s: seq<T>)
    ensures IsSubsequence(s, s)
  {
    assert Embeds(seq(|s|, i => i), s, s);
  }

  lemma SubsequenceInsert<T>(s: seq<T>, t: seq<T>, pos: nat, x: T)
    requires IsSubsequence(s, t) && pos <= |t|
    ensures IsSubsequence(s, Insert(t, pos, x))
  {
    var f :| Embeds(f, s, t);
    var g := seq(|f|, k requires 0 <= k < |f| => if f[k] < pos then f[k] else f[k] + 1);
    assert Embeds(g, s, Insert(t, pos, x));
  }

  lemma SubsequenceAppend<T>(s: seq<T>, t: seq<T>, between: seq<T>, x: T)
    requires IsSubsequence(s, t)
    ensures IsSubsequence(s + [x], t + between + [x])
  {
    var f: seq<nat> :| Embeds(f, s, t);
    var g: seq<nat> := f + [|t + between|];
    assert Embeds(g, s + [x], t + between + [x]);
  }

  lemma SubsequencePrefix<T>(s: seq<T>, t: seq<T>, more: seq<T>)
    requires IsSubsequence(s, t)
    ensures IsSubsequence(s, t + more)
  {
    var f :| Embeds(f, s, t);
    assert Embeds(f, s, t + more);
  }

  /** A subsequence has no order of its own. */
  lemma SubsequenceBefore<T>(s: seq<T>, t: seq<T>, x: T, y: T)
    requires IsSubsequence(s, t) && Before(s, x, y)
    ensures Before(t, x, y)
  {
  }

  /** Elements of s that t orders one way are ordered that way in s, too. */
  lemma BeforeInSubsequence<T>(s: seq<T>, t: seq<T>, x: T, y: T)
    requires IsSubsequence(s, t) && Distinct(t) && x in s && y in s && Before(t, x, y)
    ensures Before(s, x, y)
  {
  }

  /** p lists each of 0, 1, ..., n-1 once. */
  ghost predicate IsPermutation(p: seq<nat>, n: nat) {
    |p| == n && Distinct(p) && forall k :: 0 <= k < n ==> p[k] < n
  }

  /** The elements of s in the order in which p lists their indices. */
  function Gather<T>(s: seq<T>, p: seq<nat>): seq<T>
    requires forall k :: 0 <= k < |p| ==> p[k] < |s|
  {
    seq(|p|, k requires 0 <= k < |p| => s[p[k]])
  }

  function Identity(n: nat): (p: seq<nat>)
  {
    seq(n, k => k)
  }

  ghost function Elements<T>(s: seq<T>): set<T> {
    set x | x in s
  }

  lemma {:induction false} DistinctSize<T>(s: seq<T>)
    ensures |Elements(s)| <= |s|
    ensures Distinct(s) <==> |Elements(s)| == |s|
  {
    if s != [] {
      DistinctSize(s[1..]);
      assert Elements(s) == {s[0]} + Elements(s[1..]);
      if s[0] in s[1..] {
        assert Elements(s) == Elements(s[1..]);
      } else if Distinct(s[1..]) {
        assert Distinct(s) by {
          forall i, j | 0 <= i < j < |s| ensures s[i] != s[j] {
            assert s[j] == s[1..][j - 1];
            if i > 0 { assert s[i] == s[1..][i - 1]; }
          }
        }
      }
    }
  }

  function Below(n: nat): (s: set<nat>)
    ensures forall k: nat :: k in s <==> k < n
    ensures |s| == n
  {
    if n == 0 then {} else Below(n - 1) + {n - 1}
  }

  lemma SubsetSize<T>(s: set<T>, t: set<T>)
    requires s <= t
    ensures |s| <= |t|
    ensures |s| == |t| ==> s == t
  {
    assert t == s + (t - s) && s !! (t - s);
  }

  lemma PermutationIsOnto(p: seq<nat>, n: nat, k: nat)
    requires IsPermutation(p, n) && k < n
    ensures k in p
  {
    DistinctSize(p);
    SubsetSize(Elements(p), Below(n));
    assert k in Elements(p);
  }

  /** A sequence without repetitions that holds exactly 0, 1, ..., n-1 is a permutation. */
  lemma ListingIsPermutation(p: seq<nat>, n: nat)
    requires Distinct(p) && forall k: nat :: k in p <==> k < n
    ensures IsPermutation(p, n)
  {
    DistinctSize(p);
    assert Elements(p) == Below(n);
    assert forall k :: 0 <= k < |p| ==> p[k] in p;
  }

  lemma {:induction false} GatherKeepsElements<T>(s: seq<T>, p: seq<nat>)
    requires IsPermutation(p, |s|)
    ensures multiset(Gather(s, p)) == multiset(s)
    decreases |s|
  {
    if |s| > 0 {
      var n := |s| - 1;
      var j := p[n];
      var rest := s[..j] + s[j + 1..];
      var q := seq(n, k requires 0 <= k < n => if p[k] < j then p[k] else (p[k] - 1) as nat);
      forall k | 0 <= k < n ensures q[k] < n && rest[q[k]] == s[p[k]] {
        assert p[k] != j;
      }
      forall k, l | 0 <= k < l < n ensures q[k] != q[l] {
        assert p[k] != p[l] && p[k] != j && p[l] != j;
      }
      GatherKeepsElements(rest, q);
      assert Gather(s, p) == Gather(rest, q) + [s[j]];
      assert s == s[..j] + [s[j]] + s[j + 1..];
    }
  }

  // ---- sorting ----

  ghost predicate TotalOrder<T(!new)>(le: (T, T) -> bool) {
    && (forall x, y :: le(x, y) || le(y, x))
    && (forall x, y :: le(x, y) && le(y, x) ==> x == y)
    && (forall x, y, z :: le(x, y) && le(y, z) ==> le(x, z))
  }

  ghost predicate SortedBy<T>(s: seq<T>, le: (T, T) -> bool) {
    forall i, j :: 0 <= i < j < |s| ==> le(s[i], s[j])
  }

  function InsertSorted<T>(x: T, s: seq<T>, le: (T, T) -> bool): (r: seq<T>)
    ensures multiset(r) == multiset{x} + multiset(s)
  {
    if s == [] || le(x, s[0]) then [x] + s
    else
      assert s == [s[0]] + s[1..];
      [s[0]] + InsertSorted(x, s[1..], le)
  }

  /** What std::stable_sort makes of s: equal elements stay in their original order. */
  function Sort<T>(s: seq<T>, le: (T, T) -> bool): (r: seq<T>)
    ensures multiset(r) == multiset(s)
  {
    if s == [] then []
    else
      assert s == [s[0]] + s[1..];
      InsertSorted(s[0], Sort(s[1..], le), le)
  }

  lemma {:induction false} InsertKeepsSorted<T(!new)>(x: T, s: seq<T>, le: (T, T) -> bool)
    requires TotalOrder(le) && SortedBy(s, le)
    ensures SortedBy(InsertSorted(x, s, le), le)
  {
    if s == [] || le(x, s[0]) {
    } else {
      var rest := InsertSorted(x, s[1..], le);
      InsertKeepsSorted(x, s[1..], le);
      forall k | 0 <= k < |rest| ensures le(s[0], rest[k]) {
        assert rest[k] in multiset(rest);
        assert rest[k] == x || rest[k] in s[1..];
      }
    }
  }

  lemma {:induction false} SortSorts<T(!new)>(s: seq<T>, le: (T, T) -> bool)
    requires TotalOrder(le)
    ensures SortedBy(Sort(s, le), le)
  {
    if s != [] {
      SortSorts(s[1..], le);
      InsertKeepsSorted(s[0], Sort(s[1..], le), le);
    }
  }

  lemma SameElements<T>(s: seq<T>, t: seq<T>)
    requires multiset(s) == multiset(t)
    ensures |s| == |t|
    ensures forall x :: x in s <==> x in t
    ensures Distinct(s) ==> Distinct(t)
  {
    assert |multiset(s)| == |multiset(t)|;
    forall x ensures x in s <==> x in t {
      assert x in s <==> x in multiset(s);
      assert x in t <==> x in multiset(t);
    }
    DistinctSize(s);
    DistinctSize(t);
    assert Elements(s) == Elements(t);
  }

  /** Sequences without repetitions that hold the same elements in the same order are equal. */
  lemma {:induction false} SortedIsUnique<T(!new)>(s: seq<T>, t: seq<T>, le: (T, T) -> bool)
    requires TotalOrder(le) && SortedBy(s, le) && SortedBy(t, le) && Distinct(s) && Distinct(t)
    requires forall x :: x in s <==> x in t
    ensures s == t
  {
    assert |s| == |t| by {
      DistinctSize(s);
      DistinctSize(t);
      assert Elements(s) == Elements(t);
    }
    if s != [] {
      assert s[0] in t && t[0] in s;
      assert s[0] == t[0];
      forall x ensures x in s[1..] <==> x in t[1..] {
        assert x in s <==> x in t;
        assert x in s <==> x == s[0] || x in s[1..];
        assert x in t <==> x == t[0] || x in t[1..];
      }
      SortedIsUnique(s[1..], t[1..], le);
    }
  }
}

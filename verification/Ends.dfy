/** Which nodes the steps of a script are about, on either side: each node that the two nodes refer to is compared,
    removed or added once, and on its own side. */
module Ends {
  import opened Wrappers
  import opened Sequences
  import opened Strings
  import opened Graph
  import opened Order
  import opened Matching
  import opened Diffs
  import opened Scripts
  import opened ScriptCases
  import opened Verdicts
  import opened Forms

  /** What a step is about, if it is not about the two nodes themselves. */
  function EdgeOf(step: Step): Option<Comparison> {
    match step
    case NodeStep(_) => None
    case GoneStep(_, edge) => Some(edge)
    case ChildStep(_, edge) => Some(edge)
  }

  function FirstEnd(step: Step): seq<Id> {
    match EdgeOf(step)
    case Some(Comparison(Some(id), _)) => [id]
    case _ => []
  }

  function SecondEnd(step: Step): seq<Id> {
    match EdgeOf(step)
    case Some(Comparison(_, Some(id))) => [id]
    case _ => []
  }

  /** The nodes of the first side that the steps are about, in order. */
  ghost function FirstEnds(steps: seq<Step>): seq<Id> {
    if steps == [] then [] else FirstEnds(steps[..|steps| - 1]) + FirstEnd(steps[|steps| - 1])
  }

  /** The nodes of the second side that the steps are about, in order. */
  ghost function SecondEnds(steps: seq<Step>): seq<Id> {
    if steps == [] then [] else SecondEnds(steps[..|steps| - 1]) + SecondEnd(steps[|steps| - 1])
  }

  lemma {:induction false} FirstEndsOfSum(s: seq<Step>, t: seq<Step>)
    ensures FirstEnds(s + t) == FirstEnds(s) + FirstEnds(t)
  {
    hide FirstEnd;
    if t == [] {
      assert s + t == s;
    } else {
      var n := |t| - 1;
      assert (s + t)[..|s| + n] == s + t[..n] && (s + t)[|s| + n] == t[n];
      FirstEndsOfSum(s, t[..n]);
    }
  }

  lemma {:induction false} SecondEndsOfSum(s: seq<Step>, t: seq<Step>)
    ensures SecondEnds(s + t) == SecondEnds(s) + SecondEnds(t)
  {
    hide SecondEnd;
    if t == [] {
      assert s + t == s;
    } else {
      var n := |t| - 1;
      assert (s + t)[..|s| + n] == s + t[..n] && (s + t)[|s| + n] == t[n];
      SecondEndsOfSum(s, t[..n]);
    }
  }

  lemma EndsOfSum(s: seq<Step>, t: seq<Step>)
    ensures FirstEnds(s + t) == FirstEnds(s) + FirstEnds(t)
    ensures SecondEnds(s + t) == SecondEnds(s) + SecondEnds(t)
  {
    FirstEndsOfSum(s, t);
    SecondEndsOfSum(s, t);
  }

  lemma {:induction false} NodeStepsHaveNoEnds(steps: seq<Step>)
    requires AllNodeSteps(steps)
    ensures FirstEnds(steps) == [] && SecondEnds(steps) == []
  {
    if steps != [] {
      assert steps[|steps| - 1] in steps;
      NodeStepsHaveNoEnds(steps[..|steps| - 1]);
    }
  }

  // ---- matched lists ----

  lemma {:induction false} PresentOfSum(s: Positions, t: Positions)
    ensures Present(s + t) == Present(s) + Present(t)
  {
    if s == [] {
      assert s + t == t;
    } else {
      assert (s + t)[1..] == s[1..] + t;
      PresentOfSum(s[1..], t);
    }
  }

  lemma {:induction false} PresentCount(positions: Positions, k: nat)
    ensures multiset(Present(positions))[k] == multiset(positions)[Some(k)]
  {
    if positions != [] {
      PresentCount(positions[1..], k);
      assert positions == [positions[0]] + positions[1..];
    }
  }

  lemma PresentKept(s: Positions, t: Positions)
    requires multiset(s) == multiset(t)
    ensures multiset(Present(s)) == multiset(Present(t))
  {
    hide Present;
    forall k: nat ensures multiset(Present(s))[k] == multiset(Present(t))[k] {
      PresentCount(s, k);
      PresentCount(t, k);
    }
  }

  lemma {:induction false} PresentFromPositions(positions: Positions)
    ensures forall k :: k in Present(positions) ==> Some(k) in positions
  {
    if positions != [] { PresentFromPositions(positions[1..]); }
  }

  ghost predicate AllBelow(p: seq<nat>, n: nat) {
    forall k :: 0 <= k < |p| ==> p[k] < n
  }

  lemma PresentInLists(pairs: Matches, n1: nat, n2: nat)
    requires PairsInRange(pairs, n1, n2)
    ensures AllBelow(Present(Firsts(pairs)), n1) && AllBelow(Present(Seconds(pairs)), n2)
  {
    var s, t := Present(Firsts(pairs)), Present(Seconds(pairs));
    PresentFromPositions(Firsts(pairs));
    PresentFromPositions(Seconds(pairs));
    assert forall k :: 0 <= k < |s| ==> s[k] in s;
    assert forall k :: 0 <= k < |t| ==> t[k] in t;
  }

  lemma {:induction false} EndsOfPairSteps(pairs: Matches, nodes1: seq<Id>, nodes2: seq<Id>)
    requires PairsInRange(pairs, |nodes1|, |nodes2|)
    requires AllBelow(Present(Firsts(pairs)), |nodes1|) && AllBelow(Present(Seconds(pairs)), |nodes2|)
    ensures FirstEnds(PairSteps(pairs, nodes1, nodes2)) == Gather(nodes1, Present(Firsts(pairs)))
    ensures SecondEnds(PairSteps(pairs, nodes1, nodes2)) == Gather(nodes2, Present(Seconds(pairs)))
  {
    hide Present, Firsts, Seconds, FirstEnd, SecondEnd, PairStep;
    var steps := PairSteps(pairs, nodes1, nodes2);
    if pairs == [] {
      NonePresent(pairs);
    } else {
      var n := |pairs| - 1;
      LastPresent(pairs);
      PresentInLists(pairs[..n], |nodes1|, |nodes2|);
      EndsOfPairSteps(pairs[..n], nodes1, nodes2);
      assert steps[..n] == PairSteps(pairs[..n], nodes1, nodes2) && steps[n] == PairStep(pairs[n], nodes1, nodes2);
      EndsOfPair(pairs[n], nodes1, nodes2);
    }
  }

  lemma NonePresent(pairs: Matches)
    ensures pairs == [] ==> Present(Firsts(pairs)) == [] && Present(Seconds(pairs)) == []
  {
  }

  lemma LastPresent(pairs: Matches)
    requires pairs != []
    ensures var n := |pairs| - 1;
            && Present(Firsts(pairs)) == Present(Firsts(pairs[..n])) + IndexIn(pairs[n].0)
            && Present(Seconds(pairs)) == Present(Seconds(pairs[..n])) + IndexIn(pairs[n].1)
  {
    hide Present;
    var n := |pairs| - 1;
    assert Firsts(pairs) == Firsts(pairs[..n]) + [pairs[n].0] && Seconds(pairs) == Seconds(pairs[..n]) + [pairs[n].1];
    PresentOfSum(Firsts(pairs[..n]), [pairs[n].0]);
    PresentOfSum(Seconds(pairs[..n]), [pairs[n].1]);
    OnePresent(pairs[n].0);
    OnePresent(pairs[n].1);
  }

  lemma EndsOfPair(pair: (Option<nat>, Option<nat>), nodes1: seq<Id>, nodes2: seq<Id>)
    requires PairInRange(pair, |nodes1|, |nodes2|)
    ensures FirstEnd(PairStep(pair, nodes1, nodes2)) == if pair.0.Some? then [nodes1[pair.0.value]] else []
    ensures SecondEnd(PairStep(pair, nodes1, nodes2)) == if pair.1.Some? then [nodes2[pair.1.value]] else []
  {
  }

  function IndexIn(position: Option<nat>): seq<nat> {
    match position
    case Some(k) => [k]
    case None => []
  }

  lemma OnePresent(position: Option<nat>)
    ensures Present([position]) == IndexIn(position)
  {
    assert [position][1..] == [];
  }

  /** Without reordering, nodes are compared in the order of their keys; with it, those of the first side in the
      order in which they are listed. Either way, each is there once. */
  lemma MatchedUseEachOnce(keys1: seq<string>, keys2: seq<string>, reorder: bool)
    ensures var pairs := MatchedPairs(keys1, keys2, reorder);
            && IsPermutation(Present(Firsts(pairs)), |keys1|) && IsPermutation(Present(Seconds(pairs)), |keys2|)
            && (reorder ==> Present(Firsts(pairs)) == Identity(|keys1|))
            && (!reorder ==> Present(Firsts(pairs)) == Indices(SortedKeys(keys1)))
  {
    hide Paired, SortedKeys, ReorderedIndexes, Distinct;
    var pairs := Paired(SortedKeys(keys1), SortedKeys(keys2));
    PairUpCoversAll(keys1, keys2);
    if reorder {
      ReorderedIsPermutation(pairs);
      var order := ReorderedIndexes(pairs);
      assert Firsts(Reordered(pairs)) == Gather(Firsts(pairs), order);
      assert Seconds(Reordered(pairs)) == Gather(Seconds(pairs), order);
      GatherKeepsElements(Firsts(pairs), order);
      GatherKeepsElements(Seconds(pairs), order);
      PresentKept(Firsts(Reordered(pairs)), Firsts(pairs));
      PresentKept(Seconds(Reordered(pairs)), Seconds(pairs));
      ShuffledPermutation(Present(Firsts(pairs)), Present(Firsts(Reordered(pairs))), |keys1|);
      ShuffledPermutation(Present(Seconds(pairs)), Present(Seconds(Reordered(pairs))), |keys2|);
      FirstPositionsAscend(pairs);
      PresentAscends(Firsts(Reordered(pairs)));
      AscendingIsIdentity(Present(Firsts(Reordered(pairs))), |keys1|);
    } else {
      PairedUsesEachOnce(SortedKeys(keys1), SortedKeys(keys2));
    }
  }

  lemma ShuffledPermutation(p: seq<nat>, q: seq<nat>, n: nat)
    requires IsPermutation(p, n) && multiset(p) == multiset(q)
    ensures IsPermutation(q, n)
  {
    SameElements(p, q);
    forall k | 0 <= k < n ensures q[k] < n { assert q[k] in p; }
  }

  lemma {:induction false} PresentAscends(positions: Positions)
    requires Ascending(positions)
    ensures forall k :: 0 <= k < |positions| && positions[k].Some? ==> positions[k].value in Present(positions)
    ensures forall k :: k in Present(positions) ==> Some(k) in positions
    ensures forall k, l :: 0 <= k < l < |Present(positions)| ==> Present(positions)[k] <= Present(positions)[l]
  {
    if positions != [] {
      var rest := positions[1..];
      assert forall k :: 0 < k < |positions| ==> positions[k] == rest[k - 1];
      PresentAscends(rest);
      if positions[0].Some? {
        forall l | 0 <= l < |Present(rest)| ensures positions[0].value <= Present(rest)[l] {
          assert Present(rest)[l] in Present(rest);
        }
      }
    }
  }

  lemma AscendingIsIdentity(p: seq<nat>, n: nat)
    requires IsPermutation(p, n) && forall k, l :: 0 <= k < l < n ==> p[k] <= p[l]
    ensures p == Identity(n)
  {
    IncreasingIsIdentity(p, n);
  }

  /** Every node of either list is compared, removed or added once. */
  lemma EndsOfLists(g: Graph, nodes1: seq<Id>, nodes2: seq<Id>, reorder: bool)
    requires WellFormed(g)
    requires (forall id :: id in nodes1 ==> id in g) && (forall id :: id in nodes2 ==> id in g)
    ensures var steps := NodesSteps(g, nodes1, nodes2, reorder);
            && FirstEnds(steps) == (if reorder then nodes1 else NodesInKeyOrder(g, nodes1))
            && multiset(FirstEnds(steps)) == multiset(nodes1) && multiset(SecondEnds(steps)) == multiset(nodes2)
  {
    hide WellFormed, MatchedPairs, NodeKeys, SortedKeys;
    var keys1, keys2 := NodeKeys(g, nodes1).0, NodeKeys(g, nodes2).0;
    var pairs := MatchedPairs(keys1, keys2, reorder);
    MatchedUseEachOnce(keys1, keys2, reorder);
    PresentInLists(pairs, |nodes1|, |nodes2|);
    EndsOfPairSteps(pairs, nodes1, nodes2);
    GatherKeepsElements(nodes1, Present(Firsts(pairs)));
    GatherKeepsElements(nodes2, Present(Seconds(pairs)));
    if reorder {
      assert Gather(nodes1, Identity(|nodes1|)) == nodes1;
    } else {
      SortedKeysInRange(keys1);
      IndicesAt(SortedKeys(keys1));
      assert Gather(nodes1, Indices(SortedKeys(keys1))) == InKeyOrder(nodes1, keys1);
    }
  }

  function TypesOf(parameters: seq<Parameter>): seq<Id> {
    seq(|parameters|, k requires 0 <= k < |parameters| => parameters[k].typeId)
  }

  lemma {:induction false} FirstEndsAre(steps: seq<Step>, ids: seq<Id>)
    requires |steps| == |ids| && forall k :: 0 <= k < |steps| ==> FirstEnd(steps[k]) == [ids[k]]
    ensures FirstEnds(steps) == ids
  {
    hide FirstEnd;
    if steps != [] { FirstEndsAre(steps[..|steps| - 1], ids[..|steps| - 1]); }
  }

  lemma {:induction false} SecondEndsAre(steps: seq<Step>, ids: seq<Id>)
    requires |steps| == |ids| && forall k :: 0 <= k < |steps| ==> SecondEnd(steps[k]) == [ids[k]]
    ensures SecondEnds(steps) == ids
  {
    hide SecondEnd;
    if steps != [] { SecondEndsAre(steps[..|steps| - 1], ids[..|steps| - 1]); }
  }

  lemma {:induction false} NoEnds(steps: seq<Step>)
    ensures (forall k :: 0 <= k < |steps| ==> FirstEnd(steps[k]) == []) ==> FirstEnds(steps) == []
    ensures (forall k :: 0 <= k < |steps| ==> SecondEnd(steps[k]) == []) ==> SecondEnds(steps) == []
  {
    hide FirstEnd, SecondEnd;
    if steps != [] { NoEnds(steps[..|steps| - 1]); }
  }

  lemma EndsOfParameterSteps(parameters1: seq<Parameter>, parameters2: seq<Parameter>, n: nat)
    requires n <= |parameters1| && n <= |parameters2|
    ensures FirstEnds(ParameterSteps(parameters1, parameters2, n)) == TypesOf(parameters1)[..n]
    ensures SecondEnds(ParameterSteps(parameters1, parameters2, n)) == TypesOf(parameters2)[..n]
  {
    hide FirstEnds, SecondEnds;
    FirstEndsAre(ParameterSteps(parameters1, parameters2, n), TypesOf(parameters1)[..n]);
    SecondEndsAre(ParameterSteps(parameters1, parameters2, n), TypesOf(parameters2)[..n]);
  }

  lemma EndsOfExtra(parameters: seq<Parameter>, added: bool, min: nat)
    requires min <= |parameters|
    ensures FirstEnds(ExtraParameterSteps(parameters, added, min)) == if added then [] else TypesOf(parameters)[min..]
    ensures SecondEnds(ExtraParameterSteps(parameters, added, min)) == if added then TypesOf(parameters)[min..] else []
  {
    hide FirstEnds, SecondEnds;
    var steps := ExtraParameterSteps(parameters, added, min);
    forall k | 0 <= k < |steps|
      ensures FirstEnd(steps[k]) == if added then [] else [TypesOf(parameters)[min..][k]]
      ensures SecondEnd(steps[k]) == if added then [TypesOf(parameters)[min..][k]] else []
    {
      assert steps[k] == ExtraParameterStep(parameters, added, min + k);
    }
    NoEnds(steps);
    if added {
      SecondEndsAre(steps, TypesOf(parameters)[min..]);
    } else {
      FirstEndsAre(steps, TypesOf(parameters)[min..]);
    }
  }

  /** Two functions are compared by their return types and all their parameters, in order. */
  lemma EndsOfFunctions(a: Node, b: Node)
    requires a.Function? && b.Function?
    ensures FirstEnds(FunctionSteps(a, b)) == [a.returnTypeId] + TypesOf(a.parameters)
    ensures SecondEnds(FunctionSteps(a, b)) == [b.returnTypeId] + TypesOf(b.parameters)
  {
    hide ParameterSteps, ExtraParameterSteps, FirstEnds, SecondEnds, TypesOf;
    var n1, n2 := |a.parameters|, |b.parameters|;
    var min := if n1 < n2 then n1 else n2;
    var longer := if n1 < n2 then b.parameters else a.parameters;
    var return_ := [ChildEdge("return", a.returnTypeId, b.returnTypeId)];
    var compared, extra := ParameterSteps(a.parameters, b.parameters, min), ExtraParameterSteps(longer, n1 < n2, min);
    EndsOfOne(return_[0]);
    EndsOfParameterSteps(a.parameters, b.parameters, min);
    EndsOfExtra(longer, n1 < n2, min);
    EndsOfSum(return_, compared);
    EndsOfSum(return_ + compared, extra);
    assert FunctionSteps(a, b) == return_ + compared + extra;
    TypesCount(a.parameters);
    TypesCount(b.parameters);
    assert TypesOf(longer)[..min] + TypesOf(longer)[min..] == TypesOf(longer);
  }

  /** The script of two functions, step by step: the return types, the parameters that both have, by number, and those
      that only one has. */
  lemma FunctionsAreCompared(a: Node, b: Node, k: nat)
    requires a.Function? && b.Function? && k < |FunctionSteps(a, b)|
    ensures var xs, ys, steps := a.parameters, b.parameters, FunctionSteps(a, b);
            && |steps| == 1 + (if |xs| < |ys| then |ys| else |xs|)
            && steps[k] ==
               if k == 0 then ChildStep(Edge("return"), Comparison(Some(a.returnTypeId), Some(b.returnTypeId)))
               else if k <= |xs| && k <= |ys| then
                 ChildStep(ParameterEdge(k, xs[k - 1].name, ys[k - 1].name),
                           Comparison(Some(xs[k - 1].typeId), Some(ys[k - 1].typeId)))
               else if k <= |xs| then
                 GoneStep(ExtraParameter(k, xs[k - 1].name), Comparison(Some(xs[k - 1].typeId), None))
               else GoneStep(ExtraParameter(k, ys[k - 1].name), Comparison(None, Some(ys[k - 1].typeId)))
  {
    var xs, ys := a.parameters, b.parameters;
    var min := if |xs| < |ys| then |xs| else |ys|;
    var return_ := [ChildEdge("return", a.returnTypeId, b.returnTypeId)];
    var both := ParameterSteps(xs, ys, min);
    var extra := ExtraParameterSteps(if |xs| < |ys| then ys else xs, |xs| < |ys|, min);
    hide ParameterSteps, ExtraParameterSteps;
    ParameterStepAt(xs, ys, min, k);
    ExtraStepAt(if |xs| < |ys| then ys else xs, |xs| < |ys|, min, k);
    assert FunctionSteps(a, b) == return_ + both + extra;
  }

  lemma ParameterStepAt(parameters1: seq<Parameter>, parameters2: seq<Parameter>, n: nat, k: nat)
    requires n <= |parameters1| && n <= |parameters2|
    ensures |ParameterSteps(parameters1, parameters2, n)| == n
    ensures 0 < k <= n ==>
              ParameterSteps(parameters1, parameters2, n)[k - 1]
              == ChildStep(ParameterEdge(k, parameters1[k - 1].name, parameters2[k - 1].name),
                           Comparison(Some(parameters1[k - 1].typeId), Some(parameters2[k - 1].typeId)))
  {
  }

  lemma ExtraStepAt(parameters: seq<Parameter>, added: bool, min: nat, k: nat)
    requires min <= |parameters|
    ensures |ExtraParameterSteps(parameters, added, min)| == |parameters| - min
    ensures min < k <= |parameters| ==>
              ExtraParameterSteps(parameters, added, min)[k - 1 - min]
              == GoneStep(ExtraParameter(k, parameters[k - 1].name),
                          if added then Comparison(None, Some(parameters[k - 1].typeId))
                          else Comparison(Some(parameters[k - 1].typeId), None))
  {
    if min < k <= |parameters| {
      assert ExtraParameterSteps(parameters, added, min)[k - 1 - min] == ExtraParameterStep(parameters, added, k - 1);
    }
  }

  lemma TypesCount(parameters: seq<Parameter>)
    ensures |TypesOf(parameters)| == |parameters|
    ensures TypesOf(parameters)[..|parameters|] == TypesOf(parameters) && TypesOf(parameters)[|parameters|..] == []
  {
  }

  lemma EndsOfOne(step: Step)
    ensures FirstEnds([step]) == FirstEnd(step) && SecondEnds([step]) == SecondEnd(step)
  {
    assert [step][..0] == [];
  }

  /** Two structs are compared by their base classes, methods and members, each once. Base classes and members come
      in the order in which the first struct lists them, methods in that of their keys. */
  lemma EndsOfStructs(g: Graph, d1: StructDefinition, d2: StructDefinition)
    requires WellFormed(g)
    requires forall id :: id in d1.baseClasses + d1.methods + d1.members ==> id in g
    requires forall id :: id in d2.baseClasses + d2.methods + d2.members ==> id in g
    ensures var steps := StructSteps(g, d1, d2);
            && FirstEnds(steps) == d1.baseClasses + NodesInKeyOrder(g, d1.methods) + d1.members
            && multiset(NodesInKeyOrder(g, d1.methods)) == multiset(d1.methods)
            && multiset(SecondEnds(steps)) == multiset(d2.baseClasses) + multiset(d2.methods) + multiset(d2.members)
  {
    hide WellFormed, NodesSteps, FirstEnds, SecondEnds, NodesInKeyOrder;
    var size := NumberSteps("byte size", d1.bytesize, d2.bytesize);
    var bases := NodesSteps(g, d1.baseClasses, d2.baseClasses, true);
    var methods := NodesSteps(g, d1.methods, d2.methods, false);
    var members := NodesSteps(g, d1.members, d2.members, true);
    NodeStepsHaveNoEnds(size);
    EndsOfLists(g, d1.baseClasses, d2.baseClasses, true);
    EndsOfLists(g, d1.methods, d2.methods, false);
    EndsOfLists(g, d1.members, d2.members, true);
    EndsOfSum(size, bases);
    EndsOfSum(size + bases, methods);
    EndsOfSum(size + bases + methods, members);
    var s, t := SecondEnds(bases), SecondEnds(methods);
    assert SecondEnds(StructSteps(g, d1, d2)) == s + t + SecondEnds(members);
  }

  // ---- edges that are gone ----

  /** A node that is removed is one that the first node refers to, and one that is added is one that the second
      does. */
  lemma GoneOnOwnSide(p: Problem, x: Id, y: Id, edge: Comparison)
    requires WellFormed(p.graph) && x in p.graph && y in p.graph && HasGone(p, Pair(x, y), edge)
    ensures var a, b := p.graph[Unqualified(p.graph, x, {}).0], p.graph[Unqualified(p.graph, y, {}).0];
            || (exists id :: edge == Comparison(Some(id), None) && id in References(a))
            || (exists id :: edge == Comparison(None, Some(id)) && id in References(b))
  {
    hide NodeScript, WellFormed, References, QualifierSteps;
    var g := p.graph;
    var i, j := Unqualified(g, x, {}).0, Unqualified(g, y, {}).0;
    var step :| step in CompareScript(p, Pair(x, y)).steps && step.GoneStep? && step.edge == edge;
    QualifierStepsAreNode(Unqualified(g, x, {}).1, Unqualified(g, y, {}).1);
    ReferencesInGraph(g, i);
    ReferencesInGraph(g, j);
    NodeScriptWithin(p, g[i], g[j]);
  }

  lemma QualifierStepsAreNode(q1: set<Qualifier>, q2: set<Qualifier>)
    ensures forall step :: step in QualifierSteps(q1, q2) ==> step.NodeStep?
  {
  }

  lemma ReferencesInGraph(g: Graph, id: Id)
    requires WellFormed(g) && id in g
    ensures References(g[id]) <= g.Keys
  {
  }

  // ---- tables ----

  ghost predicate HasSymbol(symbols: SymbolMap, key: SymbolKey) {
    exists id :: (key, id) in symbols
  }

  lemma {:induction false} OnlyInHolds(symbols1: SymbolMap, symbols2: SymbolMap, id: Id)
    ensures (exists path :: (path, id) in OnlyIn(symbols1, symbols2)) <==>
            exists key :: (key, id) in symbols1 && !HasSymbol(symbols2, key)
  {
    hide LookupSymbol;
    if symbols1 != [] {
      var n := |symbols1| - 1;
      var rest, last := symbols1[..n], symbols1[n];
      OnlyInHolds(rest, symbols2, id);
      assert symbols1 == rest + [last];
      LookupIsHas(symbols2, last.0);
      var before := OnlyIn(rest, symbols2);
      if path :| (path, id) in OnlyIn(symbols1, symbols2) {
        if (path, id) !in before { assert last == (last.0, id); }
      }
      if key :| (key, id) in symbols1 && !HasSymbol(symbols2, key) {
        if (key, id) in rest {
          var path :| (path, id) in before;
          assert (path, id) in OnlyIn(symbols1, symbols2);
        } else {
          assert (key.path, id) in OnlyIn(symbols1, symbols2);
        }
      }
    }
  }

  lemma LookupIsHas(symbols: SymbolMap, key: SymbolKey)
    ensures LookupSymbol(symbols, key).Some? <==> HasSymbol(symbols, key)
  {
  }

  lemma {:induction false} InBothHolds(symbols1: SymbolMap, symbols2: SymbolMap, id1: Id, id2: Id)
    requires SortedSymbols(symbols2)
    ensures (exists path :: (path, id1, id2) in InBoth(symbols1, symbols2)) <==>
            exists key :: (key, id1) in symbols1 && (key, id2) in symbols2
  {
    hide LookupSymbol, SortedSymbols;
    if symbols1 != [] {
      var n := |symbols1| - 1;
      var rest, last := symbols1[..n], symbols1[n];
      InBothHolds(rest, symbols2, id1, id2);
      assert symbols1 == rest + [last];
      LookupIsTheOne(symbols2, last.0, id2);
      var before := InBoth(rest, symbols2);
      if path :| (path, id1, id2) in InBoth(symbols1, symbols2) {
        if (path, id1, id2) !in before { assert last == (last.0, id1); }
      }
      if key :| (key, id1) in symbols1 && (key, id2) in symbols2 {
        if (key, id1) in rest {
          var path :| (path, id1, id2) in before;
          assert (path, id1, id2) in InBoth(symbols1, symbols2);
        } else {
          assert (key.path, id1, id2) in InBoth(symbols1, symbols2);
        }
      }
    }
  }

  lemma LookupIsTheOne(symbols: SymbolMap, key: SymbolKey, id: Id)
    requires SortedSymbols(symbols)
    ensures LookupSymbol(symbols, key) == Some(id) <==> (key, id) in symbols
  {
    if (key, id) in symbols {
      var k :| 0 <= k < |symbols| && symbols[k] == (key, id);
      LookupFinds(symbols, k);
    }
  }

  /** The script of two tables: what only the first has is removed, what only the second has is added, and what
      both have is compared. */
  lemma TablesAreCompared(p: Problem, x: Id, y: Id, id1: Id, id2: Id)
    requires WellFormed(p.graph) && x in p.graph && y in p.graph && p.graph[x].Symbols? && p.graph[y].Symbols?
    ensures var s, t := p.graph[x].symbols, p.graph[y].symbols;
            && (HasGone(p, Pair(x, y), Comparison(Some(id1), None)) <==>
                exists key :: (key, id1) in s && !HasSymbol(t, key))
            && (HasGone(p, Pair(x, y), Comparison(None, Some(id2))) <==>
                exists key :: (key, id2) in t && !HasSymbol(s, key))
            && (HasChild(p, Pair(x, y), Comparison(Some(id1), Some(id2))) <==>
                exists key :: (key, id1) in s && (key, id2) in t)
  {
    hide WellFormed, SymbolsSteps, OnlyIn, InBoth, SortedSymbols, HasSymbol, CompareScript;
    var s, t := p.graph[x].symbols, p.graph[y].symbols;
    TableScript(p, x, y);
    RemovedSteps(s, t, id1);
    AddedSteps(s, t, id2);
    CommonSteps(s, t, id1, id2);
    OnlyInHolds(s, t, id1);
    OnlyInHolds(t, s, id2);
    InBothHolds(s, t, id1, id2);
    EdgeIsGone(SymbolsSteps(s, t), Comparison(Some(id1), None));
    EdgeIsGone(SymbolsSteps(s, t), Comparison(None, Some(id2)));
    EdgeIsChild(SymbolsSteps(s, t), Comparison(Some(id1), Some(id2)));
  }

  lemma EdgeIsGone(steps: seq<Step>, edge: Comparison)
    ensures (exists step :: step in steps && step.GoneStep? && step.edge == edge) <==>
            exists text :: GoneStep(text, edge) in steps
  {
    if step :| step in steps && step.GoneStep? && step.edge == edge {
      assert step == GoneStep(step.text, edge);
    }
  }

  lemma EdgeIsChild(steps: seq<Step>, edge: Comparison)
    ensures (exists step :: step in steps && step.ChildStep? && step.edge == edge) <==>
            exists text :: ChildStep(text, edge) in steps
  {
    if step :| step in steps && step.ChildStep? && step.edge == edge {
      assert step == ChildStep(step.text, edge);
    }
  }

  lemma TableScript(p: Problem, x: Id, y: Id)
    requires WellFormed(p.graph) && x in p.graph && y in p.graph && p.graph[x].Symbols? && p.graph[y].Symbols?
    ensures CompareScript(p, Pair(x, y)).steps == SymbolsSteps(p.graph[x].symbols, p.graph[y].symbols)
    ensures SortedSymbols(p.graph[x].symbols) && SortedSymbols(p.graph[y].symbols)
  {
    hide SymbolsSteps, StructSteps, EnumSteps, FunctionSteps, IntegerSteps, SymbolAttributeSteps;
  }

  lemma RemovedSteps(s: SymbolMap, t: SymbolMap, id: Id)
    ensures (exists text :: GoneStep(text, Comparison(Some(id), None)) in SymbolsSteps(s, t)) <==>
            exists path :: (path, id) in OnlyIn(s, t)
  {
    hide OnlyIn, InBoth, Quote;
    var symbols, steps := OnlyIn(s, t), GoneSymbolSteps(OnlyIn(s, t), false);
    if path :| (path, id) in symbols {
      var k :| 0 <= k < |symbols| && symbols[k] == (path, id);
      assert steps[k] == GoneStep(Edge(Quote(path)), Comparison(Some(id), None)) && steps[k] in steps;
    }
    if text :| GoneStep(text, Comparison(Some(id), None)) in SymbolsSteps(s, t) {
      var k :| 0 <= k < |steps| && steps[k] == GoneStep(text, Comparison(Some(id), None));
      assert symbols[k] == (symbols[k].0, id) && symbols[k] in symbols;
    }
  }

  lemma AddedSteps(s: SymbolMap, t: SymbolMap, id: Id)
    ensures (exists text :: GoneStep(text, Comparison(None, Some(id))) in SymbolsSteps(s, t)) <==>
            exists path :: (path, id) in OnlyIn(t, s)
  {
    hide OnlyIn, InBoth, Quote;
    var symbols, steps := OnlyIn(t, s), GoneSymbolSteps(OnlyIn(t, s), true);
    if path :| (path, id) in symbols {
      var k :| 0 <= k < |symbols| && symbols[k] == (path, id);
      assert steps[k] == GoneStep(Edge(Quote(path)), Comparison(None, Some(id))) && steps[k] in steps;
    }
    if text :| GoneStep(text, Comparison(None, Some(id))) in SymbolsSteps(s, t) {
      var k :| 0 <= k < |steps| && steps[k] == GoneStep(text, Comparison(None, Some(id)));
      assert symbols[k] == (symbols[k].0, id) && symbols[k] in symbols;
    }
  }

  lemma CommonSteps(s: SymbolMap, t: SymbolMap, id1: Id, id2: Id)
    ensures (exists text :: ChildStep(text, Comparison(Some(id1), Some(id2))) in SymbolsSteps(s, t)) <==>
            exists path :: (path, id1, id2) in InBoth(s, t)
  {
    hide OnlyIn, InBoth, Quote;
    var symbols, steps := InBoth(s, t), CommonSymbolSteps(InBoth(s, t));
    if path :| (path, id1, id2) in symbols {
      var k :| 0 <= k < |symbols| && symbols[k] == (path, id1, id2);
      assert steps[k] == ChildStep(Edge(Quote(path)), Comparison(Some(id1), Some(id2))) && steps[k] in steps;
    }
    if text :| ChildStep(text, Comparison(Some(id1), Some(id2))) in SymbolsSteps(s, t) {
      var k :| 0 <= k < |steps| && steps[k] == ChildStep(text, Comparison(Some(id1), Some(id2)));
      assert symbols[k] == (symbols[k].0, id1, id2) && symbols[k] in symbols;
    }
  }

  function IdsOf(symbols: SymbolMap): seq<Id> {
    seq(|symbols|, k requires 0 <= k < |symbols| => symbols[k].1)
  }

  lemma {:induction false} OnlyInIsPart(symbols1: SymbolMap, symbols2: SymbolMap)
    ensures IsSubsequence(SecondsOf(OnlyIn(symbols1, symbols2)), IdsOf(symbols1))
  {
    hide IsSubsequence, LookupSymbol;
    if symbols1 == [] {
      EmptySubsequence(IdsOf(symbols1));
      assert SecondsOf([]) == [];
    } else {
      var n := |symbols1| - 1;
      var before := OnlyIn(symbols1[..n], symbols2);
      OnlyInIsPart(symbols1[..n], symbols2);
      assert IdsOf(symbols1) == IdsOf(symbols1[..n]) + [symbols1[n].1] == IdsOf(symbols1[..n]) + [] + [symbols1[n].1];
      if LookupSymbol(symbols2, symbols1[n].0) == None {
        SubsequenceAppend(SecondsOf(before), IdsOf(symbols1[..n]), [], symbols1[n].1);
        assert SecondsOf(OnlyIn(symbols1, symbols2)) == SecondsOf(before) + [symbols1[n].1];
      } else {
        SubsequencePrefix(SecondsOf(before), IdsOf(symbols1[..n]), [symbols1[n].1]);
      }
    }
  }

  function SecondsOf(symbols: seq<(string, Id)>): seq<Id> {
    seq(|symbols|, k requires 0 <= k < |symbols| => symbols[k].1)
  }

  /** Removed symbols come first, then added ones, then those that are compared, each in the order of its table. */
  lemma TableStepsInOrder(s: SymbolMap, t: SymbolMap) returns (removed: nat, gone: nat)
    ensures var steps := SymbolsSteps(s, t);
            && removed <= gone <= |steps|
            && (forall k :: 0 <= k < removed ==> SecondEnd(steps[k]) == [])
            && (forall k :: removed <= k < gone ==> FirstEnd(steps[k]) == [])
            && (forall k :: gone <= k < |steps| ==> steps[k].ChildStep?)
            && IsSubsequence(FirstEnds(steps[..removed]), IdsOf(s))
            && IsSubsequence(SecondEnds(steps[removed..gone]), IdsOf(t))
            && IsSubsequence(FirstEnds(steps[gone..]), IdsOf(s))
  {
    hide OnlyIn, InBoth, Quote, IsSubsequence, FirstEnds, SecondEnds;
    var steps := SymbolsSteps(s, t);
    var r, a := GoneSymbolSteps(OnlyIn(s, t), false), GoneSymbolSteps(OnlyIn(t, s), true);
    var c := CommonSymbolSteps(InBoth(s, t));
    removed, gone := |r|, |r| + |a|;
    assert steps[..removed] == r && steps[removed..gone] == a && steps[gone..] == c;
    FirstEndsAre(r, SecondsOf(OnlyIn(s, t)));
    SecondEndsAre(a, SecondsOf(OnlyIn(t, s)));
    FirstEndsAre(c, MiddlesOf(InBoth(s, t)));
    OnlyInIsPart(s, t);
    OnlyInIsPart(t, s);
    InBothIsPart(s, t);
  }

  function MiddlesOf(symbols: seq<(string, Id, Id)>): seq<Id> {
    seq(|symbols|, k requires 0 <= k < |symbols| => symbols[k].1)
  }

  lemma {:induction false} InBothIsPart(symbols1: SymbolMap, symbols2: SymbolMap)
    ensures IsSubsequence(MiddlesOf(InBoth(symbols1, symbols2)), IdsOf(symbols1))
  {
    hide IsSubsequence, LookupSymbol;
    if symbols1 == [] {
      EmptySubsequence(IdsOf(symbols1));
      assert MiddlesOf([]) == [];
    } else {
      var n := |symbols1| - 1;
      var before := InBoth(symbols1[..n], symbols2);
      InBothIsPart(symbols1[..n], symbols2);
      assert IdsOf(symbols1) == IdsOf(symbols1[..n]) + [symbols1[n].1] == IdsOf(symbols1[..n]) + [] + [symbols1[n].1];
      if LookupSymbol(symbols2, symbols1[n].0).Some? {
        SubsequenceAppend(MiddlesOf(before), IdsOf(symbols1[..n]), [], symbols1[n].1);
        assert MiddlesOf(InBoth(symbols1, symbols2)) == MiddlesOf(before) + [symbols1[n].1];
      } else {
        SubsequencePrefix(MiddlesOf(before), IdsOf(symbols1[..n]), [symbols1[n].1]);
      }
    }
  }

  lemma {:induction false} TablesUseEachOnce(symbols1: SymbolMap, symbols2: SymbolMap)
    ensures multiset(SecondsOf(OnlyIn(symbols1, symbols2))) + multiset(MiddlesOf(InBoth(symbols1, symbols2)))
            == multiset(IdsOf(symbols1))
  {
    hide LookupSymbol;
    if symbols1 != [] {
      var n := |symbols1| - 1;
      var id := symbols1[n].1;
      var only, both := OnlyIn(symbols1[..n], symbols2), InBoth(symbols1[..n], symbols2);
      TablesUseEachOnce(symbols1[..n], symbols2);
      assert IdsOf(symbols1) == IdsOf(symbols1[..n]) + [id];
      if LookupSymbol(symbols2, symbols1[n].0) == None {
        assert SecondsOf(OnlyIn(symbols1, symbols2)) == SecondsOf(only) + [id];
      } else {
        assert MiddlesOf(InBoth(symbols1, symbols2)) == MiddlesOf(both) + [id];
      }
    }
  }

  // ---- any two nodes ----

  /** The nodes that a node is made of. */
  function Parts(node: Node): seq<Id> {
    match node
    case PointerReference(_, id) => [id]
    case Array(_, id) => [id]
    case BaseClass(id, _, _) => [id]
    case Member(_, id, _, _) => [id]
    case Method(_, _, _, _, id) => [id]
    case StructUnion(_, _, Some(d)) => d.baseClasses + d.methods + d.members
    case Function(id, parameters) => [id] + TypesOf(parameters)
    case ElfSymbol(_, _, _, _, _, _, _, Some(id), _) => [id]
    case _ => []
  }

  /** Both are defined, or both symbols have types, or it matters that only one has. */
  predicate PartsMatter(options: CompareOptions, a: Node, b: Node) {
    match (a, b)
    case (StructUnion(_, _, d1), StructUnion(_, _, d2)) => d1.Some? && d2.Some?
    case (ElfSymbol(_, _, _, _, _, _, _, id1, _), ElfSymbol(_, _, _, _, _, _, _, id2, _)) =>
      (id1.Some? && id2.Some?) || !options.ignoreSymbolTypePresenceChanges
    case _ => true
  }

  /** The steps are about all of these nodes, each as often as it is there. */
  ghost predicate UseEachOnce(steps: seq<Step>, parts1: seq<Id>, parts2: seq<Id>) {
    multiset(FirstEnds(steps)) == multiset(parts1) && multiset(SecondEnds(steps)) == multiset(parts2)
  }

  /** Everything the nodes are made of is compared, removed or added once, if it matters at all. */
  ghost predicate UseParts(p: Problem, a: Node, b: Node)
    requires WellFormed(p.graph) && References(a) <= p.graph.Keys && References(b) <= p.graph.Keys
    requires !a.Qualified? && !b.Qualified? && !a.Typedef? && !b.Typedef?
  {
    var steps := NodeScript(p, a, b).steps;
    if PartsMatter(p.options, a, b) then UseEachOnce(steps, Parts(a), Parts(b)) else UseEachOnce(steps, [], [])
  }

  /** Unless nodes cannot be compared, everything they are made of is compared, removed or added once. */
  lemma NodesUseEachOnce(p: Problem, a: Node, b: Node)
    requires WellFormed(p.graph) && References(a) <= p.graph.Keys && References(b) <= p.graph.Keys
    requires !a.Qualified? && !b.Qualified? && !a.Typedef? && !b.Typedef? && !a.Symbols?
    requires !NodeScript(p, a, b).incomparable
    ensures UseParts(p, a, b)
  {
    hide NodeScript, WellFormed, UseParts, References;
    ComparableKinds(p, a, b);
    if a.StructUnion? && a.structDefinition.Some? && b.structDefinition.Some? {
      EndsOfDefinedStructs(p, a, b);
    } else if a.Function? {
      EndsOfNodeFunctions(p, a, b);
    } else if a.PointerReference? || a.Array? || a.BaseClass? || a.Member? || a.Method? {
      EndsOfChild(p, a, b);
    } else if a.ElfSymbol? {
      EndsOfSymbols(p, a, b);
    } else {
      NoParts(p, a, b);
    }
  }

  lemma ComparableKinds(p: Problem, a: Node, b: Node)
    requires WellFormed(p.graph) && References(a) <= p.graph.Keys && References(b) <= p.graph.Keys
    requires !a.Qualified? && !b.Qualified? && !a.Typedef? && !b.Typedef?
    requires !NodeScript(p, a, b).incomparable
    ensures KindOf(a) == KindOf(b)
  {
    hide NodeScript;
    if KindOf(a) != KindOf(b) { DifferentKindsScript(p, a, b); }
  }

  lemma EndsOfDefinedStructs(p: Problem, a: Node, b: Node)
    requires WellFormed(p.graph) && References(a) <= p.graph.Keys && References(b) <= p.graph.Keys
    requires a.StructUnion? && b.StructUnion? && a.structDefinition.Some? && b.structDefinition.Some?
    requires !NodeScript(p, a, b).incomparable
    ensures UseParts(p, a, b)
  {
    hide WellFormed, StructSteps, FirstEnds, SecondEnds, NodesInKeyOrder;
    EndsOfStructs(p.graph, a.structDefinition.value, b.structDefinition.value);
  }

  lemma EndsOfNodeFunctions(p: Problem, a: Node, b: Node)
    requires WellFormed(p.graph) && References(a) <= p.graph.Keys && References(b) <= p.graph.Keys
    requires a.Function? && b.Function?
    ensures UseParts(p, a, b)
  {
    hide WellFormed, FunctionSteps, FirstEnds, SecondEnds, TypesOf;
    EndsOfFunctions(a, b);
  }

  lemma AttributesThenChild(attributes: seq<Step>, text: string, id1: Id, id2: Id)
    requires AllNodeSteps(attributes)
    ensures FirstEnds(attributes + [ChildEdge(text, id1, id2)]) == [id1]
    ensures SecondEnds(attributes + [ChildEdge(text, id1, id2)]) == [id2]
  {
    hide FirstEnds, SecondEnds;
    NodeStepsHaveNoEnds(attributes);
    EndsOfOne(ChildEdge(text, id1, id2));
    EndsOfSum(attributes, [ChildEdge(text, id1, id2)]);
  }

  lemma EndsOfChild(p: Problem, a: Node, b: Node)
    requires WellFormed(p.graph) && References(a) <= p.graph.Keys && References(b) <= p.graph.Keys
    requires a.PointerReference? || a.Array? || a.BaseClass? || a.Member? || a.Method?
    requires KindOf(a) == KindOf(b) && !NodeScript(p, a, b).incomparable
    ensures UseParts(p, a, b)
  {
    hide WellFormed, StructSteps, EnumSteps, FunctionSteps, IntegerSteps, SymbolAttributeSteps, FirstEnds, SecondEnds,
         AttributeSteps, OptionalAttributeSteps, NumberSteps;
    match a
    case PointerReference(kind, id) =>
      var text := if kind == PTR then "pointed-to" else "referred-to";
      AttributesThenChild([], text, id, b.pointeeTypeId);
      assert [] + [ChildEdge(text, id, b.pointeeTypeId)] == [ChildEdge(text, id, b.pointeeTypeId)];
    case Array(n, id) =>
      AttributesThenChild(NumberSteps("number of elements", n, b.numberOfElements), "element", id, b.elementTypeId);
    case BaseClass(id, offset, inheritance) =>
      AttributesThenChild(
        AttributeSteps(Attribute("inheritance"), InheritanceValue(inheritance), InheritanceValue(b.inheritance))
        + NumberSteps("offset", offset, b.offset), "", id, b.typeId);
    case Member(_, id, offset, bitsize) =>
      AttributesThenChild(
        NumberSteps("offset", offset, b.offset) + NumberSteps("size", bitsize, b.bitsize), "", id, b.typeId);
    case Method(_, _, kind, vtable, id) =>
      AttributesThenChild(
        AttributeSteps(Attribute("kind"), MethodKindValue(kind), MethodKindValue(b.methodKind))
        + OptionalAttributeSteps(Attribute("vtable offset"), MapNumber(vtable), MapNumber(b.vtableOffset)), "", id,
        b.typeId);
  }

  lemma EndsOfSymbols(p: Problem, a: Node, b: Node)
    requires WellFormed(p.graph) && References(a) <= p.graph.Keys && References(b) <= p.graph.Keys
    requires a.ElfSymbol? && b.ElfSymbol?
    ensures UseParts(p, a, b)
  {
    hide WellFormed, SymbolAttributeSteps, FirstEnds, SecondEnds, SymbolTypeSteps, References, NodeScript;
    ElfSymbolScript(p, a, b);
    var last := SymbolTypeSteps(a.symbolTypeId, b.symbolTypeId, p.options.ignoreSymbolTypePresenceChanges);
    NodeStepsHaveNoEnds(SymbolAttributeSteps(a, b));
    EndsOfSum(SymbolAttributeSteps(a, b), last);
    EndsOfSymbolTypes(a.symbolTypeId, b.symbolTypeId, p.options.ignoreSymbolTypePresenceChanges);
    assert NodeScript(p, a, b).steps == SymbolAttributeSteps(a, b) + last;
  }

  lemma EndsOfSymbolTypes(id1: Option<Id>, id2: Option<Id>, ignore: bool)
    ensures var steps, matters := SymbolTypeSteps(id1, id2, ignore), (id1.Some? && id2.Some?) || !ignore;
            && FirstEnds(steps) == (if matters && id1.Some? then [id1.value] else [])
            && SecondEnds(steps) == (if matters && id2.Some? then [id2.value] else [])
  {
    hide FirstEnds, SecondEnds;
    NodeStepsHaveNoEnds([]);
    var steps := SymbolTypeSteps(id1, id2, ignore);
    if steps != [] { EndsOfOne(steps[0]); }
  }

  lemma NoParts(p: Problem, a: Node, b: Node)
    requires WellFormed(p.graph) && References(a) <= p.graph.Keys && References(b) <= p.graph.Keys
    requires KindOf(a) == KindOf(b) && !a.Qualified? && !a.Typedef?
    requires a.Void? || a.Variadic? || a.Integer? || a.Enumeration? ||
             (a.StructUnion? && !(a.structDefinition.Some? && b.structDefinition.Some?))
    ensures UseParts(p, a, b)
  {
    hide WellFormed, IntegerSteps, FirstEnds, SecondEnds, MatchedPairs, EnumeratorSteps;
    if a.Enumeration? && a.enumDefinition.Some? && b.enumDefinition.Some? {
      var enums1, enums2 := a.enumDefinition.value.enumerators, b.enumDefinition.value.enumerators;
      EnumeratorStepsNone(MatchedPairs(EnumeratorNames(enums1), EnumeratorNames(enums2), true), enums1, enums2);
    }
    NodeStepsHaveNoEnds(NodeScript(p, a, b).steps);
  }

  // ---- keys in order ----

  /** Nodes in the order of their keys: alphabetical, and those with the same key as they are listed. */
  lemma KeyOrderIsAlphabetical(keys: seq<string>)
    ensures var order := Indices(SortedKeys(keys));
            && IsPermutation(order, |keys|)
            && forall k, l :: 0 <= k < l < |keys| ==>
                 Precedes(keys[order[k]], keys[order[l]]) || (keys[order[k]] == keys[order[l]] && order[k] < order[l])
  {
    hide SortedKeys, CompareStrings, Precedes;
    var order, sorted := Indices(SortedKeys(keys)), SortedKeys(keys);
    IndicesArePermutation(keys);
    IndicesAt(sorted);
    SortedKeysSorted(keys);
    SortedKeysInRange(keys);
    forall k, l | 0 <= k < l < |keys|
      ensures Precedes(keys[order[k]], keys[order[l]]) || (keys[order[k]] == keys[order[l]] && order[k] < order[l])
    {
      CompareIsLexicographic(keys[order[k]], keys[order[l]]);
      assert KeyIndexLe(sorted[k], sorted[l]);
      assert order[k] != order[l];
    }
  }
}

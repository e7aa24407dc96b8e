/** What the script of a pair of nodes comes to: when it finds no difference, and what it then compares.
    Each node has a list of children in an order of its own, and alike nodes are compared child by child. */
module Forms {
  import opened Wrappers
  import opened Sequences
  import opened Strings
  import opened Graph
  import opened Order
  import opened Matching
  import opened Diffs
  import opened Scripts

  // ---- the children of a node, in an order that does not depend on what it is compared with ----

  /** The keys of nodes or enumerators in sorted order. */
  function SortedNames(keys: seq<string>): seq<string> {
    seq(|SortedKeys(keys)|, k requires 0 <= k < |SortedKeys(keys)| => SortedKeys(keys)[k].0)
  }

  lemma SortedKeysInRange(keys: seq<string>)
    ensures |SortedKeys(keys)| == |keys|
    ensures forall k :: 0 <= k < |keys| ==> SortedKeys(keys)[k].1 < |keys|
  {
    SortedKeysSorted(keys);
    SameElements(Indexed(keys), SortedKeys(keys));
  }

  /** The items in the order of their keys. */
  function InKeyOrder<T>(items: seq<T>, keys: seq<string>): (r: seq<T>)
    requires |items| == |keys|
    ensures |r| == |items|
  {
    SortedKeysInRange(keys);
    seq(|keys|, k requires 0 <= k < |keys| => items[SortedKeys(keys)[k].1])
  }

  function NodesInKeyOrder(g: Graph, nodes: seq<Id>): seq<Id>
    requires WellFormed(g) && forall id :: id in nodes ==> id in g
  {
    InKeyOrder(nodes, NodeKeys(g, nodes).0)
  }

  function Children(g: Graph, node: Node): seq<Id>
    requires WellFormed(g) && References(node) <= g.Keys
  {
    match node
    case Void | Variadic | Integer(_, _, _, _) | Enumeration(_, _) => []
    case PointerReference(_, id) => [id]
    case Typedef(_, id) => [id]
    case Qualified(_, id) => [id]
    case Array(_, id) => [id]
    case BaseClass(id, _, _) => [id]
    case Member(_, id, _, _) => [id]
    case Method(_, _, _, _, id) => [id]
    case StructUnion(_, _, None) => []
    case StructUnion(_, _, Some(d)) => PartsInOrder(g, d)
    case Function(id, parameters) => [id] + seq(|parameters|, k requires 0 <= k < |parameters| => parameters[k].typeId)
    case ElfSymbol(_, _, _, _, _, _, _, None, _) => []
    case ElfSymbol(_, _, _, _, _, _, _, Some(id), _) => [id]
    case Symbols(symbols) => seq(|symbols|, k requires 0 <= k < |symbols| => symbols[k].1)
  }

  function PartsInOrder(g: Graph, d: StructDefinition): seq<Id>
    requires WellFormed(g) && forall id :: id in d.baseClasses + d.methods + d.members ==> id in g
  {
    NodesInKeyOrder(g, d.baseClasses) + NodesInKeyOrder(g, d.methods) + NodesInKeyOrder(g, d.members)
  }

  // ---- nodes that do not differ by themselves ----

  predicate SameNames(g: Graph, nodes1: seq<Id>, nodes2: seq<Id>)
    requires WellFormed(g)
    requires (forall id :: id in nodes1 ==> id in g) && (forall id :: id in nodes2 ==> id in g)
  {
    SortedNames(NodeKeys(g, nodes1).0) == SortedNames(NodeKeys(g, nodes2).0)
  }

  predicate AlikeDefinitions(g: Graph, d1: StructDefinition, d2: StructDefinition)
    requires WellFormed(g)
    requires forall id :: id in d1.baseClasses + d1.methods + d1.members ==> id in g
    requires forall id :: id in d2.baseClasses + d2.methods + d2.members ==> id in g
  {
    && d1.bytesize == d2.bytesize
    && SameNames(g, d1.baseClasses, d2.baseClasses)
    && SameNames(g, d1.methods, d2.methods)
    && SameNames(g, d1.members, d2.members)
  }

  /** The enumerators, sorted by name. */
  function SortedEnumerators(enumerators: seq<(string, int)>): seq<(string, int)> {
    InKeyOrder(enumerators, EnumeratorNames(enumerators))
  }

  /** An integer type that uses all the bits of its bytes. */
  predicate FillsBytes(a: Node)
    requires a.Integer?
  {
    a.bitsize == Bits(a.bytesize)
  }

  predicate AlikeIntegers(a: Node, b: Node)
    requires a.Integer? && b.Integer?
  {
    && a.encoding == b.encoding && a.bitsize == b.bitsize
    && (FillsBytes(a) || FillsBytes(b) || a.bytesize == b.bytesize)
  }

  predicate AlikeSymbols(a: Node, b: Node, ignoreTypePresence: bool)
    requires a.ElfSymbol? && b.ElfSymbol?
  {
    && a.symbolName == b.symbolName && a.versionInfo == b.versionInfo && a.isDefined == b.isDefined
    && a.symbolType == b.symbolType && a.binding == b.binding && a.visibility == b.visibility && a.crc == b.crc
    && (ignoreTypePresence || a.symbolTypeId.Some? == b.symbolTypeId.Some?)
  }

  function SymbolKeys(symbols: SymbolMap): seq<SymbolKey> {
    seq(|symbols|, k requires 0 <= k < |symbols| => symbols[k].0)
  }

  /** Two nodes that are alike may only differ through their children. Neither the names of members nor
      those of parameters are looked at here: members are matched by name. */
  predicate Alike(p: Problem, a: Node, b: Node)
    requires WellFormed(p.graph) && References(a) <= p.graph.Keys && References(b) <= p.graph.Keys
  {
    match (a, b)
    case (Void, Void) => true
    case (Variadic, Variadic) => true
    case (PointerReference(kind1, _), PointerReference(kind2, _)) => kind1 == kind2
    case (Integer(_, _, _, _), Integer(_, _, _, _)) => AlikeIntegers(a, b)
    case (Array(n1, _), Array(n2, _)) => n1 == n2
    case (BaseClass(_, offset1, inheritance1), BaseClass(_, offset2, inheritance2)) =>
      offset1 == offset2 && inheritance1 == inheritance2
    case (Member(_, _, offset1, bitsize1), Member(_, _, offset2, bitsize2)) => offset1 == offset2 &&
        bitsize1 == bitsize2
    case (Method(_, _, kind1, vtable1, _), Method(_, _, kind2, vtable2, _)) => kind1 == kind2 && vtable1 == vtable2
    case (StructUnion(kind1, name1, d1), StructUnion(kind2, name2, d2)) =>
      && kind1 == kind2 && name1 == name2
      && if d1.Some? && d2.Some? then AlikeDefinitions(p.graph, d1.value, d2.value)
         else p.options.ignoreTypeDeclarationStatusChanges || d1.Some? == d2.Some?
    case (Enumeration(name1, d1), Enumeration(name2, d2)) =>
      && name1 == name2
      && if d1.Some? && d2.Some? then
           d1.value.bytesize == d2.value.bytesize
           && SortedEnumerators(d1.value.enumerators) == SortedEnumerators(d2.value.enumerators)
         else p.options.ignoreTypeDeclarationStatusChanges || d1.Some? == d2.Some?
    case (Function(_, parameters1), Function(_, parameters2)) => |parameters1| == |parameters2|
    case (ElfSymbol(_, _, _, _, _, _, _, _, _), ElfSymbol(_, _, _, _, _, _, _, _, _)) =>
      AlikeSymbols(a, b, p.options.ignoreSymbolTypePresenceChanges)
    case (Symbols(symbols1), Symbols(symbols2)) => SymbolKeys(symbols1) == SymbolKeys(symbols2)
    case _ => false
  }

  /** d compares two children in the same place. */
  ghost predicate Facing(children1: seq<Id>, children2: seq<Id>, d: Comparison) {
    |children1| == |children2| && exists k :: 0 <= k < |children1| && d == Pair(children1[k], children2[k])
  }

  // ---- what steps come to ----

  ghost predicate OnlyChildren(steps: seq<Step>) {
    forall step :: step in steps ==> step.ChildStep?
  }

  ghost predicate Compares(steps: seq<Step>, d: Comparison) {
    exists step :: step in steps && step.ChildStep? && step.edge == d
  }

  /** The steps find no difference exactly if the nodes are alike, and then compare the children place by
      place. */
  ghost predicate ComesTo(steps: seq<Step>, alike: bool, children1: seq<Id>, children2: seq<Id>) {
    && (OnlyChildren(steps) <==> alike)
    && (alike ==> forall d :: Compares(steps, d) <==> Facing(children1, children2, d))
  }

  lemma ConcatComesTo(
      steps1: seq<Step>, alike1: bool, s1: seq<Id>, t1: seq<Id>, steps2: seq<Step>, alike2: bool, s2: seq<Id>,
      t2: seq<Id>)
    requires ComesTo(steps1, alike1, s1, t1) && ComesTo(steps2, alike2, s2, t2)
    requires alike1 && alike2 ==> |s1| == |t1| && |s2| == |t2|
    ensures ComesTo(steps1 + steps2, alike1 && alike2, s1 + s2, t1 + t2)
  {
    if alike1 && alike2 {
      forall d ensures Compares(steps1 + steps2, d) <==> Facing(s1 + s2, t1 + t2, d) {
        assert Compares(steps1 + steps2, d) <==> Compares(steps1, d) || Compares(steps2, d);
        FacingConcat(s1, t1, s2, t2, d);
      }
    }
  }

  lemma FacingConcat(s1: seq<Id>, t1: seq<Id>, s2: seq<Id>, t2: seq<Id>, d: Comparison)
    requires |s1| == |t1| && |s2| == |t2|
    ensures Facing(s1 + s2, t1 + t2, d) <==> Facing(s1, t1, d) || Facing(s2, t2, d)
  {
    if Facing(s2, t2, d) {
      var k :| 0 <= k < |s2| && d == Pair(s2[k], t2[k]);
      assert (s1 + s2)[|s1| + k] == s2[k] && (t1 + t2)[|s1| + k] == t2[k];
    }
    if Facing(s1, t1, d) {
      var k :| 0 <= k < |s1| && d == Pair(s1[k], t1[k]);
      assert (s1 + s2)[k] == s1[k] && (t1 + t2)[k] == t1[k];
    }
  }

  /** Steps without children. */
  lemma AttributesComeTo(steps: seq<Step>)
    requires AllNodeSteps(steps)
    ensures ComesTo(steps, steps == [], [], [])
  {
    if steps != [] { assert steps[0] in steps; }
  }

  lemma OneChildComesTo(text: string, id1: Id, id2: Id)
    ensures ComesTo([ChildEdge(text, id1, id2)], true, [id1], [id2])
  {
    forall d ensures Compares([ChildEdge(text, id1, id2)], d) <==> Facing([id1], [id2], d) {
      if d == Pair(id1, id2) {
        assert ChildEdge(text, id1, id2) in [ChildEdge(text, id1, id2)];
        assert [id1][0] == id1;
      }
    }
  }

  lemma InStepComesTo(steps: seq<Step>, s: seq<Id>, t: seq<Id>)
    requires |steps| == |s| == |t|
    requires forall k :: 0 <= k < |steps| ==> steps[k].ChildStep? && steps[k].edge == Pair(s[k], t[k])
    ensures ComesTo(steps, true, s, t)
  {
  }

  /** Attributes, then one child. */
  lemma AttributesAndChild(attributes: seq<Step>, text: string, id1: Id, id2: Id)
    requires AllNodeSteps(attributes)
    ensures ComesTo(attributes + [ChildEdge(text, id1, id2)], attributes == [], [id1], [id2])
  {
    AttributesComeTo(attributes);
    OneChildComesTo(text, id1, id2);
    ConcatComesTo(attributes, attributes == [], [], [], [ChildEdge(text, id1, id2)], true, [id1], [id2]);
    assert [] + [id1] == [id1] && [] + [id2] == [id2];
  }

  // ---- lists matched by key ----

  predicate BothPresent(pair: (Option<nat>, Option<nat>)) {
    pair.0.Some? && pair.1.Some?
  }

  ghost predicate AllPresent(pairs: Matches) {
    forall pair: (Option<nat>, Option<nat>) :: pair in pairs ==> BothPresent(pair)
  }

  ghost predicate SameKeyLists(pairs1: KeyIndexPairs, pairs2: KeyIndexPairs) {
    |pairs1| == |pairs2| && forall k :: 0 <= k < |pairs1| ==> pairs1[k].0 == pairs2[k].0
  }

  /** Everything is matched exactly if the keys are the same, and then the lists are paired in step. */
  lemma {:induction false} PairedInStep(pairs1: KeyIndexPairs, pairs2: KeyIndexPairs)
    ensures AllPresent(Paired(pairs1, pairs2)) <==> SameKeyLists(pairs1, pairs2)
    ensures SameKeyLists(pairs1, pairs2) ==>
              Paired(pairs1, pairs2) == seq(|pairs1|, k requires 0 <= k < |pairs1| &&
                                            |pairs1| == |pairs2| => (Some(pairs1[k].1), Some(pairs2[k].1)))
    decreases |pairs1| + |pairs2|
  {
    var all := Paired(pairs1, pairs2);
    if pairs1 != [] && pairs2 != [] && pairs1[0].0 == pairs2[0].0 {
      PairedInStep(pairs1[1..], pairs2[1..]);
      assert all[1..] == Paired(pairs1[1..], pairs2[1..]);
      assert SameKeyLists(pairs1, pairs2) <==> SameKeyLists(pairs1[1..], pairs2[1..]) by {
        KeyListsStep(pairs1, pairs2);
      }
      assert forall pair :: pair in all <==> pair == all[0] || pair in all[1..];
    } else if all != [] {
      assert !BothPresent(all[0]) && all[0] in all;
    }
  }

  lemma KeyListsStep(pairs1: KeyIndexPairs, pairs2: KeyIndexPairs)
    requires pairs1 != [] && pairs2 != [] && pairs1[0].0 == pairs2[0].0
    ensures SameKeyLists(pairs1, pairs2) <==> SameKeyLists(pairs1[1..], pairs2[1..])
  {
  }

  lemma ReorderedHasSame(pairs: Matches)
    requires AllPositioned(pairs)
    ensures forall pair: (Option<nat>, Option<nat>) :: pair in Reordered(pairs) <==> pair in pairs
  {
    hide ReorderedIndexes, Reconciles, Distinct;
    ReorderedIsPermutation(pairs);
    var order := ReorderedIndexes(pairs);
    forall k | 0 <= k < |pairs| ensures pairs[k] in Reordered(pairs) {
      PermutationIsOnto(order, |pairs|, k);
      var j :| 0 <= j < |order| && order[j] == k;
      assert Reordered(pairs)[j] == pairs[k];
    }
  }

  /** The pair of indices in k-th place. */
  function InStep(keys1: seq<string>, keys2: seq<string>, k: nat): (Option<nat>, Option<nat>)
    requires k < |SortedKeys(keys1)| && k < |SortedKeys(keys2)|
  {
    (Some(SortedKeys(keys1)[k].1), Some(SortedKeys(keys2)[k].1))
  }

  lemma MatchedInStep(keys1: seq<string>, keys2: seq<string>, reorder: bool)
    ensures AllPresent(MatchedPairs(keys1, keys2, reorder)) <==> SortedNames(keys1) == SortedNames(keys2)
    ensures SortedNames(keys1) == SortedNames(keys2) ==>
              && |SortedKeys(keys1)| == |SortedKeys(keys2)|
              && forall pair: (Option<nat>, Option<nat>) :: pair in MatchedPairs(keys1, keys2, reorder) <==>
                   exists k :: 0 <= k < |SortedKeys(keys1)| && pair == InStep(keys1, keys2, k)
  {
    hide Paired, SortedKeys, Reordered, AllPositioned;
    var pairs := Paired(SortedKeys(keys1), SortedKeys(keys2));
    PairUpCoversAll(keys1, keys2);
    ReorderedHasSame(pairs);
    PairedInStep(SortedKeys(keys1), SortedKeys(keys2));
    SameNamesSameLists(keys1, keys2);
    if SortedNames(keys1) == SortedNames(keys2) {
      forall k | 0 <= k < |SortedKeys(keys1)| ensures InStep(keys1, keys2, k) in pairs {
        assert pairs[k] == InStep(keys1, keys2, k);
      }
      forall pair: (Option<nat>, Option<nat>) | pair in pairs
        ensures exists k :: 0 <= k < |SortedKeys(keys1)| && pair == InStep(keys1, keys2, k)
      {
        var k :| 0 <= k < |pairs| && pairs[k] == pair;
        assert pairs[k] == InStep(keys1, keys2, k);
      }
    }
  }

  lemma SameNamesSameLists(keys1: seq<string>, keys2: seq<string>)
    ensures SortedNames(keys1) == SortedNames(keys2) <==> SameKeyLists(SortedKeys(keys1), SortedKeys(keys2))
  {
    hide SortedKeys;
    if SortedNames(keys1) == SortedNames(keys2) {
      forall k | 0 <= k < |SortedKeys(keys1)| ensures SortedKeys(keys1)[k].0 == SortedKeys(keys2)[k].0 {
        assert SortedNames(keys1)[k] == SortedNames(keys2)[k];
      }
    }
  }

  lemma PairStepsOnlyChildren(pairs: Matches, nodes1: seq<Id>, nodes2: seq<Id>)
    requires PairsInRange(pairs, |nodes1|, |nodes2|)
    ensures OnlyChildren(PairSteps(pairs, nodes1, nodes2)) <==> AllPresent(pairs)
  {
    var steps := PairSteps(pairs, nodes1, nodes2);
    assert forall k :: 0 <= k < |pairs| ==> steps[k] in steps && pairs[k] in pairs;
    assert forall k :: 0 <= k < |pairs| ==> (steps[k].ChildStep? <==> BothPresent(pairs[k]));
  }

  lemma NodesComeTo(g: Graph, nodes1: seq<Id>, nodes2: seq<Id>, reorder: bool)
    requires WellFormed(g)
    requires (forall id :: id in nodes1 ==> id in g) && (forall id :: id in nodes2 ==> id in g)
    ensures ComesTo(NodesSteps(g, nodes1, nodes2, reorder), SameNames(g, nodes1, nodes2),
                    NodesInKeyOrder(g, nodes1), NodesInKeyOrder(g, nodes2))
  {
    hide WellFormed, MatchedPairs, NodeKeys, SortedKeys;
    KeyedComeTo(NodeKeys(g, nodes1).0, NodeKeys(g, nodes2).0, nodes1, nodes2, reorder);
  }

  lemma KeyedComeTo(keys1: seq<string>, keys2: seq<string>, nodes1: seq<Id>, nodes2: seq<Id>, reorder: bool)
    requires |keys1| == |nodes1| && |keys2| == |nodes2|
    ensures ComesTo(PairSteps(MatchedPairs(keys1, keys2, reorder), nodes1, nodes2),
                    SortedNames(keys1) == SortedNames(keys2),
                    InKeyOrder(nodes1, keys1), InKeyOrder(nodes2, keys2))
  {
    hide MatchedPairs, SortedKeys, SortedNames;
    var pairs := MatchedPairs(keys1, keys2, reorder);
    var s, t := InKeyOrder(nodes1, keys1), InKeyOrder(nodes2, keys2);
    PairStepsOnlyChildren(pairs, nodes1, nodes2);
    MatchedInStep(keys1, keys2, reorder);
    SortedKeysInRange(keys1);
    SortedKeysInRange(keys2);
    if SortedNames(keys1) == SortedNames(keys2) {
      forall d ensures Compares(PairSteps(pairs, nodes1, nodes2), d) <==> Facing(s, t, d) {
        KeyedCompares(keys1, keys2, nodes1, nodes2, pairs, d);
      }
    }
  }

  lemma KeyedCompares(
      keys1: seq<string>, keys2: seq<string>, nodes1: seq<Id>, nodes2: seq<Id>, pairs: Matches, d: Comparison)
    requires |keys1| == |nodes1| == |keys2| == |nodes2|
    requires PairsInRange(pairs, |nodes1|, |nodes2|)
    requires |SortedKeys(keys1)| == |keys1| && |SortedKeys(keys2)| == |keys2|
    requires forall pair: (Option<nat>, Option<nat>) :: pair in pairs <==>
               exists k :: 0 <= k < |SortedKeys(keys1)| && pair == InStep(keys1, keys2, k)
    ensures Compares(PairSteps(pairs, nodes1, nodes2), d) <==>
            Facing(InKeyOrder(nodes1, keys1), InKeyOrder(nodes2, keys2), d)
  {
    hide SortedKeys;
    var steps := PairSteps(pairs, nodes1, nodes2);
    var s, t := InKeyOrder(nodes1, keys1), InKeyOrder(nodes2, keys2);
    if Compares(steps, d) {
      var i :| 0 <= i < |steps| && steps[i].ChildStep? && steps[i].edge == d;
      assert pairs[i] in pairs;
      var k :| 0 <= k < |SortedKeys(keys1)| && pairs[i] == InStep(keys1, keys2, k);
      assert d == Pair(s[k], t[k]);
    }
    if Facing(s, t, d) {
      var k :| 0 <= k < |s| && d == Pair(s[k], t[k]);
      assert InStep(keys1, keys2, k) in pairs;
      var i :| 0 <= i < |pairs| && pairs[i] == InStep(keys1, keys2, k);
      assert steps[i] == PairStep(pairs[i], nodes1, nodes2) && steps[i] in steps;
    }
  }

  // ---- kind by kind ----

  lemma DefinitionsComeTo(g: Graph, d1: StructDefinition, d2: StructDefinition)
    requires WellFormed(g)
    requires forall id :: id in d1.baseClasses + d1.methods + d1.members ==> id in g
    requires forall id :: id in d2.baseClasses + d2.methods + d2.members ==> id in g
    ensures ComesTo(StructSteps(g, d1, d2), AlikeDefinitions(g, d1, d2), PartsInOrder(g, d1), PartsInOrder(g, d2))
  {
    hide WellFormed, NodesSteps, NodesInKeyOrder, SameNames, ComesTo;
    var size := NumberSteps("byte size", d1.bytesize, d2.bytesize);
    AttributesComeTo(size);
    SameNamesSameCount(g, d1.baseClasses, d2.baseClasses);
    SameNamesSameCount(g, d1.methods, d2.methods);
    SameNamesSameCount(g, d1.members, d2.members);
    var base1, base2 := NodesInKeyOrder(g, d1.baseClasses), NodesInKeyOrder(g, d2.baseClasses);
    var methods1, methods2 := NodesInKeyOrder(g, d1.methods), NodesInKeyOrder(g, d2.methods);
    NodesComeTo(g, d1.baseClasses, d2.baseClasses, true);
    NodesComeTo(g, d1.methods, d2.methods, false);
    NodesComeTo(g, d1.members, d2.members, true);
    var steps := size;
    ConcatComesTo(size, size == [], [], [],
                  NodesSteps(g, d1.baseClasses, d2.baseClasses, true), SameNames(g, d1.baseClasses, d2.baseClasses),
                  base1, base2);
    assert [] + base1 == base1 && [] + base2 == base2;
    steps := size + NodesSteps(g, d1.baseClasses, d2.baseClasses, true);
    ConcatComesTo(steps, size == [] && SameNames(g, d1.baseClasses, d2.baseClasses), base1, base2,
                  NodesSteps(g, d1.methods, d2.methods, false), SameNames(g, d1.methods, d2.methods), methods1,
                  methods2);
    ConcatComesTo(steps + NodesSteps(g, d1.methods, d2.methods, false),
                  size == [] && SameNames(g, d1.baseClasses, d2.baseClasses) && SameNames(g, d1.methods, d2.methods),
                  base1 + methods1, base2 + methods2,
                  NodesSteps(g, d1.members, d2.members, true), SameNames(g, d1.members, d2.members),
                  NodesInKeyOrder(g, d1.members), NodesInKeyOrder(g, d2.members));
  }

  lemma SameNamesSameCount(g: Graph, nodes1: seq<Id>, nodes2: seq<Id>)
    requires WellFormed(g)
    requires (forall id :: id in nodes1 ==> id in g) && (forall id :: id in nodes2 ==> id in g)
    ensures SameNames(g, nodes1, nodes2) ==> |NodesInKeyOrder(g, nodes1)| == |NodesInKeyOrder(g, nodes2)|
  {
    hide WellFormed, SortedKeys, NodeKeys;
    SortedKeysInRange(NodeKeys(g, nodes1).0);
    SortedKeysInRange(NodeKeys(g, nodes2).0);
  }

  lemma {:induction false} EnumeratorStepsNone(pairs: Matches, enums1: seq<(string, int)>, enums2: seq<(string, int)>)
    requires PairsInRange(pairs, |enums1|, |enums2|)
    ensures AllNodeSteps(EnumeratorSteps(pairs, enums1, enums2))
    ensures EnumeratorSteps(pairs, enums1, enums2) == [] <==>
            forall k :: 0 <= k < |pairs| ==> EnumeratorStep(pairs[k], enums1, enums2) == []
  {
    hide EnumeratorStep;
    if pairs != [] {
      var n := |pairs| - 1;
      EnumeratorStepsNone(pairs[..n], enums1, enums2);
      EnumeratorStepIsNode(pairs[n], enums1, enums2);
      assert forall k :: 0 <= k < n ==> pairs[..n][k] == pairs[k];
    }
  }

  lemma EnumeratorStepIsNode(pair: (Option<nat>, Option<nat>), enums1: seq<(string, int)>, enums2: seq<(string, int)>)
    requires PairInRange(pair, |enums1|, |enums2|)
    ensures AllNodeSteps(EnumeratorStep(pair, enums1, enums2))
    ensures EnumeratorStep(pair, enums1, enums2) == [] <==>
            BothPresent(pair) && enums1[pair.0.value].1 == enums2[pair.1.value].1
  {
  }

  lemma EnumeratorsComeTo(d1: EnumDefinition, d2: EnumDefinition)
    ensures ComesTo(EnumSteps(d1, d2),
                    d1.bytesize == d2.bytesize && SortedEnumerators(d1.enumerators)
                        == SortedEnumerators(d2.enumerators), [], [])
  {
    hide MatchedPairs, SortedKeys, EnumeratorStep, EnumeratorSteps, SortedEnumerators;
    var names1, names2 := EnumeratorNames(d1.enumerators), EnumeratorNames(d2.enumerators);
    var pairs := MatchedPairs(names1, names2, true);
    EnumeratorStepsNone(pairs, d1.enumerators, d2.enumerators);
    EnumeratorsMatch(d1.enumerators, d2.enumerators, pairs);
    AttributesComeTo(EnumSteps(d1, d2));
  }

  lemma EnumeratorsMatch(enums1: seq<(string, int)>, enums2: seq<(string, int)>, pairs: Matches)
    requires pairs == MatchedPairs(EnumeratorNames(enums1), EnumeratorNames(enums2), true)
    ensures (forall k :: 0 <= k < |pairs| ==> EnumeratorStep(pairs[k], enums1, enums2) == []) <==>
            SortedEnumerators(enums1) == SortedEnumerators(enums2)
  {
    hide MatchedPairs, SortedKeys, EnumeratorStep;
    var names1, names2 := EnumeratorNames(enums1), EnumeratorNames(enums2);
    var s, t := SortedEnumerators(enums1), SortedEnumerators(enums2);
    MatchedInStep(names1, names2, true);
    EnumeratorsInOrder(enums1);
    EnumeratorsInOrder(enums2);
    forall k | 0 <= k < |pairs|
      ensures pairs[k] in pairs
      ensures EnumeratorStep(pairs[k], enums1, enums2) == [] <==>
              BothPresent(pairs[k]) && enums1[pairs[k].0.value].1 == enums2[pairs[k].1.value].1
    {
      EnumeratorStepIsNode(pairs[k], enums1, enums2);
    }
    if forall k :: 0 <= k < |pairs| ==> EnumeratorStep(pairs[k], enums1, enums2) == [] {
      assert AllPresent(pairs);
      forall k | 0 <= k < |s| ensures s[k] == t[k] {
        assert InStep(names1, names2, k) in pairs;
        assert SortedNames(names1)[k] == SortedNames(names2)[k];
      }
    }
    if s == t {
      assert SortedNames(names1) == SortedNames(names2);
      forall j | 0 <= j < |pairs| ensures EnumeratorStep(pairs[j], enums1, enums2) == [] {
        var k :| 0 <= k < |s| && pairs[j] == InStep(names1, names2, k);
        assert s[k] == t[k];
      }
    }
  }

  lemma EnumeratorsInOrder(enums: seq<(string, int)>)
    ensures var names := EnumeratorNames(enums);
            && |SortedKeys(names)| == |SortedNames(names)| == |enums| == |SortedEnumerators(enums)|
            && forall k :: 0 <= k < |enums| ==>
                 && SortedKeys(names)[k].1 < |enums|
                 && SortedEnumerators(enums)[k] == (SortedNames(names)[k], enums[SortedKeys(names)[k].1].1)
  {
    var names := EnumeratorNames(enums);
    SortedKeysInRange(names);
    SortedKeysSorted(names);
    hide SortedKeys;
    forall k | 0 <= k < |enums|
      ensures SortedEnumerators(enums)[k] == (SortedNames(names)[k], enums[SortedKeys(names)[k].1].1)
    {
      assert names[SortedKeys(names)[k].1] == SortedKeys(names)[k].0;
    }
  }

  lemma FunctionsComeTo(a: Node, b: Node)
    requires a.Function? && b.Function?
    ensures ComesTo(FunctionSteps(a, b), |a.parameters| == |b.parameters|,
                    [a.returnTypeId] + seq(|a.parameters|, k requires 0 <= k < |a.parameters| =>
                                           a.parameters[k].typeId),
                    [b.returnTypeId] + seq(|b.parameters|, k requires 0 <= k < |b.parameters| =>
                                           b.parameters[k].typeId))
  {
    hide ParameterSteps, ExtraParameterSteps;
    var n1, n2 := |a.parameters|, |b.parameters|;
    var min := if n1 < n2 then n1 else n2;
    var s := seq(|a.parameters|, k requires 0 <= k < |a.parameters| => a.parameters[k].typeId);
    var t := seq(|b.parameters|, k requires 0 <= k < |b.parameters| => b.parameters[k].typeId);
    var children := [ChildEdge("return", a.returnTypeId, b.returnTypeId)]
      + ParameterSteps(a.parameters, b.parameters, min);
    var extra := ExtraParameterSteps(if n1 < n2 then b.parameters else a.parameters, n1 < n2, min);
    OneChildComesTo("return", a.returnTypeId, b.returnTypeId);
    ParametersComeTo(a.parameters, b.parameters, min);
    ConcatComesTo([ChildEdge("return", a.returnTypeId, b.returnTypeId)], true, [a.returnTypeId], [b.returnTypeId],
                  ParameterSteps(a.parameters, b.parameters, min), true, s[..min], t[..min]);
    ExtraIsGone(if n1 < n2 then b.parameters else a.parameters, n1 < n2, min);
    if n1 == n2 {
      assert s[..min] == s && t[..min] == t && children + extra == children;
    } else {
      assert extra[0] in FunctionSteps(a, b);
    }
  }

  lemma ParametersComeTo(parameters1: seq<Parameter>, parameters2: seq<Parameter>, n: nat)
    requires n <= |parameters1| && n <= |parameters2|
    ensures ComesTo(ParameterSteps(parameters1, parameters2, n), true,
                    seq(|parameters1|, k requires 0 <= k < |parameters1| => parameters1[k].typeId)[..n],
                    seq(|parameters2|, k requires 0 <= k < |parameters2| => parameters2[k].typeId)[..n])
  {
    InStepComesTo(ParameterSteps(parameters1, parameters2, n),
                  seq(|parameters1|, k requires 0 <= k < |parameters1| => parameters1[k].typeId)[..n],
                  seq(|parameters2|, k requires 0 <= k < |parameters2| => parameters2[k].typeId)[..n]);
  }

  lemma ExtraIsGone(parameters: seq<Parameter>, added: bool, min: nat)
    requires min <= |parameters|
    ensures |ExtraParameterSteps(parameters, added, min)| == |parameters| - min
    ensures forall k :: 0 <= k < |parameters| - min ==> ExtraParameterSteps(parameters, added, min)[k].GoneStep?
  {
    assert forall k :: 0 <= k < |parameters| - min ==>
        ExtraParameterSteps(parameters, added, min)[k] == ExtraParameterStep(parameters, added, min + k);
  }

  // ---- symbol tables ----

  lemma {:induction false} OnlyInNothing(symbols1: SymbolMap, symbols2: SymbolMap)
    ensures OnlyIn(symbols1, symbols2) == [] <==>
            forall k :: 0 <= k < |symbols1| ==> symbols1[k].0 in SymbolKeys(symbols2)
  {
    if symbols1 != [] {
      var n := |symbols1| - 1;
      OnlyInNothing(symbols1[..n], symbols2);
      LookupIsIn(symbols2, symbols1[n].0);
      assert forall k :: 0 <= k < n ==> symbols1[..n][k] == symbols1[k];
    }
  }

  lemma LookupIsIn(symbols: SymbolMap, key: SymbolKey)
    ensures LookupSymbol(symbols, key).Some? <==> key in SymbolKeys(symbols)
  {
    if LookupSymbol(symbols, key).Some? {
      var k :| 0 <= k < |symbols| && symbols[k] == (key, LookupSymbol(symbols, key).value);
      assert SymbolKeys(symbols)[k] == key;
    } else {
      assert forall k :: 0 <= k < |symbols| ==> (symbols[k].0, symbols[k].1) in symbols;
    }
  }

  predicate KeyLe(a: SymbolKey, b: SymbolKey) {
    a.Compare(b) <= 0
  }

  lemma KeyLeIsTotal()
    ensures TotalOrder(KeyLe)
  {
    hide SymbolKey.Compare;
    forall a, b ensures (KeyLe(a, b) || KeyLe(b, a)) && (KeyLe(a, b) && KeyLe(b, a) ==> a == b) {
      KeyCompareMirrors(a, b);
      KeyCompareMirrors(b, a);
    }
    forall a, b, c | KeyLe(a, b) && KeyLe(b, c) ensures KeyLe(a, c) {
      if a != b && b != c { KeyCompareTransitive(a, b, c); }
    }
  }

  lemma SymbolKeysSorted(symbols: SymbolMap)
    requires SortedSymbols(symbols)
    ensures SortedBy(SymbolKeys(symbols), KeyLe) && Distinct(SymbolKeys(symbols))
  {
    hide SymbolKey.Compare;
  }

  /** No symbol is gone exactly if the tables have the same keys. */
  lemma NoSymbolGone(symbols1: SymbolMap, symbols2: SymbolMap)
    requires SortedSymbols(symbols1) && SortedSymbols(symbols2)
    ensures OnlyIn(symbols1, symbols2) == [] && OnlyIn(symbols2, symbols1) == [] <==>
            SymbolKeys(symbols1) == SymbolKeys(symbols2)
  {
    OnlyInNothing(symbols1, symbols2);
    OnlyInNothing(symbols2, symbols1);
    hide OnlyIn, KeyLe;
    var s, t := SymbolKeys(symbols1), SymbolKeys(symbols2);
    if OnlyIn(symbols1, symbols2) == [] && OnlyIn(symbols2, symbols1) == [] {
      KeyLeIsTotal();
      SymbolKeysSorted(symbols1);
      SymbolKeysSorted(symbols2);
      SortedIsUnique(s, t, KeyLe);
    }
    if s == t {
      assert forall k :: 0 <= k < |s| ==> s[k] in s && symbols1[k].0 == s[k] && symbols2[k].0 == t[k];
      assert |s| == |symbols1| && |t| == |symbols2|;
    }
  }

  lemma {:induction false} InBothInStep(symbols1: SymbolMap, symbols2: SymbolMap, n: nat)
    requires SortedSymbols(symbols2) && n <= |symbols1| == |symbols2| && SymbolKeys(symbols1) == SymbolKeys(symbols2)
    ensures |InBoth(symbols1[..n], symbols2)| == n
    ensures forall k :: 0 <= k < n ==>
              && InBoth(symbols1[..n], symbols2)[k].1 == symbols1[k].1
              && InBoth(symbols1[..n], symbols2)[k].2 == symbols2[k].1
  {
    hide SortedSymbols, LookupSymbol;
    if n > 0 {
      InBothInStep(symbols1, symbols2, n - 1);
      assert symbols1[..n][..n - 1] == symbols1[..n - 1];
      assert SymbolKeys(symbols1)[n - 1] == SymbolKeys(symbols2)[n - 1];
      LookupFinds(symbols2, n - 1);
    }
  }

  lemma CommonSymbolsComeTo(symbols1: SymbolMap, symbols2: SymbolMap)
    requires SortedSymbols(symbols2) && SymbolKeys(symbols1) == SymbolKeys(symbols2)
    ensures ComesTo(CommonSymbolSteps(InBoth(symbols1, symbols2)), true,
                    seq(|symbols1|, k requires 0 <= k < |symbols1| => symbols1[k].1),
                    seq(|symbols2|, k requires 0 <= k < |symbols2| => symbols2[k].1))
  {
    assert |symbols1| == |SymbolKeys(symbols1)| == |symbols2|;
    InBothInStep(symbols1, symbols2, |symbols1|);
    assert symbols1[..|symbols1|] == symbols1;
    hide SortedSymbols, InBoth, Quote, SymbolKeys;
    InStepComesTo(CommonSymbolSteps(InBoth(symbols1, symbols2)),
                  seq(|symbols1|, k requires 0 <= k < |symbols1| => symbols1[k].1),
                  seq(|symbols2|, k requires 0 <= k < |symbols2| => symbols2[k].1));
  }

  lemma SymbolsComeTo(symbols1: SymbolMap, symbols2: SymbolMap)
    requires SortedSymbols(symbols1) && SortedSymbols(symbols2)
    ensures ComesTo(SymbolsSteps(symbols1, symbols2), SymbolKeys(symbols1) == SymbolKeys(symbols2),
                    seq(|symbols1|, k requires 0 <= k < |symbols1| => symbols1[k].1),
                    seq(|symbols2|, k requires 0 <= k < |symbols2| => symbols2[k].1))
  {
    hide SortedSymbols, OnlyIn, InBoth, CommonSymbolSteps, Quote;
    NoSymbolGone(symbols1, symbols2);
    var removed, added := GoneSymbolSteps(OnlyIn(symbols1, symbols2), false),
    GoneSymbolSteps(OnlyIn(symbols2, symbols1), true);
    var common := CommonSymbolSteps(InBoth(symbols1, symbols2));
    if SymbolKeys(symbols1) == SymbolKeys(symbols2) {
      CommonSymbolsComeTo(symbols1, symbols2);
      assert removed + added + common == common;
    } else {
      var gone := if removed != [] then removed[0] else added[0];
      assert gone in SymbolsSteps(symbols1, symbols2) && gone.GoneStep?;
    }
  }

  // ---- any two nodes ----

  lemma IntegersComeTo(a: Node, b: Node)
    requires a.Integer? && b.Integer?
    ensures ComesTo(IntegerSteps(a, b), AlikeIntegers(a, b), [], [])
  {
    AttributesComeTo(IntegerSteps(a, b));
  }

  lemma ElfSymbolsComeTo(a: Node, b: Node, ignore: bool)
    requires a.ElfSymbol? && b.ElfSymbol?
    ensures ComesTo(SymbolAttributeSteps(a, b) + SymbolTypeSteps(a.symbolTypeId, b.symbolTypeId, ignore),
                    AlikeSymbols(a, b, ignore),
                    if a.symbolTypeId.Some? then [a.symbolTypeId.value] else [],
                    if b.symbolTypeId.Some? then [b.symbolTypeId.value] else [])
  {
    hide AlikeSymbols, SymbolAttributeSteps;
    AttributesComeTo(SymbolAttributeSteps(a, b));
    SymbolAttributesNone(a, b, ignore);
    var last := SymbolTypeSteps(a.symbolTypeId, b.symbolTypeId, ignore);
    var s := if a.symbolTypeId.Some? then [a.symbolTypeId.value] else [];
    var t := if b.symbolTypeId.Some? then [b.symbolTypeId.value] else [];
    SymbolTypeComesTo(a.symbolTypeId, b.symbolTypeId, ignore);
    forall d ensures Compares(SymbolAttributeSteps(a, b) + last, d) <==> Compares(last, d) {
      assert forall step :: step in SymbolAttributeSteps(a, b) ==> !step.ChildStep?;
    }
    assert OnlyChildren(SymbolAttributeSteps(a, b) + last) <==>
             OnlyChildren(SymbolAttributeSteps(a, b)) && OnlyChildren(last);
  }

  lemma SymbolAttributesNone(a: Node, b: Node, ignore: bool)
    requires a.ElfSymbol? && b.ElfSymbol?
    ensures AlikeSymbols(a, b, ignore) <==>
            SymbolAttributeSteps(a, b) == [] && (ignore || a.symbolTypeId.Some? == b.symbolTypeId.Some?)
  {
  }

  lemma SymbolTypeComesTo(id1: Option<Id>, id2: Option<Id>, ignore: bool)
    ensures ComesTo(SymbolTypeSteps(id1, id2, ignore), ignore || id1.Some? == id2.Some?,
                    if id1.Some? then [id1.value] else [], if id2.Some? then [id2.value] else [])
  {
    var steps := SymbolTypeSteps(id1, id2, ignore);
    if id1.Some? && id2.Some? {
      OneChildComesTo("", id1.value, id2.value);
    } else if steps != [] {
      assert steps[0] in steps;
    }
  }
}

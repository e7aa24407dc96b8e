/** What the keys of nodes are: the names they have or are given by what they hold. The members of two structs
    are compared if these agree. */
module Keys {
  import opened Wrappers
  import opened Reachability
  import opened Sequences
  import opened Strings
  import opened Graph
  import opened Order
  import opened Matching
  import opened Diffs
  import opened Scripts
  import opened Verdicts
  import opened Forms
  import opened Sameness

  // ---- names, own and given ----

  /** The name that a node has by itself. */
  function OwnName(node: Node): Option<string> {
    match node
    case Member(name, _, _, _) => if name != "" then Some(name) else None
    case StructUnion(_, name, _) => if name != "" then Some(name) else None
    case Method(mangledName, name, _, _, _) => Some(name + "," + mangledName)
    case _ => None
  }

  /** Where a node without a name of its own looks for one, in this order. */
  function Givers(node: Node): seq<Id> {
    match node
    case BaseClass(typeId, _, _) => [typeId]
    case Member("", typeId, _, _) => [typeId]
    case StructUnion(_, "", Some(definition)) => definition.members
    case _ => []
  }

  ghost function GiverEdges(g: Graph): Edges<Id> {
    set a, b | a in g && b in Givers(g[a]) :: (a, b)
  }

  /** No search for a name from here finds one. */
  ghost predicate Nameless(g: Graph, id: Id) {
    forall n :: Reaches(GiverEdges(g), id, n) && n in g ==> OwnName(g[n]) == None
  }

  /** b is the first of the givers of a from which there is a name to be had. */
  ghost predicate FirstGiver(g: Graph, a: Id, b: Id) {
    && a in g
    && exists j :: 0 <= j < |Givers(g[a])| && Givers(g[a])[j] == b &&
                   forall i :: 0 <= i < j ==> Nameless(g, Givers(g[a])[i])
  }

  /** A way to a name: from each node to its first giver, ending at a node with that name. */
  ghost predicate IsNamePath(g: Graph, walk: seq<Id>, name: string) {
    && |walk| > 0 && walk[|walk| - 1] in g && OwnName(g[walk[|walk| - 1]]) == Some(name)
    && forall k :: 0 <= k < |walk| - 1 ==> FirstGiver(g, walk[k], walk[k + 1])
  }

  ghost predicate IsNamed(g: Graph, id: Id, name: string) {
    exists walk :: IsNamePath(g, walk, name) && walk[0] == id
  }

  lemma NamedStep(g: Graph, id: Id, name: string)
    requires id in g
    ensures IsNamed(g, id, name) <==>
            OwnName(g[id]) == Some(name) || exists b :: FirstGiver(g, id, b) && IsNamed(g, b, name)
  {
    hide FirstGiver, OwnName;
    if IsNamed(g, id, name) {
      var walk :| IsNamePath(g, walk, name) && walk[0] == id;
      if |walk| > 1 {
        assert FirstGiver(g, walk[0], walk[1]);
        assert IsNamePath(g, walk[1..], name);
      }
    }
    if OwnName(g[id]) == Some(name) {
      assert IsNamePath(g, [id], name);
    } else if b :| FirstGiver(g, id, b) && IsNamed(g, b, name) {
      var walk :| IsNamePath(g, walk, name) && walk[0] == b;
      assert IsNamePath(g, [id] + walk, name);
    }
  }

  lemma NamelessStep(g: Graph, id: Id)
    requires WellFormed(g) && id in g
    ensures Nameless(g, id) <==> OwnName(g[id]) == None && forall b :: b in Givers(g[id]) ==> Nameless(g, b)
  {
    hide Reaches, WellFormed, OwnName;
    ReachesSelf(GiverEdges(g), id);
    if Nameless(g, id) {
      forall b, n | b in Givers(g[id]) && Reaches(GiverEdges(g), b, n) ensures Reaches(GiverEdges(g), id, n) {
        ReachesStep(GiverEdges(g), id, b, n);
      }
    }
    if OwnName(g[id]) == None && forall b :: b in Givers(g[id]) ==> Nameless(g, b) {
      forall n | Reaches(GiverEdges(g), id, n) && n in g ensures OwnName(g[n]) == None {
        if n != id { var b := FirstStep(GiverEdges(g), id, n); }
      }
    }
  }

  /** The first key that is not empty. */
  ghost function FirstNonEmpty(g: Graph, ids: seq<Id>): string
    requires WellFormed(g) && forall b :: b in ids ==> b in g
  {
    if ids == [] then ""
    else if MatchingKey(g, ids[0]) != "" then MatchingKey(g, ids[0])
    else FirstNonEmpty(g, ids[1..])
  }

  lemma {:induction false} FirstKeyIsNonEmpty(g: Graph, id: Id, members: seq<Id>)
    requires WellFormed(g) && id in g && forall m :: m in members ==> m in KeyReferences(g[id]) && m in g
    ensures FirstKey(g, id, members) == FirstNonEmpty(g, members)
  {
    hide WellFormed, MatchingKey, KeyReferences;
    if members != [] { FirstKeyIsNonEmpty(g, id, members[1..]); }
  }

  lemma GiversAreInGraph(g: Graph, id: Id)
    requires WellFormed(g) && id in g
    ensures forall b :: b in Givers(g[id]) ==> b in g && b in KeyReferences(g[id])
  {
    assert References(g[id]) <= g.Keys;
  }

  lemma KeyFromGivers(g: Graph, id: Id)
    requires WellFormed(g) && id in g
    ensures forall b :: b in Givers(g[id]) ==> b in g
    ensures MatchingKey(g, id) == if OwnName(g[id]).Some? then OwnName(g[id]).value else FirstNonEmpty(g, Givers(g[id]))
    ensures OwnName(g[id]).Some? ==> OwnName(g[id]).value != "" && Givers(g[id]) == []
  {
    hide WellFormed;
    GiversAreInGraph(g, id);
    match g[id]
    case StructUnion(_, "", Some(definition)) => FirstKeyIsNonEmpty(g, id, definition.members);
    case _ =>
  }

  lemma {:induction false} FirstNonEmptyIsFirst(g: Graph, ids: seq<Id>)
    requires WellFormed(g) && forall b :: b in ids ==> b in g && (MatchingKey(g, b) == "" <==> Nameless(g, b))
    ensures FirstNonEmpty(g, ids) == "" <==> forall b :: b in ids ==> Nameless(g, b)
    ensures forall j :: 0 <= j < |ids| && !Nameless(g, ids[j]) && (forall i :: 0 <= i < j ==> Nameless(g, ids[i])) ==>
              FirstNonEmpty(g, ids) == MatchingKey(g, ids[j])
  {
    hide WellFormed, MatchingKey, Nameless;
    if ids != [] {
      FirstNonEmptyIsFirst(g, ids[1..]);
      assert ids == [ids[0]] + ids[1..];
      forall j | 0 < j < |ids| && !Nameless(g, ids[j]) && (forall i :: 0 <= i < j ==> Nameless(g, ids[i]))
        ensures FirstNonEmpty(g, ids) == MatchingKey(g, ids[j])
      {
        assert Nameless(g, ids[0]) && ids[1..][j - 1] == ids[j];
        assert forall i :: 0 <= i < j - 1 ==> ids[1..][i] == ids[i + 1];
      }
    }
  }

  /** The key of a node is the name that it is found to have, if any. */
  lemma {:induction false} KeyIsName(g: Graph, id: Id)
    requires WellFormed(g) && id in g
    ensures MatchingKey(g, id) == "" <==> Nameless(g, id)
    ensures forall name :: IsNamed(g, id, name) <==> MatchingKey(g, id) == name != ""
    decreases |ReachSet(KeyEdges(g), id)|
  {
    hide WellFormed, Nameless, IsNamed, MatchingKey, KeyReferences, OwnName, Givers;
    var givers := Givers(g[id]);
    NamelessStep(g, id);
    KeyFromGivers(g, id);
    GiversAreInGraph(g, id);
    forall b | b in givers
      ensures MatchingKey(g, b) == "" <==> Nameless(g, b)
      ensures forall name :: IsNamed(g, b, name) <==> MatchingKey(g, b) == name != ""
    {
      assert (id, b) in KeyEdges(g);
      KeyStepShrinks(g, id, b);
      KeyIsName(g, b);
    }
    FirstNonEmptyIsFirst(g, givers);
    forall name ensures IsNamed(g, id, name) <==> MatchingKey(g, id) == name != "" {
      NamedStep(g, id, name);
      if MatchingKey(g, id) == name != "" && OwnName(g[id]) == None {
        var j := FirstNamed(g, givers);
        assert FirstGiver(g, id, givers[j]) && IsNamed(g, givers[j], name);
      }
    }
  }

  lemma KeyStepShrinks(g: Graph, id: Id, b: Id)
    requires WellFormed(g) && (id, b) in KeyEdges(g)
    ensures |ReachSet(KeyEdges(g), b)| < |ReachSet(KeyEdges(g), id)|
  {
    ReachSetShrinks(KeyEdges(g), id, b);
  }

  lemma {:induction false} FirstNamed(g: Graph, ids: seq<Id>) returns (j: nat)
    requires exists b :: b in ids && !Nameless(g, b)
    ensures j < |ids| && !Nameless(g, ids[j]) && forall i :: 0 <= i < j ==> Nameless(g, ids[i])
  {
    hide Nameless;
    if !Nameless(g, ids[0]) {
      j := 0;
    } else {
      assert ids == [ids[0]] + ids[1..];
      var k := FirstNamed(g, ids[1..]);
      j := k + 1;
      forall i | 0 <= i < j ensures Nameless(g, ids[i]) {
        if i > 0 { assert ids[i] == ids[1..][i - 1]; }
      }
    }
  }

  // ---- labels of the nodes in a list ----

  ghost function NamelessBefore(g: Graph, nodes: seq<Id>, k: nat): set<nat>
    requires k <= |nodes|
  {
    set i: nat | i < k && Nameless(g, nodes[i])
  }

  /** The name of a node, or if it has none, its number among those that have none. */
  ghost predicate HasLabel(g: Graph, nodes: seq<Id>, k: nat, tag: string) {
    && k < |nodes|
    && if Nameless(g, nodes[k]) then tag == "#anon#" + Decimal(|NamelessBefore(g, nodes, k)|)
       else IsNamed(g, nodes[k], tag)
  }

  lemma {:induction false} KeysAreLabels(g: Graph, nodes: seq<Id>)
    requires WellFormed(g) && forall id :: id in nodes ==> id in g
    ensures NodeKeys(g, nodes).1 == |NamelessBefore(g, nodes, |nodes|)|
    ensures forall k :: 0 <= k < |nodes| ==> HasLabel(g, nodes, k, NodeKeys(g, nodes).0[k])
  {
    hide WellFormed, Nameless, IsNamed, MatchingKey;
    if nodes != [] {
      var n := |nodes| - 1;
      KeysAreLabels(g, nodes[..n]);
      KeyIsName(g, nodes[n]);
      forall k: nat | k <= n ensures NamelessBefore(g, nodes[..n], k) == NamelessBefore(g, nodes, k) { }
      NamelessAfter(g, nodes, n);
    }
  }

  lemma NamelessAfter(g: Graph, nodes: seq<Id>, k: nat)
    requires k < |nodes|
    ensures |NamelessBefore(g, nodes, k + 1)| == |NamelessBefore(g, nodes, k)| + if Nameless(g, nodes[k]) then 1 else 0
  {
    hide Nameless;
    assert NamelessBefore(g, nodes, k + 1) == NamelessBefore(g, nodes, k) + if Nameless(g, nodes[k]) then {k} else {};
  }

  lemma LabelIsUnique(g: Graph, nodes: seq<Id>, k: nat, tag1: string, tag2: string)
    requires WellFormed(g) && k < |nodes| && nodes[k] in g
    requires HasLabel(g, nodes, k, tag1) && HasLabel(g, nodes, k, tag2)
    ensures tag1 == tag2
  {
    hide WellFormed, Nameless, IsNamed, MatchingKey;
    KeyIsName(g, nodes[k]);
  }

  // ---- only what has the same label is compared ----

  lemma {:induction false} PairedShareKey(
      pairs1: KeyIndexPairs, pairs2: KeyIndexPairs, pair: (Option<nat>, Option<nat>))
    requires pair in Paired(pairs1, pairs2) && pair.0.Some? && pair.1.Some?
    ensures exists key :: (key, pair.0.value) in pairs1 && (key, pair.1.value) in pairs2
    decreases |pairs1| + |pairs2|
  {
    var all := Paired(pairs1, pairs2);
    var rest1 := if all[0].0.Some? then pairs1[1..] else pairs1;
    var rest2 := if all[0].1.Some? then pairs2[1..] else pairs2;
    assert all == [all[0]] + all[1..] && all[1..] == Paired(rest1, rest2);
    if pair != all[0] {
      PairedShareKey(rest1, rest2, pair);
    } else {
      assert pairs1[0] == (pairs1[0].0, pair.0.value) && pairs2[0] == (pairs1[0].0, pair.1.value);
      assert pairs1[0] in pairs1 && pairs2[0] in pairs2;
    }
  }

  lemma MatchedShareKey(keys1: seq<string>, keys2: seq<string>, reorder: bool, pair: (Option<nat>, Option<nat>))
    requires pair in MatchedPairs(keys1, keys2, reorder) && pair.0.Some? && pair.1.Some?
    ensures pair.0.value < |keys1| && pair.1.value < |keys2| && keys1[pair.0.value] == keys2[pair.1.value]
  {
    hide Paired, SortedKeys, Reordered;
    var pairs := Paired(SortedKeys(keys1), SortedKeys(keys2));
    PairUpCoversAll(keys1, keys2);
    ReorderedHasSame(pairs);
    PairedShareKey(SortedKeys(keys1), SortedKeys(keys2), pair);
    SortedKeysSorted(keys1);
    SortedKeysSorted(keys2);
  }

  /** These two nodes have the same label in their lists. */
  ghost predicate SharesLabel(g: Graph, nodes1: seq<Id>, nodes2: seq<Id>, d: Comparison) {
    exists k: nat, l: nat, tag ::
      HasLabel(g, nodes1, k, tag) && HasLabel(g, nodes2, l, tag) && d == Pair(nodes1[k], nodes2[l])
  }

  lemma ListsShareLabels(g: Graph, nodes1: seq<Id>, nodes2: seq<Id>, reorder: bool, step: Step)
    requires WellFormed(g)
    requires (forall id :: id in nodes1 ==> id in g) && (forall id :: id in nodes2 ==> id in g)
    requires step in NodesSteps(g, nodes1, nodes2, reorder) && step.ChildStep?
    ensures SharesLabel(g, nodes1, nodes2, step.edge)
  {
    hide WellFormed, MatchedPairs, NodeKeys, HasLabel;
    var keys1, keys2 := NodeKeys(g, nodes1).0, NodeKeys(g, nodes2).0;
    var pairs := MatchedPairs(keys1, keys2, reorder);
    var k :| 0 <= k < |pairs| && step == PairStep(pairs[k], nodes1, nodes2);
    MatchedShareKey(keys1, keys2, reorder, pairs[k]);
    KeysAreLabels(g, nodes1);
    KeysAreLabels(g, nodes2);
  }

  /** A struct or union that is defined. */
  predicate IsDefinedStruct(g: Graph, id: Id) {
    id in g && g[id].StructUnion? && g[id].structDefinition.Some?
  }

  /** Two structs are compared by comparing base classes, methods and members that have the same label. */
  lemma ComparedShareLabels(p: Problem, x: Id, y: Id, d: Comparison)
    requires WellFormed(p.graph) && IsDefinedStruct(p.graph, x) && IsDefinedStruct(p.graph, y)
    requires HasChild(p, Pair(x, y), d)
    ensures var g := p.graph;
            var d1, d2 := g[x].structDefinition.value, g[y].structDefinition.value;
            || SharesLabel(g, d1.baseClasses, d2.baseClasses, d) || SharesLabel(g, d1.methods, d2.methods, d)
            || SharesLabel(g, d1.members, d2.members, d)
  {
    hide WellFormed, NodesSteps, SharesLabel, References;
    var g := p.graph;
    var d1, d2 := g[x].structDefinition.value, g[y].structDefinition.value;
    StructsAreCompared(p, x, y);
    var step :| step in CompareScript(p, Pair(x, y)).steps && step.ChildStep? && step.edge == d;
    if step in NodesSteps(g, d1.baseClasses, d2.baseClasses, true) {
      ListsShareLabels(g, d1.baseClasses, d2.baseClasses, true, step);
    } else if step in NodesSteps(g, d1.methods, d2.methods, false) {
      ListsShareLabels(g, d1.methods, d2.methods, false, step);
    } else {
      ListsShareLabels(g, d1.members, d2.members, true, step);
    }
  }

  lemma StructsAreCompared(p: Problem, x: Id, y: Id)
    requires WellFormed(p.graph) && IsDefinedStruct(p.graph, x) && IsDefinedStruct(p.graph, y)
    ensures var d1, d2 := p.graph[x].structDefinition.value, p.graph[y].structDefinition.value;
            && (forall id :: id in d1.baseClasses + d1.methods + d1.members ==> id in p.graph)
            && (forall id :: id in d2.baseClasses + d2.methods + d2.members ==> id in p.graph)
            && CompareScript(p, Pair(x, y)) ==
               if p.graph[x].structKind != p.graph[y].structKind || p.graph[x].name != p.graph[y].name then INCOMPARABLE
               else Script(p.graph[x].name != "", false, StructSteps(p.graph, d1, d2))
  {
    hide StructSteps;
    assert References(p.graph[x]) <= p.graph.Keys && References(p.graph[y]) <= p.graph.Keys;
  }

  // ---- structs that are the same have the same labels ----

  ghost predicate AllIn(g: Graph, nodes: seq<Id>) {
    forall id :: id in nodes ==> id in g
  }

  ghost function Tag(g: Graph, nodes: seq<Id>, k: nat): (tag: string)
    requires WellFormed(g) && AllIn(g, nodes) && k < |nodes|
    ensures HasLabel(g, nodes, k, tag)
  {
    KeysAreLabels(g, nodes);
    assert HasLabel(g, nodes, k, NodeKeys(g, nodes).0[k]);
    var tag :| HasLabel(g, nodes, k, tag);
    tag
  }

  ghost function Tags(g: Graph, nodes: seq<Id>): seq<string>
    requires WellFormed(g) && AllIn(g, nodes)
  {
    seq(|nodes|, k requires 0 <= k < |nodes| => Tag(g, nodes, k))
  }

  lemma TagsAreKeys(g: Graph, nodes: seq<Id>)
    requires WellFormed(g) && AllIn(g, nodes)
    ensures Tags(g, nodes) == NodeKeys(g, nodes).0
  {
    hide WellFormed, HasLabel;
    KeysAreLabels(g, nodes);
    forall k | 0 <= k < |nodes| ensures Tags(g, nodes)[k] == NodeKeys(g, nodes).0[k] {
      LabelIsUnique(g, nodes, k, Tags(g, nodes)[k], NodeKeys(g, nodes).0[k]);
    }
  }

  lemma SortedNamesAreKeys(keys: seq<string>)
    ensures multiset(SortedNames(keys)) == multiset(keys)
  {
    hide SortedKeys;
    SortedKeysSorted(keys);
    SortedKeysInRange(keys);
    IndicesArePermutation(keys);
    IndicesAt(SortedKeys(keys));
    var order := Indices(SortedKeys(keys));
    assert SortedNames(keys) == Gather(keys, order);
    GatherKeepsElements(keys, order);
  }

  /** Lists of nodes that have the same labels, in whatever order. */
  ghost predicate SameTags(g: Graph, nodes1: seq<Id>, nodes2: seq<Id>)
    requires WellFormed(g) && AllIn(g, nodes1) && AllIn(g, nodes2)
  {
    multiset(Tags(g, nodes1)) == multiset(Tags(g, nodes2))
  }

  lemma SameNamesSameTags(g: Graph, nodes1: seq<Id>, nodes2: seq<Id>)
    requires WellFormed(g) && AllIn(g, nodes1) && AllIn(g, nodes2) && SameNames(g, nodes1, nodes2)
    ensures SameTags(g, nodes1, nodes2)
  {
    hide WellFormed, SortedNames, Tags, NodeKeys;
    TagsAreKeys(g, nodes1);
    TagsAreKeys(g, nodes2);
    SortedNamesAreKeys(NodeKeys(g, nodes1).0);
    SortedNamesAreKeys(NodeKeys(g, nodes2).0);
  }

  /** Two structs that are the same have base classes, methods and members with the same labels. */
  lemma SameStructsSameTags(p: Problem, x: Id, y: Id)
    requires WellFormed(p.graph) && IsDefinedStruct(p.graph, x) && IsDefinedStruct(p.graph, y) && Same(p, Pair(x, y))
    ensures var d1, d2 := p.graph[x].structDefinition.value, p.graph[y].structDefinition.value;
            && AllIn(p.graph, d1.baseClasses) && AllIn(p.graph, d2.baseClasses)
            && AllIn(p.graph, d1.methods) && AllIn(p.graph, d2.methods)
            && AllIn(p.graph, d1.members) && AllIn(p.graph, d2.members)
            && SameTags(p.graph, d1.baseClasses, d2.baseClasses) && SameTags(p.graph, d1.methods, d2.methods)
            && SameTags(p.graph, d1.members, d2.members)
  {
    hide WellFormed, Same, SameNames, SameTags;
    var g := p.graph;
    var d1, d2 := g[x].structDefinition.value, g[y].structDefinition.value;
    PartsInGraph(g, x);
    PartsInGraph(g, y);
    SameStructsAlike(p, x, y);
    SameNamesSameTags(g, d1.baseClasses, d2.baseClasses);
    SameNamesSameTags(g, d1.methods, d2.methods);
    SameNamesSameTags(g, d1.members, d2.members);
  }

  lemma PartsInGraph(g: Graph, x: Id)
    requires WellFormed(g) && IsDefinedStruct(g, x)
    ensures var d := g[x].structDefinition.value;
            AllIn(g, d.baseClasses) && AllIn(g, d.methods) && AllIn(g, d.members)
  {
    assert References(g[x]) <= g.Keys;
  }

  lemma SameStructsAlike(p: Problem, x: Id, y: Id)
    requires WellFormed(p.graph) && IsDefinedStruct(p.graph, x) && IsDefinedStruct(p.graph, y) && Same(p, Pair(x, y))
    requires forall id :: id in {x, y} ==>
               var d := p.graph[id].structDefinition.value;
               AllIn(p.graph, d.baseClasses) && AllIn(p.graph, d.methods) && AllIn(p.graph, d.members)
    ensures var d1, d2 := p.graph[x].structDefinition.value, p.graph[y].structDefinition.value;
            && SameNames(p.graph, d1.baseClasses, d2.baseClasses) && SameNames(p.graph, d1.methods, d2.methods)
            && SameNames(p.graph, d1.members, d2.members)
  {
    hide Same, SameNames, References;
    SameUnfolds(p, x, y);
  }

  // ---- and named members with the same names ----

  /** The names that these nodes have by themselves. */
  ghost function OwnNames(g: Graph, nodes: seq<Id>): seq<string>
    requires AllIn(g, nodes)
  {
    if nodes == [] then []
    else
      var n := |nodes| - 1;
      OwnNames(g, nodes[..n]) + match OwnName(g[nodes[n]]) case Some(name) => [name] case None => []
  }

  /** The labels of the first n nodes, where they are not names of their own. */
  ghost function OtherTags(g: Graph, nodes: seq<Id>, n: nat): seq<string>
    requires WellFormed(g) && AllIn(g, nodes) && n <= |nodes|
  {
    if n == 0 then []
    else OtherTags(g, nodes, n - 1) + if OwnName(g[nodes[n - 1]]) == None then [Tag(g, nodes, n - 1)] else []
  }

  lemma {:induction false} TagsAreNamesAndOthers(g: Graph, nodes: seq<Id>, n: nat)
    requires WellFormed(g) && AllIn(g, nodes) && n <= |nodes|
    ensures multiset(Tags(g, nodes)[..n]) == multiset(OwnNames(g, nodes[..n])) + multiset(OtherTags(g, nodes, n))
  {
    hide WellFormed, HasLabel, OwnName, Tag, Tags, OwnNames, OtherTags;
    if n == 0 {
      NoTags(g, nodes);
    } else {
      TagsAreNamesAndOthers(g, nodes, n - 1);
      OneMoreTag(g, nodes, n);
      OwnNameIsTag(g, nodes, n - 1);
      OneMoreName(g, nodes, n);
    }
  }

  lemma NoTags(g: Graph, nodes: seq<Id>)
    requires WellFormed(g) && AllIn(g, nodes)
    ensures OwnNames(g, nodes[..0]) == [] && OtherTags(g, nodes, 0) == []
  {
  }

  lemma OneMoreTag(g: Graph, nodes: seq<Id>, n: nat)
    requires WellFormed(g) && AllIn(g, nodes) && 0 < n <= |nodes|
    ensures multiset(Tags(g, nodes)[..n]) == multiset(Tags(g, nodes)[..n - 1]) + multiset{Tag(g, nodes, n - 1)}
  {
    hide WellFormed, HasLabel, Tag;
    assert Tags(g, nodes)[..n] == Tags(g, nodes)[..n - 1] + [Tag(g, nodes, n - 1)];
  }

  lemma OneMoreName(g: Graph, nodes: seq<Id>, n: nat)
    requires WellFormed(g) && AllIn(g, nodes) && 0 < n <= |nodes|
    ensures multiset(OwnNames(g, nodes[..n])) ==
            multiset(OwnNames(g, nodes[..n - 1]))
            + match OwnName(g[nodes[n - 1]]) case Some(name) => multiset{name} case None => multiset{}
    ensures multiset(OtherTags(g, nodes, n)) ==
            multiset(OtherTags(g, nodes, n - 1))
            + match OwnName(g[nodes[n - 1]]) case Some(_) => multiset{} case None => multiset{Tag(g, nodes, n - 1)}
  {
    hide WellFormed, HasLabel, OwnName, Tag;
    assert nodes[..n][..n - 1] == nodes[..n - 1];
  }

  lemma OwnNameIsTag(g: Graph, nodes: seq<Id>, k: nat)
    requires WellFormed(g) && AllIn(g, nodes) && k < |nodes|
    ensures OwnName(g[nodes[k]]).Some? ==> Tag(g, nodes, k) == OwnName(g[nodes[k]]).value
  {
    hide WellFormed, OwnName, MatchingKey, Nameless, IsNamed;
    if OwnName(g[nodes[k]]).Some? {
      KeyIsName(g, nodes[k]);
      NamedStep(g, nodes[k], OwnName(g[nodes[k]]).value);
      LabelIsUnique(g, nodes, k, Tag(g, nodes, k), OwnName(g[nodes[k]]).value);
    }
  }

  /** Two structs that are the same have named members with the same names exactly if what is to be had from
      their other members is the same. */
  lemma SameStructsSameNames(p: Problem, x: Id, y: Id)
    requires WellFormed(p.graph) && IsDefinedStruct(p.graph, x) && IsDefinedStruct(p.graph, y) && Same(p, Pair(x, y))
    ensures var d1, d2 := p.graph[x].structDefinition.value, p.graph[y].structDefinition.value;
            && AllIn(p.graph, d1.members) && AllIn(p.graph, d2.members)
            && (multiset(OwnNames(p.graph, d1.members)) == multiset(OwnNames(p.graph, d2.members)) <==>
                multiset(OtherTags(p.graph, d1.members, |d1.members|)) ==
                multiset(OtherTags(p.graph, d2.members, |d2.members|)))
  {
    hide WellFormed, Same, Tags, OwnNames, OtherTags;
    var d1, d2 := p.graph[x].structDefinition.value, p.graph[y].structDefinition.value;
    SameStructsSameTags(p, x, y);
    AllTags(p.graph, d1.members);
    AllTags(p.graph, d2.members);
    SumsAgree(multiset(OwnNames(p.graph, d1.members)), multiset(OtherTags(p.graph, d1.members, |d1.members|)),
              multiset(OwnNames(p.graph, d2.members)), multiset(OtherTags(p.graph, d2.members, |d2.members|)));
  }

  lemma AllTags(g: Graph, nodes: seq<Id>)
    requires WellFormed(g) && AllIn(g, nodes)
    ensures multiset(Tags(g, nodes)) == multiset(OwnNames(g, nodes)) + multiset(OtherTags(g, nodes, |nodes|))
  {
    hide WellFormed, OwnNames, OtherTags;
    TagsAreNamesAndOthers(g, nodes, |nodes|);
    assert Tags(g, nodes)[..|nodes|] == Tags(g, nodes) && nodes[..|nodes|] == nodes;
  }

  lemma SumsAgree<T>(a: multiset<T>, b: multiset<T>, c: multiset<T>, d: multiset<T>)
    requires a + b == c + d
    ensures a == c <==> b == d
  {
    if a == c { assert b == a + b - a && d == c + d - c; }
    if b == d { assert a == a + b - b && c == c + d - d; }
  }

  /** In particular, if all members have names, those are the same. */
  lemma NamedStructsSameNames(p: Problem, x: Id, y: Id)
    requires WellFormed(p.graph) && IsDefinedStruct(p.graph, x) && IsDefinedStruct(p.graph, y) && Same(p, Pair(x, y))
    requires var members := p.graph[x].structDefinition.value.members + p.graph[y].structDefinition.value.members;
             forall id :: id in members && id in p.graph ==> OwnName(p.graph[id]).Some?
    ensures var d1, d2 := p.graph[x].structDefinition.value, p.graph[y].structDefinition.value;
            && AllIn(p.graph, d1.members) && AllIn(p.graph, d2.members)
            && multiset(OwnNames(p.graph, d1.members)) == multiset(OwnNames(p.graph, d2.members))
  {
    hide WellFormed, Same, OwnName, OwnNames, OtherTags;
    SameStructsSameNames(p, x, y);
    NoOtherTags(p.graph, p.graph[x].structDefinition.value.members, |p.graph[x].structDefinition.value.members|);
    NoOtherTags(p.graph, p.graph[y].structDefinition.value.members, |p.graph[y].structDefinition.value.members|);
  }

  lemma {:induction false} NoOtherTags(g: Graph, nodes: seq<Id>, n: nat)
    requires WellFormed(g) && AllIn(g, nodes) && n <= |nodes| && forall id :: id in nodes ==> OwnName(g[id]).Some?
    ensures OtherTags(g, nodes, n) == []
  {
    hide WellFormed, OwnName, HasLabel;
    if n > 0 { NoOtherTags(g, nodes, n - 1); }
  }

  // ---- a named member and an unnamed one ----

  /** An anonymous struct with a member a, and two structs that have a member of that type: one unnamed, the other
      named a. */
  function NamedAndUnnamed(): Graph {
    map[0 := Integer("int", SIGNED_INTEGER, 32, 4), 1 := Member("a", 0, 0, 0),
        2 := StructUnion(STRUCT, "", Some(StructDefinition(4, [], [], [1]))),
        3 := Member("", 2, 0, 0), 4 := Member("a", 2, 0, 0),
        5 := StructUnion(STRUCT, "S", Some(StructDefinition(4, [], [], [3]))),
        6 := StructUnion(STRUCT, "S", Some(StructDefinition(4, [], [], [4])))]
  }

  /** A graph in which nodes only refer to nodes with smaller ids. */
  lemma DownwardIsWellFormed(g: Graph)
    requires forall id :: id in g ==> !g[id].Symbols? && forall to :: to in References(g[id]) ==> to in g && to < id
    ensures WellFormed(g)
  {
    var measure: Id -> nat := (id: Id) => id;
    forall id | id in g ensures KeyReferences(g[id]) <= References(g[id]) { }
    hide References, KeyReferences;
    MeasuredIsAcyclic(KeyEdges(g), measure);
    assert forall id :: id in g && g[id].Qualified? ==> g[id].qualifiedTypeId in References(g[id]) by { ReferredTo(g); }
    assert forall id :: id in g && g[id].Typedef? ==> g[id].referredTypeId in References(g[id]) by { ReferredTo(g); }
    MeasuredIsAcyclic(QualifierEdges(g), measure);
    MeasuredIsAcyclic(TypedefEdges(g), measure);
  }

  lemma ReferredTo(g: Graph)
    ensures forall id :: id in g && g[id].Qualified? ==> g[id].qualifiedTypeId in References(g[id])
    ensures forall id :: id in g && g[id].Typedef? ==> g[id].referredTypeId in References(g[id])
  {
  }

  lemma NamedAndUnnamedIsWellFormed()
    ensures WellFormed(NamedAndUnnamed())
  {
    var g := NamedAndUnnamed();
    forall id | id in g ensures forall to :: to in References(g[id]) ==> to in g && to < id {
      assert id in {0, 1, 2, 3, 4, 5, 6};
    }
    DownwardIsWellFormed(g);
  }

  lemma NamedAndUnnamedKeys()
    requires WellFormed(NamedAndUnnamed())
    ensures forall id :: id in {1, 2, 3, 4} ==> MatchingKey(NamedAndUnnamed(), id) == "a"
  {
    var g := NamedAndUnnamed();
    hide WellFormed;
    KeyFromGivers(g, 1);
    KeyFromGivers(g, 2);
    assert FirstNonEmpty(g, [1]) == "a";
    KeyFromGivers(g, 3);
    assert FirstNonEmpty(g, [2]) == "a";
    KeyFromGivers(g, 4);
  }

  lemma OneKey(g: Graph, id: Id)
    requires WellFormed(g) && id in g && MatchingKey(g, id) != ""
    ensures NodeKeys(g, [id]).0 == [MatchingKey(g, id)]
  {
    assert [id][..0] == [];
  }

  lemma OneInKeyOrder(id: Id, key: string)
    ensures SortedKeys([key]) == [(key, 0)] && SortedNames([key]) == [key] && InKeyOrder([id], [key]) == [id]
  {
    SortedKeysInRange([key]);
    SortedKeysSorted([key]);
    assert SortedKeys([key])[0].1 == 0;
    assert (key, 0) in SortedKeys([key]);
  }

  /** The names of the other members matter: these two structs are the same, though only one has a member that
      is named. */
  lemma NamedAndUnnamedAreSame()
    ensures var p := Problem(NamedAndUnnamed(), CompareOptions(false, false));
            && WellFormed(p.graph) && Same(p, Pair(5, 6))
            && OwnNames(p.graph, [3]) == [] && OwnNames(p.graph, [4]) == ["a"]
  {
    hide NamedAndUnnamed, WellFormed, Same, MatchingKey;
    var p := Problem(NamedAndUnnamed(), CompareOptions(false, false));
    NamedAndUnnamedIsWellFormed();
    NamedAndUnnamedNodes();
    NamedAndUnnamedKeys();
    assert OwnNames(p.graph, [3]) == [] by { assert [3][..0] == []; }
    assert OwnNames(p.graph, [4]) == ["a"] by { assert [4][..0] == []; }
    StructsWithOneMemberSame(p, 5, 6, 3, 4);
  }

  lemma NamedAndUnnamedNodes()
    ensures var g := NamedAndUnnamed();
            && g.Keys == {0, 1, 2, 3, 4, 5, 6} && g[3] == Member("", 2, 0, 0) && g[4] == Member("a", 2, 0, 0)
            && g[5] == StructUnion(STRUCT, "S", Some(StructDefinition(4, [], [], [3])))
            && g[6] == StructUnion(STRUCT, "S", Some(StructDefinition(4, [], [], [4])))
  {
  }

  /** Structs with one member each that has the same key are the same if the members are. */
  lemma StructsWithOneMemberSame(p: Problem, x: Id, y: Id, i: Id, j: Id)
    requires WellFormed(p.graph) && {x, y, i, j} <= p.graph.Keys
    requires exists kind, name, size ::
               p.graph[x] == StructUnion(kind, name, Some(StructDefinition(size, [], [], [i]))) &&
               p.graph[y] == StructUnion(kind, name, Some(StructDefinition(size, [], [], [j])))
    requires MatchingKey(p.graph, i) == MatchingKey(p.graph, j) != ""
    requires p.graph[i].Member? && p.graph[j].Member?
    requires p.graph[i].typeId == p.graph[j].typeId && p.graph[i].typeId in p.graph
    requires p.graph[i].offset == p.graph[j].offset && p.graph[i].bitsize == p.graph[j].bitsize
    ensures Same(p, Pair(x, y))
  {
    hide WellFormed, MatchingKey, Same;
    var g := p.graph;
    OneKey(g, i);
    OneKey(g, j);
    OneInKeyOrder(i, MatchingKey(g, i));
    OneInKeyOrder(j, MatchingKey(g, j));
    SameReflexive(p, g[i].typeId);
    MembersSame(p, i, j);
    SameUnfolds(p, x, y);
  }

  lemma MembersSame(p: Problem, i: Id, j: Id)
    requires WellFormed(p.graph) && i in p.graph && j in p.graph
    requires p.graph[i].Member? && p.graph[j].Member?
    requires p.graph[i].typeId == p.graph[j].typeId && p.graph[i].typeId in p.graph
    requires p.graph[i].offset == p.graph[j].offset && p.graph[i].bitsize == p.graph[j].bitsize
    ensures Same(p, Pair(i, j))
  {
    hide WellFormed, Same;
    SameReflexive(p, p.graph[i].typeId);
    SameUnfolds(p, i, j);
  }
}

/** Sameness of nodes is an equivalence relation exactly if integer types are not ambiguous about their
    padding, and what a declaration stands for, where that is ignored, is the same. */
module Equivalence {
  import opened Wrappers
  import opened Graph
  import opened Diffs
  import opened Scripts
  import opened Verdicts
  import opened Forms
  import opened Sameness

  predicate IgnoresNothing(options: CompareOptions) {
    !options.ignoreSymbolTypePresenceChanges && !options.ignoreTypeDeclarationStatusChanges
  }

  predicate SameWidth(a: Node, b: Node) {
    a.Integer? && b.Integer? && a.encoding == b.encoding && a.bitsize == b.bitsize
  }

  /** No integer type that fills its bytes stands between two that have different numbers of bytes. */
  ghost predicate Unambiguous(g: Graph) {
    forall x, y, z :: x in g && y in g && z in g && SameWidth(g[x], g[y]) && SameWidth(g[y], g[z]) ==>
      !FillsBytes(g[x]) && FillsBytes(g[y]) && !FillsBytes(g[z]) ==> g[x].bytesize == g[z].bytesize
  }

  /** The size in bytes is the size in bits rounded up. */
  ghost predicate BytesRoundedUp(g: Graph) {
    forall x :: x in g && g[x].Integer? ==> g[x].bytesize == (g[x].bitsize + 7) / 8
  }

  /** The one node is a declaration, or a symbol without a type, and the other could be what it leaves open;
      and that difference is ignored. */
  predicate StandsFor(options: CompareOptions, open_: Node, definite: Node) {
    match (open_, definite)
    case (StructUnion(kind1, name1, None), StructUnion(kind2, name2, Some(_))) =>
      options.ignoreTypeDeclarationStatusChanges && kind1 == kind2 && name1 == name2
    case (Enumeration(name1, None), Enumeration(name2, Some(_))) =>
      options.ignoreTypeDeclarationStatusChanges && name1 == name2
    case (ElfSymbol(_, _, _, _, _, _, _, None, _), ElfSymbol(_, _, _, _, _, _, _, Some(_), _)) =>
      options.ignoreSymbolTypePresenceChanges && AlikeSymbols(open_, definite, true)
    case _ => false
  }

  ghost predicate StandsForBoth(p: Problem, y: Id, x: Id, z: Id)
    requires x in p.graph && y in p.graph && z in p.graph
  {
    StandsFor(p.options, p.graph[y], p.graph[x]) && StandsFor(p.options, p.graph[y], p.graph[z])
  }

  /** All that a node stands for is the same. */
  ghost predicate Settled(p: Problem)
    requires WellFormed(p.graph)
  {
    forall x, y, z :: x in p.graph && y in p.graph && z in p.graph && StandsForBoth(p, y, x, z) ==> Same(p, Pair(x, z))
  }

  /** No node stands for two others. */
  ghost predicate StandsForOne(p: Problem) {
    forall x, y, z :: x in p.graph && y in p.graph && z in p.graph && StandsForBoth(p, y, x, z) ==> x == z
  }

  lemma OneIsSettled(p: Problem)
    requires WellFormed(p.graph) && StandsForOne(p)
    ensures Settled(p)
  {
    hide WellFormed, Same, StandsFor;
    forall x, y, z | x in p.graph && y in p.graph && z in p.graph && StandsForBoth(p, y, x, z)
      ensures Same(p, Pair(x, z))
    {
      SameReflexive(p, x);
    }
  }

  lemma NothingIsIgnored(p: Problem)
    requires WellFormed(p.graph) && IgnoresNothing(p.options)
    ensures StandsForOne(p)
  {
    hide WellFormed, AlikeSymbols;
  }

  lemma RoundedUpIsUnambiguous(g: Graph)
    requires BytesRoundedUp(g)
    ensures Unambiguous(g)
  {
  }

  // ---- nodes ----

  lemma IntegersTransitive(g: Graph, x: Id, y: Id, z: Id)
    requires x in g && y in g && z in g && Unambiguous(g)
    requires g[x].Integer? && g[y].Integer? && g[z].Integer?
    requires AlikeIntegers(g[x], g[y]) && AlikeIntegers(g[y], g[z])
    ensures AlikeIntegers(g[x], g[z])
  {
    hide Bits;
  }

  lemma AlikeTransitive(p: Problem, a: Node, b: Node, c: Node)
    requires WellFormed(p.graph)
    requires References(a) <= p.graph.Keys && References(b) <= p.graph.Keys && References(c) <= p.graph.Keys
    requires !(StandsFor(p.options, b, a) && StandsFor(p.options, b, c))
    requires a.Integer? && b.Integer? && c.Integer? && AlikeIntegers(a, b) && AlikeIntegers(b, c) ==>
               AlikeIntegers(a, c)
    requires Alike(p, a, b) && Alike(p, b, c)
    ensures Alike(p, a, c)
  {
  }

  lemma AlikeSameCount(p: Problem, a: Node, b: Node)
    requires WellFormed(p.graph) && References(a) <= p.graph.Keys && References(b) <= p.graph.Keys
    requires Alike(p, a, b) && !StandsFor(p.options, a, b) && !StandsFor(p.options, b, a)
    ensures |Children(p.graph, a)| == |Children(p.graph, b)|
  {
    hide WellFormed, SortedEnumerators, AlikeIntegers, AlikeDefinitions, PartsInOrder;
    if a.StructUnion? && a.structDefinition.Some? {
      DefinitionsSameCount(p.graph, a.structDefinition.value, b.structDefinition.value);
    }
    if a.Symbols? {
      assert |SymbolKeys(a.symbols)| == |SymbolKeys(b.symbols)|;
    }
  }

  /** What stands for one node and is like another stands for that as well, unless that is as open. */
  lemma OpenOnBothSides(p: Problem, a: Node, b: Node, c: Node)
    requires WellFormed(p.graph)
    requires References(a) <= p.graph.Keys && References(b) <= p.graph.Keys && References(c) <= p.graph.Keys
    requires StandsFor(p.options, b, a)
    ensures Children(p.graph, b) == []
    ensures Alike(p, b, c) && !StandsFor(p.options, b, c) ==> Children(p.graph, c) == []
    ensures Alike(p, c, b) && !StandsFor(p.options, b, c) ==> Children(p.graph, c) == []
  {
    hide WellFormed, PartsInOrder;
  }

  lemma DefinitionsSameCount(g: Graph, d1: StructDefinition, d2: StructDefinition)
    requires WellFormed(g)
    requires forall id :: id in d1.baseClasses + d1.methods + d1.members ==> id in g
    requires forall id :: id in d2.baseClasses + d2.methods + d2.members ==> id in g
    requires AlikeDefinitions(g, d1, d2)
    ensures |PartsInOrder(g, d1)| == |PartsInOrder(g, d2)|
  {
    hide WellFormed, SameNames, NodesInKeyOrder;
    SameNamesSameCount(g, d1.baseClasses, d2.baseClasses);
    SameNamesSameCount(g, d1.methods, d2.methods);
    SameNamesSameCount(g, d1.members, d2.members);
  }

  // ---- chains of qualifiers and typedefs ----

  lemma BareIsBare(g: Graph, x: Id)
    requires WellFormed(g) && x in g
    ensures Bare(g, Bare(g, x)) == Bare(g, x) && Qualifiers(g, Bare(g, x)) == {}
  {
    hide WellFormed;
  }

  /** Nodes that are the same are the same under their qualifiers. */
  lemma BareSame(p: Problem, x: Id, y: Id)
    requires WellFormed(p.graph) && x in p.graph && y in p.graph && Same(p, Pair(x, y))
    ensures Same(p, Pair(Bare(p.graph, x), Bare(p.graph, y)))
  {
    hide WellFormed, Same, Alike, Facing, Children, Bare, Qualifiers;
    var g := p.graph;
    SameUnfolds(p, x, y);
    if Qualifiers(g, x) == {} {
      BareIsBare(g, x);
      BareIsBare(g, y);
      SameUnfolds(p, Bare(g, x), Bare(g, y));
    }
  }

  /** Nodes that are the same, and not qualified, stand for the same types. */
  lemma TargetSame(p: Problem, x: Id, y: Id)
    requires WellFormed(p.graph) && x in p.graph && y in p.graph && Same(p, Pair(x, y))
    requires Qualifiers(p.graph, x) == {} && Qualifiers(p.graph, y) == {}
    ensures Same(p, Pair(Target(p.graph, x), Target(p.graph, y)))
  {
    hide WellFormed, Same, Alike, Facing, Children, Bare, Qualifiers;
    SameUnfolds(p, x, y);
    if !IsTypedef(p.graph, x) && !IsTypedef(p.graph, y) {
      BareSame(p, x, y);
    }
  }

  lemma TargetIsNoTypedef(g: Graph, x: Id)
    requires WellFormed(g) && x in g && Qualifiers(g, Target(g, x)) == {}
    ensures !IsTypedef(g, Target(g, x))
  {
  }

  // ---- transitive ----

  /** y is the same as both others, and all three are compared as plain nodes. */
  ghost predicate PlainBetween(p: Problem, x: Id, y: Id, z: Id)
    requires WellFormed(p.graph) && x in p.graph && y in p.graph && z in p.graph
  {
    var g := p.graph;
    && Qualifiers(g, x) == {} && Qualifiers(g, y) == {} && Qualifiers(g, z) == {}
    && !IsTypedef(g, x) && !IsTypedef(g, y) && !IsTypedef(g, z)
    && Same(p, Pair(x, y)) && Same(p, Pair(y, z))
  }

  /** Between plain nodes, even a typedef amounts to a plain node. */
  lemma PlainMiddle(p: Problem, x: Id, y: Id, z: Id) returns (m: Id)
    requires WellFormed(p.graph) && x in p.graph && y in p.graph && z in p.graph
    requires Same(p, Pair(x, y)) && Same(p, Pair(y, z))
    requires Qualifiers(p.graph, x) == {} && !IsTypedef(p.graph, x) && !IsTypedef(p.graph, z)
    ensures m in p.graph && PlainBetween(p, Bare(p.graph, x), m, Bare(p.graph, z))
  {
    hide WellFormed, Same, Alike, FacingPair, Bare, Qualifiers;
    var g := p.graph;
    SameUnfolds(p, x, y);
    SameUnfolds(p, y, z);
    BareIsBare(g, x);
    BareIsBare(g, z);
    if IsTypedef(g, y) {
      m := Target(g, y);
      TargetSame(p, x, y);
      TargetSame(p, y, z);
      SameUnfolds(p, Bare(g, x), m);
      TargetIsNoTypedef(g, y);
    } else {
      m := Bare(g, y);
      BareIsBare(g, y);
      BareSame(p, x, y);
      BareSame(p, y, z);
    }
  }

  /** There is a node that is the same as both. */
  ghost predicate Linked(p: Problem, d: Comparison)
    requires WellFormed(p.graph)
  {
    InDomain(p, d) && exists m :: m in p.graph && Same(p, Pair(d.first.value, m)) && Same(p, Pair(m, d.second.value))
  }

  /** y stands for the other two, which are therefore the same. */
  lemma OpenLinked(p: Problem, x: Id, y: Id, z: Id)
    requires WellFormed(p.graph) && x in p.graph && y in p.graph && z in p.graph && PlainBetween(p, x, y, z)
    requires Settled(p) && StandsForBoth(p, Bare(p.graph, y), Bare(p.graph, x), Bare(p.graph, z))
    ensures var a, c := p.graph[Bare(p.graph, x)], p.graph[Bare(p.graph, z)];
            Alike(p, a, c) && forall d :: Facing(Children(p.graph, a), Children(p.graph, c), d) ==> Linked(p, d)
  {
    hide WellFormed, Same, Alike, Children, Bare, Qualifiers, Facing, StandsForBoth;
    var g := p.graph;
    var i, k := Bare(g, x), Bare(g, z);
    BareIsBare(g, x);
    BareIsBare(g, z);
    BareNodes(p, x);
    BareNodes(p, z);
    SameUnfolds(p, i, k);
    forall d | Facing(Children(g, g[i]), Children(g, g[k]), d) ensures Linked(p, d) {
      FacingInDomain(p, i, k, d);
      SameReflexive(p, d.first.value);
      LinkedBy(p, d.first.value, d.first.value, d.second.value);
    }
  }

  lemma PlainLinked(p: Problem, x: Id, y: Id, z: Id)
    requires WellFormed(p.graph) && x in p.graph && y in p.graph && z in p.graph && PlainBetween(p, x, y, z)
    requires Settled(p) && Unambiguous(p.graph)
    ensures var a, c := p.graph[Bare(p.graph, x)], p.graph[Bare(p.graph, z)];
            Alike(p, a, c) && forall d :: Facing(Children(p.graph, a), Children(p.graph, c), d) ==> Linked(p, d)
  {
    hide WellFormed, Same, Alike, AlikeIntegers, Unambiguous, Settled, StandsFor, Children, Bare, Qualifiers, InDomain;
    var g := p.graph;
    var a, b, c := g[Bare(g, x)], g[Bare(g, y)], g[Bare(g, z)];
    SameUnfolds(p, x, y);
    SameUnfolds(p, y, z);
    if StandsForBoth(p, Bare(g, y), Bare(g, x), Bare(g, z)) {
      OpenLinked(p, x, y, z);
    } else {
      BareNodes(p, x);
      BareNodes(p, y);
      BareNodes(p, z);
      if a.Integer? && b.Integer? && c.Integer? && AlikeIntegers(a, b) && AlikeIntegers(b, c) {
        IntegersTransitive(g, Bare(g, x), Bare(g, y), Bare(g, z));
      }
      AlikeTransitive(p, a, b, c);
      forall d | Facing(Children(g, a), Children(g, c), d) ensures Linked(p, d) {
        var k :| 0 <= k < |Children(g, a)| && d == Pair(Children(g, a)[k], Children(g, c)[k]);
        SameCountBetween(p, a, b, c);
        ChildLinked(p, x, y, z, Children(g, a)[k], Children(g, b)[k], Children(g, c)[k]);
      }
    }
  }

  lemma SameCountBetween(p: Problem, a: Node, b: Node, c: Node)
    requires WellFormed(p.graph)
    requires References(a) <= p.graph.Keys && References(b) <= p.graph.Keys && References(c) <= p.graph.Keys
    requires Alike(p, a, b) && Alike(p, b, c) && !(StandsFor(p.options, b, a) && StandsFor(p.options, b, c))
    requires Children(p.graph, a) != [] && Children(p.graph, c) != []
    ensures |Children(p.graph, a)| == |Children(p.graph, b)| == |Children(p.graph, c)|
  {
    hide WellFormed, Alike, Children, StandsFor;
    if StandsFor(p.options, b, a) { OpenOnBothSides(p, a, b, c); }
    if StandsFor(p.options, b, c) { OpenOnBothSides(p, c, b, a); }
    if StandsFor(p.options, a, b) { OpenOnBothSides(p, b, a, c); }
    if StandsFor(p.options, c, b) { OpenOnBothSides(p, b, c, a); }
    AlikeSameCount(p, a, b);
    AlikeSameCount(p, b, c);
  }

  lemma ChildLinked(p: Problem, x: Id, y: Id, z: Id, i: Id, j: Id, k: Id)
    requires WellFormed(p.graph) && x in p.graph && y in p.graph && z in p.graph
    requires AlikePair(p, x, y) && AlikePair(p, y, z)
    requires FacingPair(p, x, y, Pair(i, j)) && Same(p, Pair(i, j))
    requires FacingPair(p, y, z, Pair(j, k)) && Same(p, Pair(j, k))
    ensures Linked(p, Pair(i, k))
  {
    hide WellFormed, Same, AlikePair, FacingPair;
    FacingInDomain(p, x, y, Pair(i, j));
    FacingInDomain(p, y, z, Pair(j, k));
  }

  /** Sameness composes: what two linked nodes are reduced to is linked again. */
  lemma LinkedStep(p: Problem, x: Id, y: Id, z: Id)
    requires WellFormed(p.graph) && x in p.graph && y in p.graph && z in p.graph
    requires Settled(p) && Unambiguous(p.graph)
    requires Same(p, Pair(x, y)) && Same(p, Pair(y, z))
    ensures AlikePair(p, x, z) && forall d :: FacingPair(p, x, z, d) ==> Linked(p, d)
  {
    hide WellFormed, Same, Alike, Children, Bare, Qualifiers, InDomain, Facing;
    var g := p.graph;
    SameUnfolds(p, x, y);
    SameUnfolds(p, y, z);
    if Qualifiers(g, x) != {} {
      BareSame(p, x, y);
      BareSame(p, y, z);
      LinkedBy(p, Bare(g, x), Bare(g, y), Bare(g, z));
    } else if IsTypedef(g, x) || IsTypedef(g, z) {
      TargetSame(p, x, y);
      TargetSame(p, y, z);
      LinkedBy(p, Target(g, x), Target(g, y), Target(g, z));
    } else {
      var m := PlainMiddle(p, x, y, z);
      PlainLinked(p, Bare(g, x), m, Bare(g, z));
      BareIsBare(g, x);
      BareIsBare(g, z);
    }
  }

  lemma LinkedBy(p: Problem, x: Id, y: Id, z: Id)
    requires WellFormed(p.graph) && x in p.graph && y in p.graph && z in p.graph
    requires Same(p, Pair(x, y)) && Same(p, Pair(y, z))
    ensures Linked(p, Pair(x, z))
  {
    hide Same;
  }

  /** Equality as comparison decides it is transitive. */
  lemma SameTransitive(p: Problem, x: Id, y: Id, z: Id)
    requires WellFormed(p.graph) && x in p.graph && y in p.graph && z in p.graph
    requires Settled(p) && Unambiguous(p.graph)
    requires Same(p, Pair(x, y)) && Same(p, Pair(y, z))
    ensures Same(p, Pair(x, z))
  {
    hide WellFormed, Same, AlikePair, FacingPair;
    var b := set d | d in Domain(p) && Linked(p, d);
    forall d | d in b
      ensures AlikePair(p, d.first.value, d.second.value)
      ensures forall e :: FacingPair(p, d.first.value, d.second.value, e) ==> e in b
    {
      var m :| m in p.graph && Same(p, Pair(d.first.value, m)) && Same(p, Pair(m, d.second.value));
      LinkedStep(p, d.first.value, m, d.second.value);
    }
    LinkedBy(p, x, y, z);
    ClosedAlikeIsSame(p, b, Pair(x, z));
  }

  // ---- when it is transitive ----

  /** Nodes that refer to nothing are the same if they are alike. */
  lemma LeavesSame(p: Problem, x: Id, y: Id)
    requires WellFormed(p.graph) && x in p.graph && y in p.graph
    requires p.graph[x].Integer? || p.graph[x].Enumeration?
    requires p.graph[y].Integer? || p.graph[y].Enumeration?
    ensures Same(p, Pair(x, y)) <==> Alike(p, p.graph[x], p.graph[y])
  {
    hide WellFormed, Same, Alike;
    SameUnfolds(p, x, y);
  }

  ghost predicate SameIsTransitive(p: Problem)
    requires WellFormed(p.graph)
  {
    forall x, y, z :: x in p.graph && y in p.graph && z in p.graph && Same(p, Pair(x, y)) && Same(p, Pair(y, z)) ==>
      Same(p, Pair(x, z))
  }

  lemma AmbiguousTriple(p: Problem, x: Id, y: Id, z: Id)
    requires WellFormed(p.graph) && x in p.graph && y in p.graph && z in p.graph
    requires SameWidth(p.graph[x], p.graph[y]) && SameWidth(p.graph[y], p.graph[z])
    requires !FillsBytes(p.graph[x]) && FillsBytes(p.graph[y]) && !FillsBytes(p.graph[z])
    requires p.graph[x].bytesize != p.graph[z].bytesize
    ensures Same(p, Pair(x, y)) && Same(p, Pair(y, z)) && !Same(p, Pair(x, z))
  {
    hide WellFormed, Same, Bits;
    LeavesSame(p, x, y);
    LeavesSame(p, y, z);
    LeavesSame(p, x, z);
  }

  lemma TransitiveIsUnambiguous(p: Problem)
    requires WellFormed(p.graph) && SameIsTransitive(p)
    ensures Unambiguous(p.graph)
  {
    hide WellFormed, Same, Alike, FillsBytes;
    if !Unambiguous(p.graph) {
      var x, y, z :|
        && x in p.graph && y in p.graph && z in p.graph
        && SameWidth(p.graph[x], p.graph[y]) && SameWidth(p.graph[y], p.graph[z])
        && !FillsBytes(p.graph[x]) && FillsBytes(p.graph[y]) && !FillsBytes(p.graph[z])
        && p.graph[x].bytesize != p.graph[z].bytesize;
      AmbiguousTriple(p, x, y, z);
    }
  }

  /** A node is the same as whatever it stands for, either way. */
  lemma StandsForIsSame(p: Problem, y: Id, x: Id)
    requires WellFormed(p.graph) && x in p.graph && y in p.graph && StandsFor(p.options, p.graph[y], p.graph[x])
    ensures Same(p, Pair(x, y)) && Same(p, Pair(y, x))
  {
    hide WellFormed, Same, PartsInOrder;
    SameUnfolds(p, y, x);
    SameSymmetric(p, y, x);
  }

  lemma TransitiveIsSettled(p: Problem)
    requires WellFormed(p.graph) && SameIsTransitive(p)
    ensures Settled(p)
  {
    hide WellFormed, Same, StandsFor;
    forall x, y, z | x in p.graph && y in p.graph && z in p.graph && StandsForBoth(p, y, x, z)
      ensures Same(p, Pair(x, z))
    {
      StandsForIsSame(p, y, x);
      StandsForIsSame(p, y, z);
    }
  }

  /** Whatever is ignored, sameness is transitive exactly if integer types are unambiguous and all that a
      node stands for is the same. */
  lemma TransitiveIffUnambiguous(p: Problem)
    requires WellFormed(p.graph)
    ensures Unambiguous(p.graph) && Settled(p) <==> SameIsTransitive(p)
  {
    hide WellFormed, Same, Unambiguous, Settled;
    if Unambiguous(p.graph) && Settled(p) {
      forall x, y, z | x in p.graph && y in p.graph && z in p.graph && Same(p, Pair(x, y)) && Same(p, Pair(y, z))
        ensures Same(p, Pair(x, z))
      {
        SameTransitive(p, x, y, z);
      }
    }
    if SameIsTransitive(p) {
      TransitiveIsUnambiguous(p);
      TransitiveIsSettled(p);
    }
  }

  /** If no node stands for two others, or nothing is ignored, integer types alone decide. */
  lemma UnambiguousSuffices(p: Problem)
    requires WellFormed(p.graph)
    ensures StandsForOne(p) || IgnoresNothing(p.options) ==> (Unambiguous(p.graph) <==> SameIsTransitive(p))
  {
    hide WellFormed, SameIsTransitive, Unambiguous, Settled, StandsForOne;
    if StandsForOne(p) || IgnoresNothing(p.options) {
      if IgnoresNothing(p.options) {
        NothingIsIgnored(p);
      }
      OneIsSettled(p);
      TransitiveIffUnambiguous(p);
    }
  }

  // ---- what the conditions are for ----

  predicate MakesNoChain(node: Node) {
    node.Integer? || node.Enumeration? || node.ElfSymbol?
  }

  lemma ChainlessIsWellFormed(g: Graph)
    requires forall id :: id in g ==> References(g[id]) <= g.Keys && MakesNoChain(g[id])
    ensures WellFormed(g)
  {
    assert QualifierEdges(g) == {} && TypedefEdges(g) == {} && KeyEdges(g) == {};
  }

  /** Three 8-bit integer types of 2, 1 and 3 bytes. */
  function Padded(): Graph {
    map[0 := Integer("a", UNSIGNED_INTEGER, 8, 2), 1 := Integer("b", UNSIGNED_INTEGER, 8, 1),
        2 := Integer("c", UNSIGNED_INTEGER, 8, 3)]
  }

  /** The first two are equal, and so are the last two, but not the first and the last. */
  lemma PaddingIsAmbiguous()
    ensures var p := Problem(Padded(), CompareOptions(false, false));
            && WellFormed(p.graph)
            && Same(p, Pair(0, 1)) && Same(p, Pair(1, 2)) && !Same(p, Pair(0, 2))
  {
    var p := Problem(Padded(), CompareOptions(false, false));
    ChainlessIsWellFormed(p.graph);
    hide WellFormed, Same, Alike, AlikeIntegers, References;
    AmbiguousTriple(p, 0, 1, 2);
  }

  /** An enumeration defined in two ways, and declared. */
  function DefinedTwice(): Graph {
    map[0 := Enumeration("e", Some(EnumDefinition(1, []))), 1 := Enumeration("e", None),
        2 := Enumeration("e", Some(EnumDefinition(2, [])))]
  }

  lemma DefinedTwiceNodes()
    ensures var g := DefinedTwice();
            && g.Keys == {0, 1, 2} && WellFormed(g)
            && g[0] == Enumeration("e", Some(EnumDefinition(1, []))) && g[1] == Enumeration("e", None)
            && g[2] == Enumeration("e", Some(EnumDefinition(2, [])))
  {
    ChainlessIsWellFormed(DefinedTwice());
  }

  /** If changes between declaration and definition are ignored, a declaration stands between any two
      definitions of the same name. */
  lemma IgnoredDeclarationsAreAmbiguous()
    ensures var p := Problem(DefinedTwice(), CompareOptions(false, true));
            && WellFormed(p.graph)
            && Same(p, Pair(0, 1)) && Same(p, Pair(1, 2)) && !Same(p, Pair(0, 2))
  {
    hide WellFormed, Same, Alike, References, DefinedTwice;
    var p := Problem(DefinedTwice(), CompareOptions(false, true));
    DefinedTwiceNodes();
    StandsForIsSame(p, 1, 0);
    StandsForIsSame(p, 1, 2);
    SizesMatter(p, 0, 2);
  }

  lemma SizesMatter(p: Problem, x: Id, y: Id)
    requires WellFormed(p.graph) && x in p.graph && y in p.graph && p.graph[x].Enumeration? && p.graph[y].Enumeration?
    requires p.graph[x].enumDefinition.Some? && p.graph[y].enumDefinition.Some?
    requires p.graph[x].enumDefinition.value.bytesize != p.graph[y].enumDefinition.value.bytesize
    ensures !Same(p, Pair(x, y))
  {
    hide WellFormed, Same, SortedEnumerators;
    LeavesSame(p, x, y);
  }

  function PlainSymbol(symbolTypeId: Option<Id>): Node {
    ElfSymbol("s", None, true, OBJECT, GLOBAL, DEFAULT, None, symbolTypeId, None)
  }

  /** Two symbols of different types, one without a type, and the types. */
  function TypedAndUntyped(): Graph {
    map[0 := PlainSymbol(Some(3)), 1 := PlainSymbol(None), 2 := PlainSymbol(Some(4)),
        3 := Integer("a", UNSIGNED_INTEGER, 8, 1), 4 := Integer("b", UNSIGNED_INTEGER, 16, 2)]
  }

  lemma TypedAndUntypedNodes()
    ensures var g := TypedAndUntyped();
            && g.Keys == {0, 1, 2, 3, 4} && WellFormed(g)
            && g[0] == PlainSymbol(Some(3)) && g[1] == PlainSymbol(None) && g[2] == PlainSymbol(Some(4))
            && g[3].Integer? && g[4].Integer? && g[3].bitsize != g[4].bitsize
  {
    ChainlessIsWellFormed(TypedAndUntyped());
  }

  /** If it is ignored whether symbols have types, a symbol without one stands between two of different types. */
  lemma IgnoredSymbolTypesAreAmbiguous()
    ensures var p := Problem(TypedAndUntyped(), CompareOptions(true, false));
            && WellFormed(p.graph)
            && Same(p, Pair(0, 1)) && Same(p, Pair(1, 2)) && !Same(p, Pair(0, 2))
  {
    hide WellFormed, Same, Alike, References, TypedAndUntyped;
    var p := Problem(TypedAndUntyped(), CompareOptions(true, false));
    TypedAndUntypedNodes();
    StandsForIsSame(p, 1, 0);
    StandsForIsSame(p, 1, 2);
    TypesMatter(p, 0, 2);
  }

  lemma TypesMatter(p: Problem, x: Id, y: Id)
    requires WellFormed(p.graph) && x in p.graph && y in p.graph && p.graph[x].ElfSymbol? && p.graph[y].ElfSymbol?
    requires p.graph[x].symbolTypeId.Some? && p.graph[y].symbolTypeId.Some?
    requires var i, j := p.graph[x].symbolTypeId.value, p.graph[y].symbolTypeId.value;
             && i in p.graph && j in p.graph && p.graph[i].Integer? && p.graph[j].Integer?
             && !AlikeIntegers(p.graph[i], p.graph[j])
    ensures !Same(p, Pair(x, y))
  {
    hide WellFormed, Same, AlikeIntegers;
    var i, j := p.graph[x].symbolTypeId.value, p.graph[y].symbolTypeId.value;
    LeavesSame(p, i, j);
    SameUnfolds(p, x, y);
    assert Children(p.graph, p.graph[x])[0] == i && Children(p.graph, p.graph[y])[0] == j;
    assert FacingPair(p, x, y, Pair(i, j));
  }
}

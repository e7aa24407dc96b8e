/** Sameness of nodes as an equivalence relation. */
module Sameness {
  import opened Graph
  import opened Diffs
  import opened Scripts
  import opened ScriptCases
  import opened Verdicts
  import opened Forms

  // ---- what the script of any pair comes to ----

  /** The comparison of two nodes finds no local difference exactly if they are alike, and then goes on to
      compare their children place by place. */
  ghost predicate ScriptComesTo(p: Problem, script: Script, a: Node, b: Node)
    requires WellFormed(p.graph) && References(a) <= p.graph.Keys && References(b) <= p.graph.Keys
  {
    && (!script.incomparable && OnlyChildren(script.steps) <==> Alike(p, a, b))
    && (Alike(p, a, b) ==>
          forall d :: Compares(script.steps, d) <==> Facing(Children(p.graph, a), Children(p.graph, b), d))
  }

  predicate HasOneChild(node: Node) {
    node.PointerReference? || node.Array? || node.BaseClass?
  }

  lemma OneChildNodes(p: Problem, a: Node, b: Node)
    requires WellFormed(p.graph) && References(a) <= p.graph.Keys && References(b) <= p.graph.Keys
    requires KindOf(a) == KindOf(b) && HasOneChild(a)
    ensures ScriptComesTo(p, NodeScript(p, a, b), a, b)
  {
    hide WellFormed, StructSteps, EnumSteps, FunctionSteps, SymbolsSteps, IntegerSteps, SymbolAttributeSteps,
         PartsInOrder, AlikeDefinitions, AlikeSymbols, SortedEnumerators, AlikeIntegers;
    match a
    case PointerReference(kind, id) =>
      AttributesAndChild([], if kind == PTR then "pointed-to" else "referred-to", id, b.pointeeTypeId);
    case Array(n, id) =>
      AttributesAndChild(NumberSteps("number of elements", n, b.numberOfElements), "element", id, b.elementTypeId);
    case BaseClass(id, offset, inheritance) =>
      AttributesAndChild(
        AttributeSteps(Attribute("inheritance"), InheritanceValue(inheritance), InheritanceValue(b.inheritance))
        + NumberSteps("offset", offset, b.offset), "", id, b.typeId);
  }

  lemma MemberNodes(p: Problem, a: Node, b: Node)
    requires WellFormed(p.graph) && References(a) <= p.graph.Keys && References(b) <= p.graph.Keys
    requires KindOf(a) == KindOf(b) && (a.Member? || a.Method?)
    ensures ScriptComesTo(p, NodeScript(p, a, b), a, b)
  {
    hide WellFormed, StructSteps, EnumSteps, FunctionSteps, SymbolsSteps, IntegerSteps, SymbolAttributeSteps,
         PartsInOrder, AlikeDefinitions, AlikeSymbols, SortedEnumerators, AlikeIntegers;
    match a
    case Member(_, id, offset, bitsize) =>
      AttributesAndChild(NumberSteps("offset", offset, b.offset) + NumberSteps("size", bitsize, b.bitsize), "", id,
                         b.typeId);
    case Method(_, _, kind, vtable, id) =>
      AttributesAndChild(
        AttributeSteps(Attribute("kind"), MethodKindValue(kind), MethodKindValue(b.methodKind))
        + OptionalAttributeSteps(Attribute("vtable offset"), MapNumber(vtable), MapNumber(b.vtableOffset)), "", id,
        b.typeId);
  }

  lemma StructNodes(p: Problem, a: Node, b: Node)
    requires WellFormed(p.graph) && References(a) <= p.graph.Keys && References(b) <= p.graph.Keys
    requires a.StructUnion? && b.StructUnion?
    ensures ScriptComesTo(p, NodeScript(p, a, b), a, b)
  {
    hide WellFormed, StructSteps, AlikeDefinitions, PartsInOrder;
    if a.structDefinition.Some? && b.structDefinition.Some? {
      DefinitionsComeTo(p.graph, a.structDefinition.value, b.structDefinition.value);
    } else {
      AttributesComeTo(DefinedSteps(a.structDefinition.Some?, b.structDefinition.Some?,
                                    p.options.ignoreTypeDeclarationStatusChanges));
    }
  }

  lemma EnumerationNodes(p: Problem, a: Node, b: Node)
    requires WellFormed(p.graph) && References(a) <= p.graph.Keys && References(b) <= p.graph.Keys
    requires a.Enumeration? && b.Enumeration?
    ensures ScriptComesTo(p, NodeScript(p, a, b), a, b)
  {
    hide WellFormed, EnumSteps, SortedEnumerators;
    if a.enumDefinition.Some? && b.enumDefinition.Some? {
      EnumeratorsComeTo(a.enumDefinition.value, b.enumDefinition.value);
    } else {
      AttributesComeTo(DefinedSteps(a.enumDefinition.Some?, b.enumDefinition.Some?,
                                    p.options.ignoreTypeDeclarationStatusChanges));
    }
  }

  lemma OtherNodes(p: Problem, a: Node, b: Node)
    requires WellFormed(p.graph) && References(a) <= p.graph.Keys && References(b) <= p.graph.Keys
    requires KindOf(a) == KindOf(b)
    requires a.Void? || a.Variadic? || a.Integer? || a.Function? || a.ElfSymbol? || a.Symbols?
    requires a.Symbols? ==> SortedSymbols(a.symbols) && SortedSymbols(b.symbols)
    ensures ScriptComesTo(p, NodeScript(p, a, b), a, b)
  {
    hide WellFormed, IntegerSteps, AlikeIntegers, FunctionSteps, SymbolAttributeSteps, SymbolTypeSteps, AlikeSymbols,
         SymbolsSteps, SymbolKeys, SortedSymbols;
    match a
    case Integer(_, _, _, _) => IntegersComeTo(a, b);
    case Function(_, _) => FunctionsComeTo(a, b);
    case ElfSymbol(_, _, _, _, _, _, _, _, _) => ElfSymbolsComeTo(a, b, p.options.ignoreSymbolTypePresenceChanges);
    case Symbols(_) => SymbolsComeTo(a.symbols, b.symbols);
    case _ => AttributesComeTo([]);
  }

  lemma NodesComeTo(p: Problem, a: Node, b: Node)
    requires WellFormed(p.graph) && References(a) <= p.graph.Keys && References(b) <= p.graph.Keys
    requires !a.Qualified? && !b.Qualified? && !a.Typedef? && !b.Typedef?
    requires (a.Symbols? ==> SortedSymbols(a.symbols)) && (b.Symbols? ==> SortedSymbols(b.symbols))
    ensures ScriptComesTo(p, NodeScript(p, a, b), a, b)
  {
    hide NodeScript, ScriptComesTo, SortedSymbols;
    if KindOf(a) != KindOf(b) {
      DifferentKindsScript(p, a, b);
      DifferentKindsDiffer(p, a, b);
    } else if HasOneChild(a) {
      OneChildNodes(p, a, b);
    } else if a.Member? || a.Method? {
      MemberNodes(p, a, b);
    } else if a.StructUnion? {
      StructNodes(p, a, b);
    } else if a.Enumeration? {
      EnumerationNodes(p, a, b);
    } else {
      OtherNodes(p, a, b);
    }
  }

  lemma DifferentKindsDiffer(p: Problem, a: Node, b: Node)
    requires WellFormed(p.graph) && References(a) <= p.graph.Keys && References(b) <= p.graph.Keys
    requires KindOf(a) != KindOf(b)
    ensures ScriptComesTo(p, INCOMPARABLE, a, b)
  {
  }

  /** What a node is once its qualifiers are stripped, and the qualifiers that count. */
  ghost function Bare(g: Graph, id: Id): (bare: Id)
    requires WellFormed(g) && id in g
    ensures bare in g
  {
    Unqualified(g, id, {}).0
  }

  ghost function Qualifiers(g: Graph, id: Id): set<Qualifier>
    requires WellFormed(g) && id in g
  {
    Unqualified(g, id, {}).1
  }

  /** What a bare node is once its typedefs are followed. */
  ghost function Target(g: Graph, id: Id): (target: Id)
    requires WellFormed(g) && id in g
    ensures target in g
  {
    Resolved(g, Bare(g, id), []).0
  }

  ghost predicate IsTypedef(g: Graph, id: Id)
    requires WellFormed(g) && id in g
  {
    g[Bare(g, id)].Typedef?
  }

  /** Neither qualifiers nor, for nodes that are not typedefs, the nodes themselves differ. */
  ghost predicate AlikePair(p: Problem, x: Id, y: Id)
    requires WellFormed(p.graph) && x in p.graph && y in p.graph
  {
    && Qualifiers(p.graph, x) == Qualifiers(p.graph, y)
    && (Qualifiers(p.graph, x) == {} && !IsTypedef(p.graph, x) && !IsTypedef(p.graph, y) ==>
          Alike(p, p.graph[Bare(p.graph, x)], p.graph[Bare(p.graph, y)]))
  }

  /** What a pair without difference is reduced to: the nodes under the qualifiers, the types that the
      typedefs stand for, or the children. */
  ghost predicate FacingPair(p: Problem, x: Id, y: Id, d: Comparison)
    requires WellFormed(p.graph) && x in p.graph && y in p.graph
  {
    var g := p.graph;
    if Qualifiers(g, x) != {} || Qualifiers(g, y) != {} then d == Pair(Bare(g, x), Bare(g, y))
    else if IsTypedef(g, x) || IsTypedef(g, y) then d == Pair(Target(g, x), Target(g, y))
    else Facing(Children(g, g[Bare(g, x)]), Children(g, g[Bare(g, y)]), d)
  }

  lemma NoQualifierSteps(q1: set<Qualifier>, q2: set<Qualifier>)
    ensures QualifierSteps(q1, q2) == [] <==> q1 == q2
  {
    if QualifierSteps(q1, q2) == [] {
      var steps := QualifierSteps(q1, q2);
      assert |steps| == |QualifierStep(CONST, q1, q2)| + |QualifierStep(VOLATILE, q1, q2)|
               + |QualifierStep(RESTRICT, q1, q2)|;
      forall q ensures q in q1 <==> q in q2 {
        match q case CONST => case VOLATILE => case RESTRICT =>
      }
    }
  }

  lemma QualifiedComesTo(q1: set<Qualifier>, q2: set<Qualifier>, id1: Id, id2: Id)
    ensures ComesTo(QualifierSteps(q1, q2) + [ChildEdge("underlying", id1, id2)], q1 == q2, [id1], [id2])
  {
    hide QualifierSteps;
    NoQualifierSteps(q1, q2);
    AttributesAndChild(QualifierSteps(q1, q2), "underlying", id1, id2);
  }

  /** This is all there is to the script of a pair. */
  lemma PairComesTo(p: Problem, x: Id, y: Id)
    requires WellFormed(p.graph) && x in p.graph && y in p.graph
    ensures LocallySame(p, Pair(x, y)) <==> AlikePair(p, x, y)
    ensures AlikePair(p, x, y) ==> forall d :: HasChild(p, Pair(x, y), d) <==> FacingPair(p, x, y, d)
  {
    hide NodeScript, Alike, Children, QualifierSteps, WellFormed;
    ScriptIsSteps(p, x, y);
    var g := p.graph;
    if Qualifiers(g, x) != {} || Qualifiers(g, y) != {} {
      QualifiedComesTo(Qualifiers(g, x), Qualifiers(g, y), Bare(g, x), Bare(g, y));
      OneFacing(Bare(g, x), Bare(g, y));
    } else if IsTypedef(g, x) || IsTypedef(g, y) {
      OneChildComesTo("resolved", Target(g, x), Target(g, y));
      OneFacing(Target(g, x), Target(g, y));
    } else {
      BareNodes(p, x);
      BareNodes(p, y);
      NodesComeTo(p, g[Bare(g, x)], g[Bare(g, y)]);
    }
  }

  lemma OneFacing(id1: Id, id2: Id)
    ensures forall d :: Facing([id1], [id2], d) <==> d == Pair(id1, id2)
  {
    assert [id1][0] == id1 && [id2][0] == id2;
  }

  lemma BareNodes(p: Problem, x: Id)
    requires WellFormed(p.graph) && x in p.graph && !IsTypedef(p.graph, x)
    ensures var a := p.graph[Bare(p.graph, x)];
            && References(a) <= p.graph.Keys && !a.Qualified? && !a.Typedef?
            && (a.Symbols? ==> SortedSymbols(a.symbols))
  {
  }

  lemma ScriptIsSteps(p: Problem, x: Id, y: Id)
    requires WellFormed(p.graph) && x in p.graph && y in p.graph
    ensures var script := CompareScript(p, Pair(x, y));
            && (LocallySame(p, Pair(x, y)) <==> !script.incomparable && OnlyChildren(script.steps))
            && forall d :: HasChild(p, Pair(x, y), d) <==> Compares(script.steps, d)
  {
    hide CompareScript, WellFormed;
  }

  // ---- sameness, one step at a time ----

  lemma SameUnfolds(p: Problem, x: Id, y: Id)
    requires WellFormed(p.graph) && x in p.graph && y in p.graph
    ensures Same(p, Pair(x, y)) <==> AlikePair(p, x, y) && forall d :: FacingPair(p, x, y, d) ==> Same(p, d)
  {
    hide AlikePair, FacingPair, LocallySame, HasChild, Same;
    PairComesTo(p, x, y);
    if Same(p, Pair(x, y)) {
      SameStep(p, Pair(x, y));
    } else if LocallySame(p, Pair(x, y)) {
      var d := DifferenceHasCause(p, Pair(x, y));
    }
  }

  lemma SameStep(p: Problem, c: Comparison)
    requires WellFormed(p.graph) && Same(p, c) && InDomain(p, c)
    ensures LocallySame(p, c) && forall d :: HasChild(p, c, d) ==> Same(p, d)
  {
    hide LocallySame, HasChild, Same;
    SameIsGreatestBisimulation(p);
    assert c in SameSet(p);
    forall d | HasChild(p, c, d) ensures Same(p, d) {
      assert (c, d) in ComparisonEdges(p);
    }
  }

  /** A set of alike pairs that holds with each pair all that it is reduced to. */
  ghost predicate IsClosedAlike(p: Problem, b: set<Comparison>)
    requires WellFormed(p.graph)
  {
    forall c :: c in b ==>
      && InDomain(p, c) && AlikePair(p, c.first.value, c.second.value)
      && forall d :: FacingPair(p, c.first.value, c.second.value, d) ==> d in b
  }

  lemma ClosedAlikeIsSame(p: Problem, b: set<Comparison>, c: Comparison)
    requires WellFormed(p.graph) && IsClosedAlike(p, b) && c in b
    ensures Same(p, c)
  {
    hide AlikePair, FacingPair, LocallySame, HasChild, Same;
    forall c | c in b ensures LocallySame(p, c) && forall d :: HasChild(p, c, d) ==> d in b {
      PairComesTo(p, c.first.value, c.second.value);
      assert c == Pair(c.first.value, c.second.value);
    }
    assert IsBisimulation(p, b);
    BisimulationIsSame(p, b, c);
  }

  lemma FacingInDomain(p: Problem, x: Id, y: Id, d: Comparison)
    requires WellFormed(p.graph) && x in p.graph && y in p.graph && AlikePair(p, x, y) && FacingPair(p, x, y, d)
    ensures InDomain(p, d)
  {
    hide AlikePair, FacingPair, HasChild, CompareScript;
    PairComesTo(p, x, y);
    assert (Pair(x, y), d) in ComparisonEdges(p);
  }

  // ---- reflexive ----

  /** Every node is the same as itself. */
  lemma SameReflexive(p: Problem, x: Id)
    requires WellFormed(p.graph) && x in p.graph
    ensures Same(p, Pair(x, x))
  {
    hide Same, Alike, Children, WellFormed;
    var b := set n | n in p.graph :: Pair(n, n);
    forall n | n in p.graph
      ensures AlikePair(p, n, n) && forall d :: FacingPair(p, n, n, d) ==> d in b
    {
      SelfAlike(p, n);
      forall d | FacingPair(p, n, n, d) ensures d in b {
        FacingInDomain(p, n, n, d);
        SelfFacing(p, n, d);
        assert d == Pair(d.first.value, d.first.value);
      }
    }
    ClosedAlikeIsSame(p, b, Pair(x, x));
  }

  lemma SelfAlike(p: Problem, x: Id)
    requires WellFormed(p.graph) && x in p.graph
    ensures AlikePair(p, x, x)
  {
    hide SortedNames, SortedEnumerators, Bits;
  }

  lemma SelfFacing(p: Problem, x: Id, d: Comparison)
    requires WellFormed(p.graph) && x in p.graph && FacingPair(p, x, x, d)
    ensures d.first.Some? && d == Pair(d.first.value, d.first.value)
  {
    hide WellFormed, Children;
  }

  // ---- symmetric ----

  ghost function Mirror(c: Comparison): Comparison {
    Comparison(c.second, c.first)
  }

  lemma PairMirrors(p: Problem, x: Id, y: Id)
    requires WellFormed(p.graph) && x in p.graph && y in p.graph && AlikePair(p, x, y)
    ensures AlikePair(p, y, x)
    ensures forall d :: FacingPair(p, y, x, d) ==> FacingPair(p, x, y, Mirror(d)) && d == Mirror(Mirror(d))
  {
  }

  /** The direction of the comparison does not matter for the verdict. */
  lemma SameSymmetric(p: Problem, x: Id, y: Id)
    requires WellFormed(p.graph) && x in p.graph && y in p.graph && Same(p, Pair(x, y))
    ensures Same(p, Pair(y, x))
  {
    hide Same, AlikePair, FacingPair, WellFormed;
    var b := set c | c in SameSet(p) :: Mirror(c);
    forall c | c in SameSet(p)
      ensures AlikePair(p, c.second.value, c.first.value)
      ensures forall d :: FacingPair(p, c.second.value, c.first.value, d) ==> d in b
    {
      assert c == Pair(c.first.value, c.second.value);
      SameUnfolds(p, c.first.value, c.second.value);
      PairMirrors(p, c.first.value, c.second.value);
      forall d | FacingPair(p, c.second.value, c.first.value, d) ensures d in b {
        FacingInDomain(p, c.first.value, c.second.value, Mirror(d));
        assert Mirror(d) in SameSet(p) && d == Mirror(Mirror(d));
      }
    }
    assert Pair(x, y) in SameSet(p) && Mirror(Pair(x, y)) == Pair(y, x);
    ClosedAlikeIsSame(p, b, Pair(y, x));
  }
}

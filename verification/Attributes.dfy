/** What scripts say of the two nodes themselves: it is true, the first node comes first, and nothing is left out. */
module Attributes {
  import opened Wrappers
  import opened Reachability
  import opened Sequences
  import opened Graph
  import opened Order
  import opened Matching
  import opened Diffs
  import opened Scripts
  import opened ScriptCases
  import opened Forms
  import opened Keys
  import opened Ends
  import opened Sameness

  /** The attributes of a node that are compared. */
  function AttributeOf(node: Node, name: string): Option<Value> {
    match node
    case Integer(_, encoding, bitsize, bytesize) =>
      if name == "encoding" then Some(EncodingValue(encoding))
      else if name == "bit size" then Some(Number(bitsize))
      else if name == "byte size" then Some(Number(bytesize))
      else None
    case Array(numberOfElements, _) => if name == "number of elements" then Some(Number(numberOfElements)) else None
    case BaseClass(_, offset, inheritance) =>
      if name == "inheritance" then Some(InheritanceValue(inheritance))
      else if name == "offset" then Some(Number(offset))
      else None
    case Member(_, _, offset, bitsize) =>
      if name == "offset" then Some(Number(offset)) else if name == "size" then Some(Number(bitsize)) else None
    case Method(_, _, kind, vtableOffset, _) =>
      if name == "kind" then Some(MethodKindValue(kind))
      else if name == "vtable offset" && vtableOffset.Some? then Some(Number(vtableOffset.value))
      else None
    case StructUnion(_, _, Some(definition)) => if name == "byte size" then Some(Number(definition.bytesize)) else None
    case Enumeration(_, Some(definition)) => if name == "byte size" then Some(Number(definition.bytesize)) else None
    case ElfSymbol(symbolName, version, isDefined, symbolType, binding, visibility, crc, _, _) =>
      if name == "name" then Some(Text(symbolName))
      else if name == "version" && version.Some? then Some(Text(version.value.name))
      else if name == "default version" && version.Some? then Some(Flag(version.value.isDefault))
      else if name == "has version" then Some(Flag(version.Some?))
      else if name == "defined" then Some(Flag(isDefined))
      else if name == "symbol type" then Some(SymbolTypeValue(symbolType))
      else if name == "binding" then Some(BindingValue(binding))
      else if name == "visibility" then Some(VisibilityValue(visibility))
      else if name == "CRC" && crc.Some? then Some(Number(crc.value))
      else None
    case _ => None
  }

  function EnumeratorsOf(node: Node): seq<(string, int)> {
    match node
    case Enumeration(_, Some(definition)) => definition.enumerators
    case _ => []
  }

  predicate IsDefined(node: Node) {
    (node.StructUnion? && node.structDefinition.Some?) || (node.Enumeration? && node.enumDefinition.Some?)
  }

  /** The text is true of the first node and the second. */
  ghost predicate IsTrue(a: Node, b: Node, text: DetailText) {
    match text
    case Changed(Attribute(name), v, w) => AttributeOf(a, name) == Some(v) && AttributeOf(b, name) == Some(w) && v != w
    case AttributeRemoved(Attribute(name), v) => AttributeOf(a, name) == Some(v) && AttributeOf(b, name) == None
    case AttributeAdded(Attribute(name), w) => AttributeOf(a, name) == None && AttributeOf(b, name) == Some(w)
    case Changed(Enumerator(name), Number(v), Number(w)) =>
      (name, v) in EnumeratorsOf(a) && (name, w) in EnumeratorsOf(b) && v != w
    case EnumeratorRemoved(name, v) => (name, v) in EnumeratorsOf(a)
    case EnumeratorAdded(name, w) => (name, w) in EnumeratorsOf(b)
    case Declared(defined1, defined2) => defined1 == IsDefined(a) && defined2 == IsDefined(b) && defined1 != defined2
    case _ => false
  }

  ghost predicate AllTrue(a: Node, b: Node, steps: seq<Step>) {
    forall step :: step in steps && step.NodeStep? ==> IsTrue(a, b, step.text)
  }

  lemma EnumeratorStepIsTrue(a: Node, b: Node, pair: (Option<nat>, Option<nat>))
    requires PairInRange(pair, |EnumeratorsOf(a)|, |EnumeratorsOf(b)|)
    requires pair.0.Some? && pair.1.Some? ==> EnumeratorsOf(a)[pair.0.value].0 == EnumeratorsOf(b)[pair.1.value].0
    ensures AllTrue(a, b, EnumeratorStep(pair, EnumeratorsOf(a), EnumeratorsOf(b)))
  {
    var enums1, enums2 := EnumeratorsOf(a), EnumeratorsOf(b);
    if pair.0.Some? { assert enums1[pair.0.value] == (enums1[pair.0.value].0, enums1[pair.0.value].1); }
    if pair.1.Some? { assert enums2[pair.1.value] == (enums2[pair.1.value].0, enums2[pair.1.value].1); }
  }

  lemma {:induction false} EnumeratorStepsAreTrue(a: Node, b: Node, pairs: Matches)
    requires PairsInRange(pairs, |EnumeratorsOf(a)|, |EnumeratorsOf(b)|)
    requires forall k :: 0 <= k < |pairs| && pairs[k].0.Some? && pairs[k].1.Some? ==>
               EnumeratorsOf(a)[pairs[k].0.value].0 == EnumeratorsOf(b)[pairs[k].1.value].0
    ensures AllTrue(a, b, EnumeratorSteps(pairs, EnumeratorsOf(a), EnumeratorsOf(b)))
  {
    hide IsTrue, EnumeratorStep, EnumeratorsOf;
    if pairs != [] {
      var n := |pairs| - 1;
      EnumeratorStepsAreTrue(a, b, pairs[..n]);
      EnumeratorStepIsTrue(a, b, pairs[n]);
    }
  }

  lemma OneAttribute(a: Node, b: Node, name: string, v: Value, w: Value)
    requires AttributeOf(a, name) == Some(v) && AttributeOf(b, name) == Some(w)
    ensures AllTrue(a, b, AttributeSteps(Attribute(name), v, w))
    ensures v != w ==> NodeStep(Changed(Attribute(name), v, w)) in AttributeSteps(Attribute(name), v, w)
  {
    hide AttributeOf;
  }

  lemma OneOptionalAttribute(a: Node, b: Node, name: string)
    ensures AllTrue(a, b, OptionalAttributeSteps(Attribute(name), AttributeOf(a, name), AttributeOf(b, name)))
  {
    hide AttributeOf;
  }

  /** Everything that a script says of two nodes is true of them. */
  lemma TextsAreTrue(p: Problem, a: Node, b: Node)
    requires WellFormed(p.graph) && References(a) <= p.graph.Keys && References(b) <= p.graph.Keys
    requires !a.Qualified? && !b.Qualified? && !a.Typedef? && !b.Typedef?
    ensures AllTrue(a, b, NodeScript(p, a, b).steps)
  {
    hide WellFormed, NodeScript, References, AttributeOf, IsTrue;
    if KindOf(a) != KindOf(b) {
      DifferentKindsScript(p, a, b);
    } else if a.StructUnion? || a.Enumeration? {
      DefinedTextsAreTrue(p, a, b);
    } else if a.ElfSymbol? {
      SymbolTextsAreTrue(p, a, b);
    } else if a.Function? || a.Symbols? {
      NoTexts(p, a, b);
    } else {
      PlainTextsAreTrue(p, a, b);
    }
  }

  lemma PlainTextsAreTrue(p: Problem, a: Node, b: Node)
    requires WellFormed(p.graph) && References(a) <= p.graph.Keys && References(b) <= p.graph.Keys
    requires KindOf(a) == KindOf(b) && !a.Qualified? && !a.Typedef?
    requires !(a.StructUnion? || a.Enumeration? || a.ElfSymbol? || a.Function? || a.Symbols?)
    ensures AllTrue(a, b, NodeScript(p, a, b).steps)
  {
    hide WellFormed, References, AttributeSteps, OptionalAttributeSteps, IsTrue;
    match a
    case Integer(_, encoding, bitsize, bytesize) =>
      OneAttribute(a, b, "encoding", EncodingValue(encoding), EncodingValue(b.encoding));
      OneAttribute(a, b, "bit size", Number(bitsize), Number(b.bitsize));
      OneAttribute(a, b, "byte size", Number(bytesize), Number(b.bytesize));
    case Array(n, _) => OneAttribute(a, b, "number of elements", Number(n), Number(b.numberOfElements));
    case BaseClass(_, _, _) => PartTextsAreTrue(p, a, b);
    case Member(_, _, _, _) => PartTextsAreTrue(p, a, b);
    case Method(_, _, _, _, _) => PartTextsAreTrue(p, a, b);
    case _ =>
  }

  /** The parts of structs and unions. */
  lemma PartTextsAreTrue(p: Problem, a: Node, b: Node)
    requires WellFormed(p.graph) && References(a) <= p.graph.Keys && References(b) <= p.graph.Keys
    requires KindOf(a) == KindOf(b) && (a.BaseClass? || a.Member? || a.Method?)
    ensures AllTrue(a, b, NodeScript(p, a, b).steps)
  {
    hide WellFormed, References, AttributeSteps, OptionalAttributeSteps, IsTrue;
    match a
    case BaseClass(_, offset, inheritance) =>
      OneAttribute(a, b, "inheritance", InheritanceValue(inheritance), InheritanceValue(b.inheritance));
      OneAttribute(a, b, "offset", Number(offset), Number(b.offset));
    case Member(_, _, offset, bitsize) =>
      OneAttribute(a, b, "offset", Number(offset), Number(b.offset));
      OneAttribute(a, b, "size", Number(bitsize), Number(b.bitsize));
    case Method(_, _, kind, _, _) =>
      OneAttribute(a, b, "kind", MethodKindValue(kind), MethodKindValue(b.methodKind));
      OneOptionalAttribute(a, b, "vtable offset");
  }

  lemma NoTexts(p: Problem, a: Node, b: Node)
    requires WellFormed(p.graph) && References(a) <= p.graph.Keys && References(b) <= p.graph.Keys
    requires KindOf(a) == KindOf(b) && (a.Function? || a.Symbols?)
    ensures forall step :: step in NodeScript(p, a, b).steps ==> !step.NodeStep?
  {
    hide WellFormed, References, SymbolsSteps, FunctionSteps;
    if a.Function? {
      NoTextsInFunctions(a, b);
    } else {
      NoTextsInTables(a.symbols, b.symbols);
    }
  }

  lemma NoTextsInFunctions(a: Node, b: Node)
    requires a.Function? && b.Function?
    ensures forall step :: step in FunctionSteps(a, b) ==> !step.NodeStep?
  {
    var n1, n2 := |a.parameters|, |b.parameters|;
    var min := if n1 < n2 then n1 else n2;
    ExtraIsGone(if n1 < n2 then b.parameters else a.parameters, n1 < n2, min);
    hide ExtraParameterSteps;
  }

  lemma NoTextsInTables(s: SymbolMap, t: SymbolMap)
    ensures forall step :: step in SymbolsSteps(s, t) ==> !step.NodeStep?
  {
    hide OnlyIn, InBoth, Quote;
  }

  lemma SymbolTextsAreTrue(p: Problem, a: Node, b: Node)
    requires WellFormed(p.graph) && References(a) <= p.graph.Keys && References(b) <= p.graph.Keys
    requires a.ElfSymbol? && b.ElfSymbol?
    ensures AllTrue(a, b, NodeScript(p, a, b).steps)
  {
    hide WellFormed, References, AttributeSteps, OptionalAttributeSteps, IsTrue, VersionSteps, AttributeOf;
    SymbolAttributes(a, b);
    OneAttribute(a, b, "name", Text(a.symbolName), Text(b.symbolName));
    VersionTextsAreTrue(a, b);
    OneAttribute(a, b, "defined", Flag(a.isDefined), Flag(b.isDefined));
    OneAttribute(a, b, "symbol type", SymbolTypeValue(a.symbolType), SymbolTypeValue(b.symbolType));
    OneAttribute(a, b, "binding", BindingValue(a.binding), BindingValue(b.binding));
    OneAttribute(a, b, "visibility", VisibilityValue(a.visibility), VisibilityValue(b.visibility));
    OneOptionalAttribute(a, b, "CRC");
  }

  lemma SymbolAttributes(a: Node, b: Node)
    requires a.ElfSymbol? && b.ElfSymbol?
    ensures forall node :: node in {a, b} ==>
              && AttributeOf(node, "name") == Some(Text(node.symbolName))
              && AttributeOf(node, "defined") == Some(Flag(node.isDefined))
              && AttributeOf(node, "symbol type") == Some(SymbolTypeValue(node.symbolType))
              && AttributeOf(node, "binding") == Some(BindingValue(node.binding))
              && AttributeOf(node, "visibility") == Some(VisibilityValue(node.visibility))
              && AttributeOf(node, "CRC") == MapNumber(node.crc)
  {
  }

  lemma VersionTextsAreTrue(a: Node, b: Node)
    requires a.ElfSymbol? && b.ElfSymbol?
    ensures AllTrue(a, b, VersionSteps(a.versionInfo, b.versionInfo))
  {
    hide AttributeSteps, IsTrue;
    var v, w := a.versionInfo, b.versionInfo;
    OneAttribute(a, b, "has version", Flag(v.Some?), Flag(w.Some?));
    if v.Some? && w.Some? {
      OneAttribute(a, b, "version", Text(v.value.name), Text(w.value.name));
      OneAttribute(a, b, "default version", Flag(v.value.isDefault), Flag(w.value.isDefault));
    }
  }

  lemma DefinedTextsAreTrue(p: Problem, a: Node, b: Node)
    requires WellFormed(p.graph) && References(a) <= p.graph.Keys && References(b) <= p.graph.Keys
    requires KindOf(a) == KindOf(b) && (a.StructUnion? || a.Enumeration?)
    ensures AllTrue(a, b, NodeScript(p, a, b).steps)
  {
    hide WellFormed, NodesSteps, AttributeSteps, EnumeratorSteps, MatchedPairs, IsTrue;
    if IsDefined(a) && IsDefined(b) {
      if a.StructUnion? {
        var d1, d2 := a.structDefinition.value, b.structDefinition.value;
        OneAttribute(a, b, "byte size", Number(d1.bytesize), Number(d2.bytesize));
        NoTextsInLists(p.graph, d1.baseClasses, d2.baseClasses, true);
        NoTextsInLists(p.graph, d1.methods, d2.methods, false);
        NoTextsInLists(p.graph, d1.members, d2.members, true);
      } else {
        var d1, d2 := a.enumDefinition.value, b.enumDefinition.value;
        OneAttribute(a, b, "byte size", Number(d1.bytesize), Number(d2.bytesize));
        MatchedEnumeratorsAreTrue(a, b);
      }
    } else {
      DeclaredIsTrue(a, b, p.options.ignoreTypeDeclarationStatusChanges);
    }
  }

  lemma DeclaredIsTrue(a: Node, b: Node, ignore: bool)
    ensures AllTrue(a, b, DefinedSteps(IsDefined(a), IsDefined(b), ignore))
  {
  }

  lemma NoTextsInLists(g: Graph, nodes1: seq<Id>, nodes2: seq<Id>, reorder: bool)
    requires WellFormed(g)
    requires (forall id :: id in nodes1 ==> id in g) && (forall id :: id in nodes2 ==> id in g)
    ensures forall step :: step in NodesSteps(g, nodes1, nodes2, reorder) ==> !step.NodeStep?
  {
    hide WellFormed, MatchedPairs, NodeKeys;
  }

  lemma MatchedEnumeratorsAreTrue(a: Node, b: Node)
    requires a.Enumeration? && b.Enumeration? && IsDefined(a) && IsDefined(b)
    ensures var pairs := MatchedPairs(EnumeratorNames(EnumeratorsOf(a)), EnumeratorNames(EnumeratorsOf(b)), true);
            AllTrue(a, b, EnumeratorSteps(pairs, EnumeratorsOf(a), EnumeratorsOf(b)))
  {
    hide MatchedPairs, IsTrue;
    var names1, names2 := EnumeratorNames(EnumeratorsOf(a)), EnumeratorNames(EnumeratorsOf(b));
    var pairs := MatchedPairs(names1, names2, true);
    forall k | 0 <= k < |pairs| && pairs[k].0.Some? && pairs[k].1.Some?
      ensures EnumeratorsOf(a)[pairs[k].0.value].0 == EnumeratorsOf(b)[pairs[k].1.value].0
    {
      MatchedShareKey(names1, names2, true, pairs[k]);
    }
    EnumeratorStepsAreTrue(a, b, pairs);
  }

  // ---- nothing is left out ----

  /** Whether it matters if this attribute changes: the byte size of an integer that fills its bytes follows from its
      size in bits. */
  predicate Matters(a: Node, b: Node, name: string) {
    a.Integer? && b.Integer? && name == "byte size" ==> !FillsBytes(a) && !FillsBytes(b)
  }

  /** The change of an attribute is mentioned. */
  ghost predicate IsSaid(a: Node, b: Node, name: string, steps: seq<Step>) {
    var v, w := AttributeOf(a, name), AttributeOf(b, name);
    && (v.Some? && w.Some? && v != w ==> NodeStep(Changed(Attribute(name), v.value, w.value)) in steps)
    && (name == "vtable offset" || name == "CRC" ==>
          && (v.Some? && w.None? ==> NodeStep(AttributeRemoved(Attribute(name), v.value)) in steps)
          && (v.None? && w.Some? ==> NodeStep(AttributeAdded(Attribute(name), w.value)) in steps))
  }

  lemma OptionalIsSaid(a: Node, b: Node, name: string)
    ensures IsSaid(a, b, name, OptionalAttributeSteps(Attribute(name), AttributeOf(a, name), AttributeOf(b, name)))
  {
    hide AttributeOf;
  }

  lemma AttributeIsSaid(a: Node, b: Node, name: string, v: Value, w: Value)
    requires AttributeOf(a, name) == Some(v) && AttributeOf(b, name) == Some(w)
    ensures IsSaid(a, b, name, AttributeSteps(Attribute(name), v, w))
  {
    hide AttributeOf;
  }

  lemma SaidInMore(a: Node, b: Node, name: string, steps: seq<Step>, more: seq<Step>)
    requires IsSaid(a, b, name, steps) && forall step :: step in steps ==> step in more
    ensures IsSaid(a, b, name, more)
  {
    hide AttributeOf;
  }

  /** Every attribute that changes is mentioned. */
  lemma ChangesAreSaid(p: Problem, a: Node, b: Node, name: string)
    requires WellFormed(p.graph) && References(a) <= p.graph.Keys && References(b) <= p.graph.Keys
    requires !a.Qualified? && !b.Qualified? && !a.Typedef? && !b.Typedef? && !NodeScript(p, a, b).incomparable
    requires Matters(a, b, name)
    ensures IsSaid(a, b, name, NodeScript(p, a, b).steps)
  {
    ComparableKinds(p, a, b);
    if a.ElfSymbol? {
      SymbolChangesAreSaid(p, a, b, name);
    } else if a.StructUnion? || a.Enumeration? {
      DefinedChangesAreSaid(p, a, b, name);
    } else {
      PlainChangesAreSaid(p, a, b, name);
    }
  }

  lemma PlainChangesAreSaid(p: Problem, a: Node, b: Node, name: string)
    requires WellFormed(p.graph) && References(a) <= p.graph.Keys && References(b) <= p.graph.Keys
    requires KindOf(a) == KindOf(b) && !a.Qualified? && !a.Typedef?
    requires !(a.StructUnion? || a.Enumeration? || a.ElfSymbol?) && Matters(a, b, name)
    ensures IsSaid(a, b, name, NodeScript(p, a, b).steps)
  {
    hide WellFormed, References, AttributeSteps, OptionalAttributeSteps, IsSaid, SymbolsSteps, FunctionSteps, Bits;
    var steps := NodeScript(p, a, b).steps;
    var v, w := AttributeOf(a, name), AttributeOf(b, name);
    if a.Method? && name == "vtable offset" {
      OptionalIsSaid(a, b, name);
      SaidInMore(a, b, name, OptionalAttributeSteps(Attribute(name), v, w), steps);
    } else if v.Some? && w.Some? {
      AttributeIsSaid(a, b, name, v.value, w.value);
      SaidInMore(a, b, name, AttributeSteps(Attribute(name), v.value, w.value), steps);
    } else {
      NothingToSay(a, b, name, steps);
    }
  }

  lemma NothingToSay(a: Node, b: Node, name: string, steps: seq<Step>)
    requires !(AttributeOf(a, name).Some? && AttributeOf(b, name).Some?)
    requires name == "vtable offset" || name == "CRC" ==> AttributeOf(a, name) == None == AttributeOf(b, name)
    ensures IsSaid(a, b, name, steps)
  {
    hide AttributeOf;
  }

  lemma DefinedChangesAreSaid(p: Problem, a: Node, b: Node, name: string)
    requires WellFormed(p.graph) && References(a) <= p.graph.Keys && References(b) <= p.graph.Keys
    requires KindOf(a) == KindOf(b) && (a.StructUnion? || a.Enumeration?) && !NodeScript(p, a, b).incomparable
    ensures IsSaid(a, b, name, NodeScript(p, a, b).steps)
  {
    hide WellFormed, NodesSteps, AttributeSteps, EnumeratorSteps, MatchedPairs, IsSaid;
    var steps := NodeScript(p, a, b).steps;
    var v, w := AttributeOf(a, name), AttributeOf(b, name);
    if v.Some? && w.Some? {
      AttributeIsSaid(a, b, name, v.value, w.value);
      SaidInMore(a, b, name, AttributeSteps(Attribute(name), v.value, w.value), steps);
    } else {
      NothingToSay(a, b, name, steps);
    }
  }

  lemma SymbolChangesAreSaid(p: Problem, a: Node, b: Node, name: string)
    requires WellFormed(p.graph) && References(a) <= p.graph.Keys && References(b) <= p.graph.Keys
    requires a.ElfSymbol? && b.ElfSymbol?
    ensures IsSaid(a, b, name, NodeScript(p, a, b).steps)
  {
    hide WellFormed, References, AttributeSteps, OptionalAttributeSteps, IsSaid;
    var steps := NodeScript(p, a, b).steps;
    var v, w := AttributeOf(a, name), AttributeOf(b, name);
    if name == "CRC" {
      OptionalIsSaid(a, b, name);
      SaidInMore(a, b, name, OptionalAttributeSteps(Attribute(name), v, w), steps);
    } else if v.Some? && w.Some? && v != w {
      AttributeIsSaid(a, b, name, v.value, w.value);
      SymbolStepIsThere(a, b, name, v.value, w.value);
      SaidInMore(a, b, name, AttributeSteps(Attribute(name), v.value, w.value), steps);
    } else {
      NoChange(a, b, name, steps);
    }
  }

  lemma NoChange(a: Node, b: Node, name: string, steps: seq<Step>)
    requires AttributeOf(a, name) == AttributeOf(b, name) || (name != "vtable offset" && name != "CRC")
    requires !(AttributeOf(a, name).Some? && AttributeOf(b, name).Some? && AttributeOf(a, name) != AttributeOf(b, name))
    ensures IsSaid(a, b, name, steps)
  {
    hide AttributeOf;
  }

  lemma SymbolStepIsThere(a: Node, b: Node, name: string, v: Value, w: Value)
    requires a.ElfSymbol? && b.ElfSymbol? && name != "CRC"
    requires AttributeOf(a, name) == Some(v) && AttributeOf(b, name) == Some(w) && v != w
    ensures forall step :: step in AttributeSteps(Attribute(name), v, w) ==> step in SymbolAttributeSteps(a, b)
  {
    hide AttributeSteps, OptionalAttributeSteps;
  }

  /** That only one of two nodes is defined is said exactly if it is so and is not ignored. */
  lemma DeclarationsAreSaid(p: Problem, a: Node, b: Node, defined1: bool, defined2: bool)
    requires WellFormed(p.graph) && References(a) <= p.graph.Keys && References(b) <= p.graph.Keys
    requires !a.Qualified? && !b.Qualified? && !a.Typedef? && !b.Typedef? && !NodeScript(p, a, b).incomparable
    ensures NodeStep(Declared(defined1, defined2)) in NodeScript(p, a, b).steps <==>
            && !p.options.ignoreTypeDeclarationStatusChanges
            && defined1 == IsDefined(a) && defined2 == IsDefined(b) && defined1 != defined2
  {
    hide WellFormed, References, NodeScript, IsDefined, IsTrue;
    if IsDefined(a) != IsDefined(b) { DeclaredStep(p, a, b); }
    if NodeStep(Declared(defined1, defined2)) in NodeScript(p, a, b).steps {
      TextsAreTrue(p, a, b);
      DeclaredTruly(a, b, defined1, defined2);
    }
  }

  lemma DeclaredTruly(a: Node, b: Node, defined1: bool, defined2: bool)
    requires IsTrue(a, b, Declared(defined1, defined2))
    ensures defined1 == IsDefined(a) && defined2 == IsDefined(b) && defined1 != defined2
  {
  }

  lemma DeclaredStep(p: Problem, a: Node, b: Node)
    requires WellFormed(p.graph) && References(a) <= p.graph.Keys && References(b) <= p.graph.Keys
    requires !a.Qualified? && !b.Qualified? && !a.Typedef? && !b.Typedef? && !NodeScript(p, a, b).incomparable
    requires IsDefined(a) != IsDefined(b)
    ensures NodeScript(p, a, b).steps == if p.options.ignoreTypeDeclarationStatusChanges then []
              else [NodeStep(Declared(IsDefined(a), IsDefined(b)))]
  {
    ComparableKinds(p, a, b);
    hide WellFormed, References, StructSteps, EnumSteps, SymbolsSteps, FunctionSteps, IntegerSteps,
         SymbolAttributeSteps;
  }

  // ---- enumerators ----

  lemma {:induction false} EnumeratorStepIsIn(
      pairs: Matches, enums1: seq<(string, int)>, enums2: seq<(string, int)>, k: nat)
    requires PairsInRange(pairs, |enums1|, |enums2|) && k < |pairs|
    ensures forall step :: step in EnumeratorStep(pairs[k], enums1, enums2) ==>
              step in EnumeratorSteps(pairs, enums1, enums2)
  {
    hide EnumeratorStep;
    var n := |pairs| - 1;
    if k < n {
      assert pairs[..n][k] == pairs[k];
      EnumeratorStepIsIn(pairs[..n], enums1, enums2, k);
    }
  }

  lemma {:induction false} PairWithFirst(pairs: Matches, i: nat) returns (k: nat)
    requires i in Present(Firsts(pairs))
    ensures k < |pairs| && pairs[k].0 == Some(i)
  {
    PresentFromPositions(Firsts(pairs));
    k :| 0 <= k < |pairs| && Firsts(pairs)[k] == Some(i);
  }

  lemma {:induction false} PairWithSecond(pairs: Matches, j: nat) returns (k: nat)
    requires j in Present(Seconds(pairs))
    ensures k < |pairs| && pairs[k].1 == Some(j)
  {
    PresentFromPositions(Seconds(pairs));
    k :| 0 <= k < |pairs| && Seconds(pairs)[k] == Some(j);
  }

  /** Whatever becomes of an enumerator is mentioned: it stays, or its value changes, or it is removed. */
  lemma EnumeratorsAreSaid(d1: EnumDefinition, d2: EnumDefinition, i: nat)
    requires i < |d1.enumerators|
    ensures var (name, v) := d1.enumerators[i];
            || NodeStep(EnumeratorRemoved(name, v)) in EnumSteps(d1, d2)
            || exists w :: (name, w) in d2.enumerators &&
                           (v == w || NodeStep(Changed(Enumerator(name), Number(v), Number(w))) in EnumSteps(d1, d2))
  {
    hide MatchedPairs, EnumeratorSteps;
    var enums1, enums2 := d1.enumerators, d2.enumerators;
    var names1, names2 := EnumeratorNames(enums1), EnumeratorNames(enums2);
    var pairs := MatchedPairs(names1, names2, true);
    MatchedUseEachOnce(names1, names2, true);
    PermutationIsOnto(Present(Firsts(pairs)), |names1|, i);
    var k := PairWithFirst(pairs, i);
    EnumeratorStepIsIn(pairs, enums1, enums2, k);
    if pairs[k].1.Some? {
      MatchedShareKey(names1, names2, true, pairs[k]);
      var j := pairs[k].1.value;
      assert enums2[j] == (enums1[i].0, enums2[j].1) && enums2[j] in enums2;
    }
  }

  /** And so are those that are new. */
  lemma NewEnumeratorsAreSaid(d1: EnumDefinition, d2: EnumDefinition, j: nat)
    requires j < |d2.enumerators|
    requires forall i :: 0 <= i < |d1.enumerators| ==> d1.enumerators[i].0 != d2.enumerators[j].0
    ensures NodeStep(EnumeratorAdded(d2.enumerators[j].0, d2.enumerators[j].1)) in EnumSteps(d1, d2)
  {
    hide MatchedPairs, EnumeratorSteps;
    var enums1, enums2 := d1.enumerators, d2.enumerators;
    var names1, names2 := EnumeratorNames(enums1), EnumeratorNames(enums2);
    var pairs := MatchedPairs(names1, names2, true);
    MatchedUseEachOnce(names1, names2, true);
    PermutationIsOnto(Present(Seconds(pairs)), |names2|, j);
    var k := PairWithSecond(pairs, j);
    EnumeratorStepIsIn(pairs, enums1, enums2, k);
    if pairs[k].0.Some? { MatchedShareKey(names1, names2, true, pairs[k]); }
  }

  /** The enumerator of the first side that a step is about. */
  function FirstEnumerator(step: Step): seq<string> {
    match step
    case NodeStep(EnumeratorRemoved(name, _)) => [name]
    case NodeStep(Changed(Enumerator(name), _, _)) => [name]
    case _ => []
  }

  ghost function FirstEnumerators(steps: seq<Step>): seq<string> {
    if steps == [] then [] else FirstEnumerators(steps[..|steps| - 1]) + FirstEnumerator(steps[|steps| - 1])
  }

  lemma {:induction false} FirstEnumeratorsOfSum(s: seq<Step>, t: seq<Step>)
    ensures FirstEnumerators(s + t) == FirstEnumerators(s) + FirstEnumerators(t)
  {
    hide FirstEnumerator;
    if t == [] {
      assert s + t == s;
    } else {
      var n := |t| - 1;
      assert (s + t)[..|s| + n] == s + t[..n] && (s + t)[|s| + n] == t[n];
      FirstEnumeratorsOfSum(s, t[..n]);
    }
  }

  lemma {:induction false} EnumeratorsFollowPairs(
      pairs: Matches, enums1: seq<(string, int)>, enums2: seq<(string, int)>)
    requires PairsInRange(pairs, |enums1|, |enums2|) && AllBelow(Present(Firsts(pairs)), |enums1|)
    ensures IsSubsequence(FirstEnumerators(EnumeratorSteps(pairs, enums1, enums2)),
                          Gather(EnumeratorNames(enums1), Present(Firsts(pairs))))
  {
    hide IsSubsequence, Present, Firsts, EnumeratorStep, FirstEnumerator, Gather;
    if pairs == [] {
      EmptySubsequence(Gather(EnumeratorNames(enums1), Present(Firsts(pairs))));
    } else {
      var n := |pairs| - 1;
      var before := EnumeratorSteps(pairs[..n], enums1, enums2);
      PresentInLists(pairs[..n], |enums1|, |enums2|);
      EnumeratorsFollowPairs(pairs[..n], enums1, enums2);
      FirstEnumeratorsOfSum(before, EnumeratorStep(pairs[n], enums1, enums2));
      OneEnumerator(pairs[n], enums1, enums2);
      LastGathered(pairs, enums1, |enums2|);
      NextSubsequence(
        FirstEnumerators(before), Gather(EnumeratorNames(enums1), Present(Firsts(pairs[..n]))),
        FirstEnumerators(EnumeratorStep(pairs[n], enums1, enums2)),
        if pairs[n].0.Some? then [enums1[pairs[n].0.value].0] else []);
    }
  }

  lemma LastGathered(pairs: Matches, enums: seq<(string, int)>, n2: nat)
    requires pairs != [] && PairsInRange(pairs, |enums|, n2) && AllBelow(Present(Firsts(pairs)), |enums|)
    requires AllBelow(Present(Firsts(pairs[..|pairs| - 1])), |enums|)
    ensures var n, names := |pairs| - 1, EnumeratorNames(enums);
            Gather(names, Present(Firsts(pairs)))
            == Gather(names, Present(Firsts(pairs[..n])))
               + if pairs[n].0.Some? then [enums[pairs[n].0.value].0] else []
  {
    hide Present, Firsts;
    LastPresent(pairs);
  }

  lemma NextSubsequence(s: seq<string>, t: seq<string>, x: seq<string>, y: seq<string>)
    requires IsSubsequence(s, t) && (x == [] || x == y) && |y| <= 1
    ensures IsSubsequence(s + x, t + y)
  {
    hide IsSubsequence;
    if x == [] {
      assert s + x == s;
      SubsequencePrefix(s, t, y);
    } else {
      SubsequenceAppend(s, t, [], x[0]);
      assert t + [] + [x[0]] == t + y && s + x == s + [x[0]];
    }
  }

  lemma OneEnumerator(pair: (Option<nat>, Option<nat>), enums1: seq<(string, int)>, enums2: seq<(string, int)>)
    requires PairInRange(pair, |enums1|, |enums2|)
    ensures var names := FirstEnumerators(EnumeratorStep(pair, enums1, enums2));
            names == [] || (pair.0.Some? && names == [enums1[pair.0.value].0])
  {
    var steps := EnumeratorStep(pair, enums1, enums2);
    if steps != [] { assert steps == [steps[0]] && steps[..0] == []; }
  }

  /** The enumerators that are removed or changed come in the order in which the first enumeration lists them. */
  lemma EnumeratorsInOrder(d1: EnumDefinition, d2: EnumDefinition)
    ensures IsSubsequence(FirstEnumerators(EnumSteps(d1, d2)), EnumeratorNames(d1.enumerators))
  {
    hide MatchedPairs, EnumeratorSteps, IsSubsequence;
    var names1, names2 := EnumeratorNames(d1.enumerators), EnumeratorNames(d2.enumerators);
    var pairs := MatchedPairs(names1, names2, true);
    MatchedUseEachOnce(names1, names2, true);
    PresentInLists(pairs, |names1|, |names2|);
    EnumeratorsFollowPairs(pairs, d1.enumerators, d2.enumerators);
    assert Gather(names1, Identity(|names1|)) == names1;
    var size := NumberSteps("byte size", d1.bytesize, d2.bytesize);
    var rest := EnumeratorSteps(pairs, d1.enumerators, d2.enumerators);
    FirstEnumeratorsOfSum(size, rest);
    NoEnumerators(d1.bytesize, d2.bytesize);
    assert EnumSteps(d1, d2) == size + rest;
    assert [] + FirstEnumerators(rest) == FirstEnumerators(rest);
  }

  lemma NoEnumerators(before: int, after: int)
    ensures FirstEnumerators(NumberSteps("byte size", before, after)) == []
  {
    var steps := NumberSteps("byte size", before, after);
    if steps != [] { assert steps == [steps[0]] && steps[..0] == []; }
  }

  // ---- what cannot be compared ----

  predicate SameKind(a: Node, b: Node) {
    || (a.Void? && b.Void?) || (a.Variadic? && b.Variadic?) || (a.PointerReference? && b.PointerReference?)
    || (a.Integer? && b.Integer?) || (a.Array? && b.Array?) || (a.BaseClass? && b.BaseClass?)
    || (a.Member? && b.Member?) || (a.Method? && b.Method?) || (a.StructUnion? && b.StructUnion?)
    || (a.Enumeration? && b.Enumeration?) || (a.Function? && b.Function?) || (a.ElfSymbol? && b.ElfSymbol?)
    || (a.Symbols? && b.Symbols?)
  }

  /** Nodes can be compared if they are of the same kind, and are not told apart by being pointers or references,
      structs or unions, or by name. */
  lemma WhatIsIncomparable(p: Problem, a: Node, b: Node)
    requires WellFormed(p.graph) && References(a) <= p.graph.Keys && References(b) <= p.graph.Keys
    requires !a.Qualified? && !b.Qualified? && !a.Typedef? && !b.Typedef?
    ensures NodeScript(p, a, b).incomparable <==>
            || !SameKind(a, b)
            || (a.PointerReference? && a.pointerKind != b.pointerKind)
            || (a.StructUnion? && (a.structKind != b.structKind || a.name != b.name))
            || (a.Enumeration? && a.name != b.name)
  {
    hide WellFormed, References, StructSteps, EnumSteps, SymbolsSteps, FunctionSteps, IntegerSteps,
         SymbolAttributeSteps, AttributeSteps, OptionalAttributeSteps;
  }

  // ---- what holds changes ----

  /** What has a name under which its changes are reported. */
  predicate SameEntity(a: Node, b: Node) {
    || (a.Typedef? && b.Typedef? && a.name == b.name)
    || (a.StructUnion? && b.StructUnion? && a.structKind == b.structKind && a.name == b.name && a.name != "")
    || (a.Enumeration? && b.Enumeration? && a.name == b.name && a.name != "")
    || (a.Symbols? && b.Symbols?)
  }

  /** A pair holds changes exactly if both are the same typedef, struct, union or enumeration by name, or symbol
      tables, with no qualifiers. */
  lemma WhatHoldsChanges(p: Problem, x: Id, y: Id)
    requires WellFormed(p.graph) && x in p.graph && y in p.graph
    ensures CompareScript(p, Pair(x, y)).holdsChanges <==>
            && Qualifiers(p.graph, x) == {} && Qualifiers(p.graph, y) == {}
            && SameEntity(p.graph[Bare(p.graph, x)], p.graph[Bare(p.graph, y)])
  {
    hide WellFormed, NodeScript, QualifierSteps;
    var g := p.graph;
    var i, j := Bare(g, x), Bare(g, y);
    FirstTypedef(g, i);
    FirstTypedef(g, j);
    if Qualifiers(g, x) == {} && Qualifiers(g, y) == {} && !g[i].Typedef? && !g[j].Typedef? {
      BareNodes(p, x);
      BareNodes(p, y);
      NodesHoldChanges(p, g[i], g[j]);
    }
  }

  lemma FirstTypedef(g: Graph, id: Id)
    requires WellFormed(g) && id in g
    ensures var names := Resolved(g, id, []).1;
            if g[id].Typedef? then names != [] && names[0] == g[id].name else names == []
  {
    hide WellFormed;
    if g[id].Typedef? {
      ReferredInGraph(g, id);
      assert [g[id].name] <= Resolved(g, g[id].referredTypeId, [] + [g[id].name]).1;
    }
  }

  lemma ReferredInGraph(g: Graph, id: Id)
    requires WellFormed(g) && id in g && g[id].Typedef?
    ensures g[id].referredTypeId in g
  {
    assert g[id].referredTypeId in References(g[id]);
  }

  lemma NodesHoldChanges(p: Problem, a: Node, b: Node)
    requires WellFormed(p.graph) && References(a) <= p.graph.Keys && References(b) <= p.graph.Keys
    requires !a.Qualified? && !b.Qualified? && !a.Typedef? && !b.Typedef?
    ensures NodeScript(p, a, b).holdsChanges <==> SameEntity(a, b)
  {
    hide WellFormed, References, StructSteps, EnumSteps, SymbolsSteps, FunctionSteps, IntegerSteps,
         SymbolAttributeSteps, AttributeSteps, OptionalAttributeSteps;
  }

  // ---- qualifiers and typedefs ----

  /** The qualifiers of a node are those on the chain that begins with it, unless that ends at an array or a
      function, which have none. */
  lemma {:induction false} QualifiersAreOnChain(g: Graph, id: Id, qualifiers: set<Qualifier>, q: Qualifier)
    requires WellFormed(g) && id in g
    ensures var (end, all) := Unqualified(g, id, qualifiers);
            && Reaches(QualifierEdges(g), id, end) && !g[end].Qualified?
            && (q in all <==> !g[end].Array? && !g[end].Function? && (q in qualifiers || OnChain(g, id, q)))
    decreases |ReachSet(QualifierEdges(g), id)|
  {
    hide Reaches;
    ReachesSelf(QualifierEdges(g), id);
    if g[id].Qualified? {
      var under := g[id].qualifiedTypeId;
      assert under in References(g[id]);
      ReachSetShrinks(QualifierEdges(g), id, under);
      QualifiersAreOnChain(g, under, qualifiers + {g[id].qualifier}, q);
      ReachesStep(QualifierEdges(g), id, under, Unqualified(g, under, qualifiers + {g[id].qualifier}).0);
    }
    ChainStep(g, id, q);
  }

  ghost predicate OnChain(g: Graph, id: Id, q: Qualifier) {
    exists n :: Reaches(QualifierEdges(g), id, n) && n in g && g[n].Qualified? && g[n].qualifier == q
  }

  lemma ChainStep(g: Graph, id: Id, q: Qualifier)
    requires id in g
    ensures OnChain(g, id, q) <==> g[id].Qualified? && (g[id].qualifier == q || OnChain(g, g[id].qualifiedTypeId, q))
  {
    hide Reaches;
    var edges := QualifierEdges(g);
    ReachesSelf(edges, id);
    if n :| Reaches(edges, id, n) && n in g && g[n].Qualified? && g[n].qualifier == q {
      if n != id { var m := FirstStep(edges, id, n); }
    }
    if g[id].Qualified? {
      forall n | Reaches(edges, g[id].qualifiedTypeId, n) ensures Reaches(edges, id, n) {
        ReachesStep(edges, id, g[id].qualifiedTypeId, n);
      }
    }
  }

  /** A qualifier is reported as removed if only the first node has it, and as added if only the second has. */
  lemma QualifierChangesAreSaid(p: Problem, x: Id, y: Id, q: Qualifier)
    requires WellFormed(p.graph) && x in p.graph && y in p.graph
    ensures var steps, q1, q2 := CompareScript(p, Pair(x, y)).steps, Qualifiers(p.graph, x), Qualifiers(p.graph, y);
            && (NodeStep(QualifierRemoved(q)) in steps <==> q in q1 && q !in q2)
            && (NodeStep(QualifierAdded(q)) in steps <==> q !in q1 && q in q2)
  {
    hide WellFormed, NodeScript, QualifierSteps;
    var g := p.graph;
    QualifierStepsAre(Qualifiers(g, x), Qualifiers(g, y), q);
    if Qualifiers(g, x) == {} && Qualifiers(g, y) == {} && !IsTypedef(g, x) && !IsTypedef(g, y) {
      BareNodes(p, x);
      BareNodes(p, y);
      TextsAreTrue(p, g[Bare(g, x)], g[Bare(g, y)]);
    }
  }

  lemma QualifierStepsAre(q1: set<Qualifier>, q2: set<Qualifier>, q: Qualifier)
    ensures NodeStep(QualifierRemoved(q)) in QualifierSteps(q1, q2) <==> q in q1 && q !in q2
    ensures NodeStep(QualifierAdded(q)) in QualifierSteps(q1, q2) <==> q !in q1 && q in q2
  {
  }

  /** What a typedef stands for is at the end of its chain. */
  lemma {:induction false} TypedefsAreFollowed(g: Graph, id: Id, names: seq<string>)
    requires WellFormed(g) && id in g
    ensures Reaches(TypedefEdges(g), id, Resolved(g, id, names).0) && !g[Resolved(g, id, names).0].Typedef?
    decreases |ReachSet(TypedefEdges(g), id)|
  {
    hide Reaches;
    ReachesSelf(TypedefEdges(g), id);
    if g[id].Typedef? {
      var referred := g[id].referredTypeId;
      assert referred in References(g[id]);
      ReachSetShrinks(TypedefEdges(g), id, referred);
      TypedefsAreFollowed(g, referred, names + [g[id].name]);
      ReachesStep(TypedefEdges(g), id, referred, Resolved(g, id, names).0);
    }
  }
}

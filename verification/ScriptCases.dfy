/** The script of a pair, kind by kind, as the sequence of its steps. */
module ScriptCases {
  import opened Graph
  import opened Diffs
  import opened Scripts

  /** The dynamic type of a node. */
  function KindOf(node: Node): nat {
    match node
    case Void => 0
    case Variadic => 1
    case PointerReference(_, _) => 2
    case Typedef(_, _) => 3
    case Qualified(_, _) => 4
    case Integer(_, _, _, _) => 5
    case Array(_, _) => 6
    case BaseClass(_, _, _) => 7
    case Member(_, _, _, _) => 8
    case Method(_, _, _, _, _) => 9
    case StructUnion(_, _, _) => 10
    case Enumeration(_, _) => 11
    case Function(_, _) => 12
    case ElfSymbol(_, _, _, _, _, _, _, _, _) => 13
    case Symbols(_) => 14
  }

  /** Without qualifiers and typedefs it comes down to the nodes. */
  lemma PlainScript(p: Problem, c: Comparison)
    requires WellFormed(p.graph) && InDomain(p, c)
    requires Unqualified(p.graph, c.first.value, {}).1 == {} && Unqualified(p.graph, c.second.value, {}).1 == {}
    requires var id := Unqualified(p.graph, c.first.value, {}).0; Resolved(p.graph, id, []).0 == id
    requires var id := Unqualified(p.graph, c.second.value, {}).0; Resolved(p.graph, id, []).0 == id
    ensures var a, b := p.graph[Unqualified(p.graph, c.first.value, {}).0],
    p.graph[Unqualified(p.graph, c.second.value, {}).0];
            && References(a) <= p.graph.Keys && References(b) <= p.graph.Keys
            && !a.Qualified? && !b.Qualified? && !a.Typedef? && !b.Typedef?
            && CompareScript(p, c) == NodeScript(p, a, b)
  {
    hide NodeScript;
  }

  lemma DifferentKindsScript(p: Problem, a: Node, b: Node)
    requires WellFormed(p.graph) && References(a) <= p.graph.Keys && References(b) <= p.graph.Keys
    requires !a.Qualified? && !b.Qualified? && !a.Typedef? && !b.Typedef?
    requires KindOf(a) != KindOf(b)
    ensures NodeScript(p, a, b) == INCOMPARABLE
  {
  }

  lemma MergeNext(list1: seq<Qualifier>, i: nat, list2: seq<Qualifier>, j: nat)
    requires i <= |list1| && j <= |list2| && (i < |list1| || j < |list2|)
    ensures MergedQualifiers(list1[i..], list2[j..]) ==
            if j == |list2| || (i < |list1| && Rank(list1[i]) < Rank(list2[j])) then
              [NodeStep(QualifierRemoved(list1[i]))] + MergedQualifiers(list1[i + 1..], list2[j..])
            else if i == |list1| || Rank(list1[i]) > Rank(list2[j]) then
              [NodeStep(QualifierAdded(list2[j]))] + MergedQualifiers(list1[i..], list2[j + 1..])
            else MergedQualifiers(list1[i + 1..], list2[j + 1..])
  {
    assert i < |list1| ==> list1[i..][1..] == list1[i + 1..];
    assert j < |list2| ==> list2[j..][1..] == list2[j + 1..];
  }

  lemma ThenNothing(script: Script)
    ensures script.Then([]) == script
  {
  }

  lemma ThenThen(script: Script, x: seq<Step>, y: seq<Step>)
    ensures script.Then(x).Then(y) == script.Then(x + y)
  {
    assert script.steps + x + y == script.steps + (x + y);
  }

  lemma PointerReferenceScript(p: Problem, a: Node, b: Node)
    requires WellFormed(p.graph) && References(a) <= p.graph.Keys && References(b) <= p.graph.Keys
    requires a.PointerReference? && b.PointerReference?
    requires a.pointerKind == b.pointerKind
    ensures var child := ChildEdge(if a.pointerKind == PTR then "pointed-to" else "referred-to", a.pointeeTypeId,
                                   b.pointeeTypeId);
            NodeScript(p, a, b) == NOTHING_DONE.Then([child]) && child in NodeScript(p, a, b).steps
  {
  }

  lemma IntegerScript(p: Problem, a: Node, b: Node)
    requires WellFormed(p.graph) && References(a) <= p.graph.Keys && References(b) <= p.graph.Keys
    requires a.Integer? && b.Integer?
    ensures NodeScript(p, a, b) == NOTHING_DONE
              .Then(AttributeSteps(Attribute("encoding"), EncodingValue(a.encoding), EncodingValue(b.encoding)))
              .Then(AttributeSteps(Attribute("bit size"), Number(a.bitsize), Number(b.bitsize)))
              .Then(if a.bitsize != Bits(a.bytesize) && b.bitsize != Bits(b.bytesize)
                    then AttributeSteps(Attribute("byte size"), Number(a.bytesize), Number(b.bytesize)) else [])
  {
  }

  lemma ArrayScript(p: Problem, a: Node, b: Node)
    requires WellFormed(p.graph) && References(a) <= p.graph.Keys && References(b) <= p.graph.Keys
    requires a.Array? && b.Array?
    ensures NodeScript(p, a, b) == NOTHING_DONE
              .Then(AttributeSteps(Attribute("number of elements"), Number(a.numberOfElements),
                                   Number(b.numberOfElements)))
              .Then([ChildEdge("element", a.elementTypeId, b.elementTypeId)])
    ensures ChildEdge("element", a.elementTypeId, b.elementTypeId) in NodeScript(p, a, b).steps
  {
  }

  lemma BaseClassScript(p: Problem, a: Node, b: Node)
    requires WellFormed(p.graph) && References(a) <= p.graph.Keys && References(b) <= p.graph.Keys
    requires a.BaseClass? && b.BaseClass?
    ensures NodeScript(p, a, b) == NOTHING_DONE
              .Then(AttributeSteps(Attribute("inheritance"), InheritanceValue(a.inheritance),
                                   InheritanceValue(b.inheritance)))
              .Then(AttributeSteps(Attribute("offset"), Number(a.offset), Number(b.offset)))
              .Then([ChildEdge("", a.typeId, b.typeId)])
    ensures ChildEdge("", a.typeId, b.typeId) in NodeScript(p, a, b).steps
  {
  }

  lemma MemberScript(p: Problem, a: Node, b: Node)
    requires WellFormed(p.graph) && References(a) <= p.graph.Keys && References(b) <= p.graph.Keys
    requires a.Member? && b.Member?
    ensures NodeScript(p, a, b) == NOTHING_DONE
              .Then(AttributeSteps(Attribute("offset"), Number(a.offset), Number(b.offset)))
              .Then(AttributeSteps(Attribute("size"), Number(a.bitsize), Number(b.bitsize)))
              .Then([ChildEdge("", a.typeId, b.typeId)])
    ensures ChildEdge("", a.typeId, b.typeId) in NodeScript(p, a, b).steps
  {
  }

  lemma MethodScript(p: Problem, a: Node, b: Node)
    requires WellFormed(p.graph) && References(a) <= p.graph.Keys && References(b) <= p.graph.Keys
    requires a.Method? && b.Method?
    ensures NodeScript(p, a, b) == NOTHING_DONE
              .Then(AttributeSteps(Attribute("kind"), MethodKindValue(a.methodKind), MethodKindValue(b.methodKind)))
              .Then(OptionalAttributeSteps(Attribute("vtable offset"), MapNumber(a.vtableOffset),
                                           MapNumber(b.vtableOffset)))
              .Then([ChildEdge("", a.typeId, b.typeId)])
    ensures ChildEdge("", a.typeId, b.typeId) in NodeScript(p, a, b).steps
  {
  }

  lemma FunctionScript(p: Problem, a: Node, b: Node)
    requires WellFormed(p.graph) && References(a) <= p.graph.Keys && References(b) <= p.graph.Keys
    requires a.Function? && b.Function?
    ensures var n1, n2 := |a.parameters|, |b.parameters|;
            var min := if n1 < n2 then n1 else n2;
            var compared := ParameterSteps(a.parameters, b.parameters, min);
            var extra := ExtraParameterSteps(if n1 < n2 then b.parameters else a.parameters, n1 < n2, min);
            var return_ := ChildEdge("return", a.returnTypeId, b.returnTypeId);
            && NodeScript(p, a, b) == NOTHING_DONE.Then([return_]).Then(compared).Then(extra)
            && return_ in NodeScript(p, a, b).steps
            && (forall step :: step in compared ==> step in NodeScript(p, a, b).steps)
            && (forall step :: step in extra ==> step in NodeScript(p, a, b).steps)
  {
    hide ParameterSteps, ExtraParameterSteps, WellFormed, References, AttributeSteps, NumberSteps, StructSteps,
         EnumSteps, SymbolsSteps, IntegerSteps;
  }

  lemma ElfSymbolScript(p: Problem, a: Node, b: Node)
    requires WellFormed(p.graph) && References(a) <= p.graph.Keys && References(b) <= p.graph.Keys
    requires a.ElfSymbol? && b.ElfSymbol?
    ensures var last := SymbolTypeSteps(a.symbolTypeId, b.symbolTypeId, p.options.ignoreSymbolTypePresenceChanges);
            && NodeScript(p, a, b) == NOTHING_DONE.Then(SymbolAttributeSteps(a, b)).Then(last)
            && forall step :: step in last ==> step in NodeScript(p, a, b).steps
  {
    hide SymbolTypeSteps, SymbolAttributeSteps;
  }

  lemma AttributesInOrder(log: Script, a: Node, b: Node)
    requires a.ElfSymbol? && b.ElfSymbol?
    ensures log.Then(AttributeSteps(Attribute("name"), Text(a.symbolName), Text(b.symbolName)))
               .Then(VersionSteps(a.versionInfo, b.versionInfo))
               .Then(AttributeSteps(Attribute("defined"), Flag(a.isDefined), Flag(b.isDefined)))
               .Then(AttributeSteps(Attribute("symbol type"), SymbolTypeValue(a.symbolType),
                                    SymbolTypeValue(b.symbolType)))
               .Then(AttributeSteps(Attribute("binding"), BindingValue(a.binding), BindingValue(b.binding)))
               .Then(AttributeSteps(Attribute("visibility"), VisibilityValue(a.visibility),
                                    VisibilityValue(b.visibility)))
               .Then(OptionalAttributeSteps(Attribute("CRC"), MapNumber(a.crc), MapNumber(b.crc)))
         == log.Then(SymbolAttributeSteps(a, b))
  {
    hide Script.Then, AttributeSteps, VersionSteps, OptionalAttributeSteps;
    var name := AttributeSteps(Attribute("name"), Text(a.symbolName), Text(b.symbolName));
    var version := VersionSteps(a.versionInfo, b.versionInfo);
    var defined := AttributeSteps(Attribute("defined"), Flag(a.isDefined), Flag(b.isDefined));
    var symbolType := AttributeSteps(Attribute("symbol type"), SymbolTypeValue(a.symbolType),
                                     SymbolTypeValue(b.symbolType));
    var binding := AttributeSteps(Attribute("binding"), BindingValue(a.binding), BindingValue(b.binding));
    var visibility := AttributeSteps(Attribute("visibility"), VisibilityValue(a.visibility),
                                     VisibilityValue(b.visibility));
    ThenThen(log, name, version);
    ThenThen(log, name + version, defined);
    ThenThen(log, name + version + defined, symbolType);
    ThenThen(log, name + version + defined + symbolType, binding);
    ThenThen(log, name + version + defined + symbolType + binding, visibility);
    ThenThen(log, name + version + defined + symbolType + binding + visibility,
             OptionalAttributeSteps(Attribute("CRC"), MapNumber(a.crc), MapNumber(b.crc)));
  }

  lemma GoneSymbolStepAt(symbols: seq<(string, Id)>, added: bool, k: nat)
    requires k < |symbols|
    ensures GoneSymbolSteps(symbols, added)[k] == GoneEdge(Quote(symbols[k].0), symbols[k].1, added)
    ensures GoneSymbolSteps(symbols, added)[..k + 1] == GoneSymbolSteps(symbols, added)[..k]
              + [GoneSymbolSteps(symbols, added)[k]]
  {
  }

  lemma CommonSymbolStepAt(symbols: seq<(string, Id, Id)>, k: nat)
    requires k < |symbols|
    ensures CommonSymbolSteps(symbols)[k] == ChildEdge(Quote(symbols[k].0), symbols[k].1, symbols[k].2)
    ensures CommonSymbolSteps(symbols)[..k + 1] == CommonSymbolSteps(symbols)[..k] + [CommonSymbolSteps(symbols)[k]]
  {
  }

  lemma SymbolsScript(p: Problem, a: Node, b: Node)
    requires WellFormed(p.graph) && References(a) <= p.graph.Keys && References(b) <= p.graph.Keys
    requires a.Symbols? && b.Symbols?
    ensures var removed := GoneSymbolSteps(OnlyIn(a.symbols, b.symbols), false);
            var added := GoneSymbolSteps(OnlyIn(b.symbols, a.symbols), true);
            var common := CommonSymbolSteps(InBoth(a.symbols, b.symbols));
            && NodeScript(p, a, b) == NOTHING_DONE.(holdsChanges := true).Then(removed).Then(added).Then(common)
            && (forall step :: step in removed ==> step in NodeScript(p, a, b).steps)
            && (forall step :: step in added ==> step in NodeScript(p, a, b).steps)
            && (forall step :: step in common ==> step in NodeScript(p, a, b).steps)
  {
    hide GoneSymbolSteps, CommonSymbolSteps, OnlyIn, InBoth;
  }
}

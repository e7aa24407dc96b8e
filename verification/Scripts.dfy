/** What the examination of a pair of nodes does, step by step, as a function of the pair. No step
    depends on how the comparison of children turns out, so the pairs form a fixed graph. */
module Scripts {
  import opened Wrappers
  import opened Sequences
  import opened Strings
  import opened Graph
  import opened Order
  import opened Matching
  import opened Diffs

  datatype CompareOptions =
    CompareOptions(ignoreSymbolTypePresenceChanges: bool, ignoreTypeDeclarationStatusChanges: bool)

  datatype Problem = Problem(graph: Graph, options: CompareOptions)

  const INCOMPARABLE := Script(false, true, [])

  /** Children pair a node of one set with one of the other. An edge that is gone has one end: one of the first
      set if the node was removed, and one of the second if it was added. */
  ghost predicate StepWithin(ids1: set<Id>, ids2: set<Id>, step: Step) {
    match step
    case NodeStep(_) => true
    case ChildStep(_, Comparison(Some(id1), Some(id2))) => id1 in ids1 && id2 in ids2
    case GoneStep(_, Comparison(Some(id1), None)) => id1 in ids1
    case GoneStep(_, Comparison(None, Some(id2))) => id2 in ids2
    case _ => false
  }

  ghost predicate Within(ids1: set<Id>, ids2: set<Id>, steps: seq<Step>) {
    forall step :: step in steps ==> StepWithin(ids1, ids2, step)
  }

  ghost predicate InGraph(g: Graph, steps: seq<Step>) {
    Within(g.Keys, g.Keys, steps)
  }

  function GoneEdge(text: string, node: Id, added: bool): Step {
    GoneStep(Edge(text), OneSided(node, added))
  }

  function ChildEdge(text: string, id1: Id, id2: Id): Step {
    ChildStep(Edge(text), Pair(id1, id2))
  }

  ghost predicate AllNodeSteps(steps: seq<Step>) {
    forall step :: step in steps ==> step.NodeStep?
  }

  function NumberSteps(attribute: string, before: int, after: int): (steps: seq<Step>)
    ensures AllNodeSteps(steps)
  {
    AttributeSteps(Attribute(attribute), Number(before), Number(after))
  }

  // ---- qualifiers ----

  function QualifierStep(q: Qualifier, qualifiers1: set<Qualifier>, qualifiers2: set<Qualifier>): seq<Step> {
    if q in qualifiers1 && q !in qualifiers2 then [NodeStep(QualifierRemoved(q))]
    else if q !in qualifiers1 && q in qualifiers2 then [NodeStep(QualifierAdded(q))]
    else []
  }

  function Rank(q: Qualifier): nat {
    match q
    case CONST => 0
    case VOLATILE => 1
    case RESTRICT => 2
  }

  function Nth(k: nat): Qualifier
    requires k < 3
  {
    if k == 0 then CONST else if k == 1 then VOLATILE else RESTRICT
  }

  /** The qualifiers of rank k and above, in the order of std::set iteration. */
  function Listed(k: nat, qualifiers: set<Qualifier>): (list: seq<Qualifier>)
    requires k <= 3
    ensures forall q :: q in list ==> Rank(q) >= k
    decreases 3 - k
  {
    if k == 3 then []
    else if Nth(k) in qualifiers then [Nth(k)] + Listed(k + 1, qualifiers)
    else Listed(k + 1, qualifiers)
  }

  /** What the merge of two ascending lists of qualifiers reports. */
  function MergedQualifiers(list1: seq<Qualifier>, list2: seq<Qualifier>): seq<Step> {
    if list1 == [] && list2 == [] then []
    else if list2 == [] || (list1 != [] && Rank(list1[0]) < Rank(list2[0])) then
      [NodeStep(QualifierRemoved(list1[0]))] + MergedQualifiers(list1[1..], list2)
    else if list1 == [] || Rank(list1[0]) > Rank(list2[0]) then
      [NodeStep(QualifierAdded(list2[0]))] + MergedQualifiers(list1, list2[1..])
    else MergedQualifiers(list1[1..], list2[1..])
  }

  /** The merge finds exactly the qualifiers that only one side has. */
  lemma MergeFindsDifferences(qualifiers1: set<Qualifier>, qualifiers2: set<Qualifier>)
    ensures MergedQualifiers(Listed(0, qualifiers1), Listed(0, qualifiers2)) == QualifierSteps(qualifiers1, qualifiers2)
  {
    hide Listed, MergedQualifiers, QualifierStep;
    MergeFrom(0, qualifiers1, qualifiers2);
    MergeFrom(1, qualifiers1, qualifiers2);
    MergeFrom(2, qualifiers1, qualifiers2);
    NothingToMerge(qualifiers1, qualifiers2);
  }

  lemma NothingToMerge(qualifiers1: set<Qualifier>, qualifiers2: set<Qualifier>)
    ensures MergedQualifiers(Listed(3, qualifiers1), Listed(3, qualifiers2)) == []
    ensures MergedQualifiers([], []) == []
  {
  }

  lemma MergeFrom(k: nat, qualifiers1: set<Qualifier>, qualifiers2: set<Qualifier>)
    requires k < 3
    ensures MergedQualifiers(Listed(k, qualifiers1), Listed(k, qualifiers2))
         == QualifierStep(Nth(k), qualifiers1, qualifiers2)
            + MergedQualifiers(Listed(k + 1, qualifiers1), Listed(k + 1, qualifiers2))
  {
  }

  function QualifierSteps(qualifiers1: set<Qualifier>, qualifiers2: set<Qualifier>): (steps: seq<Step>)
    ensures AllNodeSteps(steps)
  {
    QualifierStep(CONST, qualifiers1, qualifiers2) + QualifierStep(VOLATILE, qualifiers1, qualifiers2)
    + QualifierStep(RESTRICT, qualifiers1, qualifiers2)
  }

  // ---- lists of nodes matched by key ----

  predicate PairInRange(pair: (Option<nat>, Option<nat>), n1: nat, n2: nat) {
    && (pair.0.Some? || pair.1.Some?)
    && (pair.0.Some? ==> pair.0.value < n1) && (pair.1.Some? ==> pair.1.value < n2)
  }

  ghost predicate PairsInRange(pairs: Matches, n1: nat, n2: nat) {
    forall k :: 0 <= k < |pairs| ==> PairInRange(pairs[k], n1, n2)
  }

  function PairStep(pair: (Option<nat>, Option<nat>), nodes1: seq<Id>, nodes2: seq<Id>): Step
    requires PairInRange(pair, |nodes1|, |nodes2|)
  {
    match pair
    case (Some(index1), None) => GoneEdge("", nodes1[index1], false)
    case (None, Some(index2)) => GoneEdge("", nodes2[index2], true)
    case (Some(index1), Some(index2)) => ChildEdge("", nodes1[index1], nodes2[index2])
  }

  function PairSteps(pairs: Matches, nodes1: seq<Id>, nodes2: seq<Id>): seq<Step>
    requires PairsInRange(pairs, |nodes1|, |nodes2|)
  {
    seq(|pairs|, k requires 0 <= k < |pairs| => PairStep(pairs[k], nodes1, nodes2))
  }

  /** The pairs of indices of two lists with these keys, in the order of comparison. */
  function MatchedPairs(keys1: seq<string>, keys2: seq<string>, reorder: bool): (pairs: Matches)
    ensures PairsInRange(pairs, |keys1|, |keys2|)
  {
    PairUpCoversAll(keys1, keys2);
    PresentInRange(Paired(SortedKeys(keys1), SortedKeys(keys2)), |keys1|, |keys2|);
    if reorder then
      ReorderKeepsRange(Paired(SortedKeys(keys1), SortedKeys(keys2)), |keys1|, |keys2|);
      Reordered(Paired(SortedKeys(keys1), SortedKeys(keys2)))
    else Paired(SortedKeys(keys1), SortedKeys(keys2))
  }

  lemma {:induction false} InPresent(positions: Positions, k: nat)
    requires k < |positions| && positions[k].Some?
    ensures positions[k].value in Present(positions)
  {
    if k > 0 { InPresent(positions[1..], k - 1); }
  }

  lemma PresentInRange(pairs: Matches, n1: nat, n2: nat)
    requires AllPositioned(pairs)
    requires IsPermutation(Present(Firsts(pairs)), n1) && IsPermutation(Present(Seconds(pairs)), n2)
    ensures PairsInRange(pairs, n1, n2)
  {
    forall k | 0 <= k < |pairs| ensures PairInRange(pairs[k], n1, n2) {
      if pairs[k].0.Some? { InPresent(Firsts(pairs), k); }
      if pairs[k].1.Some? { InPresent(Seconds(pairs), k); }
    }
  }

  lemma ReorderKeepsRange(pairs: Matches, n1: nat, n2: nat)
    requires AllPositioned(pairs) && PairsInRange(pairs, n1, n2)
    ensures PairsInRange(Reordered(pairs), n1, n2)
  {
    ReorderedIsPermutation(pairs);
  }

  function NodesSteps(g: Graph, nodes1: seq<Id>, nodes2: seq<Id>, reorder: bool): seq<Step>
    requires WellFormed(g)
    requires (forall id :: id in nodes1 ==> id in g) && (forall id :: id in nodes2 ==> id in g)
  {
    PairSteps(MatchedPairs(NodeKeys(g, nodes1).0, NodeKeys(g, nodes2).0, reorder), nodes1, nodes2)
  }

  // ---- enumerators ----

  function EnumeratorNames(enumerators: seq<(string, int)>): seq<string> {
    seq(|enumerators|, k requires 0 <= k < |enumerators| => enumerators[k].0)
  }

  function EnumeratorStep(
      pair: (Option<nat>, Option<nat>), enums1: seq<(string, int)>, enums2: seq<(string, int)>): seq<Step>
    requires PairInRange(pair, |enums1|, |enums2|)
  {
    match pair
    case (Some(index1), None) => [NodeStep(EnumeratorRemoved(enums1[index1].0, enums1[index1].1))]
    case (None, Some(index2)) => [NodeStep(EnumeratorAdded(enums2[index2].0, enums2[index2].1))]
    case (Some(index1), Some(index2)) =>
      AttributeSteps(Enumerator(enums1[index1].0), Number(enums1[index1].1), Number(enums2[index2].1))
  }

  function EnumeratorSteps(pairs: Matches, enums1: seq<(string, int)>, enums2: seq<(string, int)>): seq<Step>
    requires PairsInRange(pairs, |enums1|, |enums2|)
  {
    if pairs == [] then []
    else
      var n := |pairs| - 1;
      EnumeratorSteps(pairs[..n], enums1, enums2) + EnumeratorStep(pairs[n], enums1, enums2)
  }

  // ---- parameters ----

  function ParameterSteps(parameters1: seq<Parameter>, parameters2: seq<Parameter>, n: nat): seq<Step>
    requires n <= |parameters1| && n <= |parameters2|
  {
    seq(n, i requires 0 <= i < n =>
      ChildStep(ParameterEdge(i + 1, parameters1[i].name, parameters2[i].name),
                Pair(parameters1[i].typeId, parameters2[i].typeId)))
  }

  function ExtraParameterStep(parameters: seq<Parameter>, added: bool, i: nat): Step
    requires i < |parameters|
  {
    GoneStep(ExtraParameter(i + 1, parameters[i].name), OneSided(parameters[i].typeId, added))
  }

  function ExtraParameterSteps(parameters: seq<Parameter>, added: bool, min: nat): seq<Step>
    requires min <= |parameters|
  {
    seq(|parameters| - min, i requires 0 <= i < |parameters| - min =>
      ExtraParameterStep(parameters, added, min + i))
  }

  // ---- symbols ----

  type SymbolMap = seq<(SymbolKey, Id)>

  function LookupSymbol(symbols: SymbolMap, key: SymbolKey): (r: Option<Id>)
    ensures r.Some? ==> (key, r.value) in symbols
    ensures r.None? ==> forall id :: (key, id) !in symbols
  {
    if symbols == [] then None
    else if symbols[0].0 == key then Some(symbols[0].1)
    else
      assert symbols == [symbols[0]] + symbols[1..];
      LookupSymbol(symbols[1..], key)
  }

  function Quote(path: string): string {
    if path == "" || path == "vmlinux" then "" else "'" + path + "'"
  }

  /** Paths and nodes of the symbols that only the first table has. */
  function OnlyIn(symbols1: SymbolMap, symbols2: SymbolMap): seq<(string, Id)> {
    if symbols1 == [] then []
    else
      var n := |symbols1| - 1;
      var (key, id) := symbols1[n];
      if LookupSymbol(symbols2, key) == None then OnlyIn(symbols1[..n], symbols2) + [(key.path, id)]
      else OnlyIn(symbols1[..n], symbols2)
  }

  /** Paths and nodes of the symbols that both tables have. */
  function InBoth(symbols1: SymbolMap, symbols2: SymbolMap): seq<(string, Id, Id)> {
    if symbols1 == [] then []
    else
      var n := |symbols1| - 1;
      var (key, id) := symbols1[n];
      match LookupSymbol(symbols2, key)
      case Some(id2) => InBoth(symbols1[..n], symbols2) + [(key.path, id, id2)]
      case None => InBoth(symbols1[..n], symbols2)
  }

  function GoneSymbolSteps(symbols: seq<(string, Id)>, added: bool): (steps: seq<Step>)
    ensures |steps| == |symbols|
  {
    seq(|symbols|, k requires 0 <= k < |symbols| => GoneEdge(Quote(symbols[k].0), symbols[k].1, added))
  }

  function CommonSymbolSteps(symbols: seq<(string, Id, Id)>): (steps: seq<Step>)
    ensures |steps| == |symbols|
  {
    seq(|symbols|, k requires 0 <= k < |symbols| => ChildEdge(Quote(symbols[k].0), symbols[k].1, symbols[k].2))
  }

  /** First the removed symbols, then the added ones, then those on both sides. */
  function SymbolsSteps(symbols1: SymbolMap, symbols2: SymbolMap): seq<Step> {
    GoneSymbolSteps(OnlyIn(symbols1, symbols2), false)
    + GoneSymbolSteps(OnlyIn(symbols2, symbols1), true)
    + CommonSymbolSteps(InBoth(symbols1, symbols2))
  }

  /** Every key before position i of one table precedes every key from position j on of the other. */
  ghost predicate MergedUpTo(symbols1: SymbolMap, i: nat, symbols2: SymbolMap, j: nat) {
    && i <= |symbols1| && j <= |symbols2|
    && (forall k, l :: 0 <= k < i && j <= l < |symbols2| ==> symbols1[k].0.Compare(symbols2[l].0) < 0)
    && (forall k, l :: 0 <= l < j && i <= k < |symbols1| ==> symbols2[l].0.Compare(symbols1[k].0) < 0)
  }

  lemma {:induction false} LookupFinds(symbols: SymbolMap, j: nat)
    requires SortedSymbols(symbols) && j < |symbols|
    ensures LookupSymbol(symbols, symbols[j].0) == Some(symbols[j].1)
  {
  }

  lemma {:induction false} LookupMisses(symbols: SymbolMap, key: SymbolKey)
    requires forall k :: 0 <= k < |symbols| ==> symbols[k].0 != key
    ensures LookupSymbol(symbols, key) == None
  {
  }

  lemma PrecedesRest(key: SymbolKey, symbols: SymbolMap, j: nat)
    requires SortedSymbols(symbols) && j <= |symbols| && (j < |symbols| ==> key.Compare(symbols[j].0) < 0)
    ensures forall l :: j <= l < |symbols| ==> key.Compare(symbols[l].0) < 0
  {
    hide SymbolKey.Compare;
    forall l | j < l < |symbols| ensures key.Compare(symbols[l].0) < 0 {
      KeyCompareTransitive(key, symbols[j].0, symbols[l].0);
    }
  }

  /** The next symbol of the first table comes before all that is left of the second: it is gone. */
  lemma NextIsGone(symbols1: SymbolMap, i: nat, symbols2: SymbolMap, j: nat)
    requires SortedSymbols(symbols1) && SortedSymbols(symbols2) && MergedUpTo(symbols1, i, symbols2, j)
    requires i < |symbols1| && (j < |symbols2| ==> symbols1[i].0.Compare(symbols2[j].0) < 0)
    ensures LookupSymbol(symbols2, symbols1[i].0) == None && MergedUpTo(symbols1, i + 1, symbols2, j)
  {
    hide SymbolKey.Compare;
    var key := symbols1[i].0;
    PrecedesRest(key, symbols2, j);
    forall l | 0 <= l < |symbols2| ensures symbols2[l].0 != key {
      if l < j { assert symbols2[l].0.Compare(key) < 0; }
    }
    LookupMisses(symbols2, key);
  }

  lemma NextIsCommon(symbols1: SymbolMap, i: nat, symbols2: SymbolMap, j: nat)
    requires SortedSymbols(symbols1) && SortedSymbols(symbols2) && MergedUpTo(symbols1, i, symbols2, j)
    requires i < |symbols1| && j < |symbols2| && symbols1[i].0 == symbols2[j].0
    ensures LookupSymbol(symbols2, symbols1[i].0) == Some(symbols2[j].1)
    ensures LookupSymbol(symbols1, symbols2[j].0) == Some(symbols1[i].1)
    ensures MergedUpTo(symbols1, i + 1, symbols2, j + 1)
  {
    hide SymbolKey.Compare, LookupSymbol;
    LookupFinds(symbols1, i);
    LookupFinds(symbols2, j);
    forall k, l | 0 <= k < i + 1 && j + 1 <= l < |symbols2| ensures symbols1[k].0.Compare(symbols2[l].0) < 0 {
      if k == i { assert symbols2[j].0.Compare(symbols2[l].0) < 0; }
    }
    forall k, l | 0 <= l < j + 1 && i + 1 <= k < |symbols1| ensures symbols2[l].0.Compare(symbols1[k].0) < 0 {
      if l == j { assert symbols1[i].0.Compare(symbols1[k].0) < 0; }
    }
  }

  /** What one more symbol adds to the split. */
  lemma OneMoreSymbol(symbols1: SymbolMap, i: nat, symbols2: SymbolMap)
    requires i < |symbols1|
    ensures var (key, id) := symbols1[i];
            var found := LookupSymbol(symbols2, key);
            && OnlyIn(symbols1[..i + 1], symbols2)
               == OnlyIn(symbols1[..i], symbols2) + (if found == None then [(key.path, id)] else [])
            && InBoth(symbols1[..i + 1], symbols2)
               == InBoth(symbols1[..i], symbols2) + (if found == None then [] else [(key.path, id, found.value)])
  {
    hide LookupSymbol;
    assert symbols1[..i + 1][..i] == symbols1[..i];
  }

  // ---- one pair of nodes ----

  /** bytesize * 8 in 32 bits. */
  function Bits(bytesize: nat): nat {
    bytesize * 8 % 0x1_0000_0000
  }

  function IntegerSteps(a: Node, b: Node): (steps: seq<Step>)
    requires a.Integer? && b.Integer?
    ensures AllNodeSteps(steps)
  {
    AttributeSteps(Attribute("encoding"), EncodingValue(a.encoding), EncodingValue(b.encoding))
    + NumberSteps("bit size", a.bitsize, b.bitsize)
    + if a.bitsize != Bits(a.bytesize) && b.bitsize != Bits(b.bytesize)
      then NumberSteps("byte size", a.bytesize, b.bytesize) else []
  }

  function DefinedSteps(defined1: bool, defined2: bool, ignoreDiff: bool): seq<Step> {
    if !ignoreDiff && defined1 != defined2 then [NodeStep(Declared(defined1, defined2))] else []
  }

  function StructSteps(g: Graph, d1: StructDefinition, d2: StructDefinition): seq<Step>
    requires WellFormed(g)
    requires forall id :: id in d1.baseClasses + d1.methods + d1.members ==> id in g
    requires forall id :: id in d2.baseClasses + d2.methods + d2.members ==> id in g
  {
    NumberSteps("byte size", d1.bytesize, d2.bytesize)
    + NodesSteps(g, d1.baseClasses, d2.baseClasses, true)
    + NodesSteps(g, d1.methods, d2.methods, false)
    + NodesSteps(g, d1.members, d2.members, true)
  }

  function EnumSteps(d1: EnumDefinition, d2: EnumDefinition): seq<Step> {
    var names1, names2 := EnumeratorNames(d1.enumerators), EnumeratorNames(d2.enumerators);
    NumberSteps("byte size", d1.bytesize, d2.bytesize)
    + EnumeratorSteps(MatchedPairs(names1, names2, true), d1.enumerators, d2.enumerators)
  }

  function FunctionSteps(a: Node, b: Node): seq<Step>
    requires a.Function? && b.Function?
  {
    var n1, n2 := |a.parameters|, |b.parameters|;
    var min := if n1 < n2 then n1 else n2;
    [ChildEdge("return", a.returnTypeId, b.returnTypeId)]
    + ParameterSteps(a.parameters, b.parameters, min)
    + ExtraParameterSteps(if n1 < n2 then b.parameters else a.parameters, n1 < n2, min)
  }

  function VersionSteps(v1: Option<VersionInfo>, v2: Option<VersionInfo>): (steps: seq<Step>)
    ensures AllNodeSteps(steps)
  {
    if v1.Some? && v2.Some? then
      AttributeSteps(Attribute("version"), Text(v1.value.name), Text(v2.value.name))
      + AttributeSteps(Attribute("default version"), Flag(v1.value.isDefault), Flag(v2.value.isDefault))
    else AttributeSteps(Attribute("has version"), Flag(v1.Some?), Flag(v2.Some?))
  }

  function MapNumber(n: Option<nat>): Option<Value> {
    match n
    case Some(x) => Some(Number(x))
    case None => None
  }

  function SymbolTypeSteps(id1: Option<Id>, id2: Option<Id>, ignore: bool): seq<Step> {
    if id1.Some? && id2.Some? then [ChildEdge("", id1.value, id2.value)]
    else if id1.Some? && !ignore then [GoneEdge("", id1.value, false)]
    else if id2.Some? && !ignore then [GoneEdge("", id2.value, true)]
    else []
  }

  function SymbolAttributeSteps(a: Node, b: Node): (steps: seq<Step>)
    requires a.ElfSymbol? && b.ElfSymbol?
    ensures AllNodeSteps(steps)
  {
    AttributeSteps(Attribute("name"), Text(a.symbolName), Text(b.symbolName))
    + VersionSteps(a.versionInfo, b.versionInfo)
    + AttributeSteps(Attribute("defined"), Flag(a.isDefined), Flag(b.isDefined))
    + AttributeSteps(Attribute("symbol type"), SymbolTypeValue(a.symbolType), SymbolTypeValue(b.symbolType))
    + AttributeSteps(Attribute("binding"), BindingValue(a.binding), BindingValue(b.binding))
    + AttributeSteps(Attribute("visibility"), VisibilityValue(a.visibility), VisibilityValue(b.visibility))
    + OptionalAttributeSteps(Attribute("CRC"), MapNumber(a.crc), MapNumber(b.crc))
  }

  /** The comparison of two nodes that are neither qualified nor typedefs. */
  function NodeScript(p: Problem, a: Node, b: Node): Script
    requires WellFormed(p.graph) && References(a) <= p.graph.Keys && References(b) <= p.graph.Keys
    requires !a.Qualified? && !b.Qualified? && !a.Typedef? && !b.Typedef?
  {
    match (a, b)
    case (Void, Void) => Script(false, false, [])
    case (Variadic, Variadic) => Script(false, false, [])
    case (PointerReference(kind1, id1), PointerReference(kind2, id2)) =>
      if kind1 != kind2 then INCOMPARABLE
      else Script(false, false, [ChildEdge(if kind1 == PTR then "pointed-to" else "referred-to", id1, id2)])
    case (Integer(_, _, _, _), Integer(_, _, _, _)) => Script(false, false, IntegerSteps(a, b))
    case (Array(n1, id1), Array(n2, id2)) =>
      Script(false, false, NumberSteps("number of elements", n1, n2) + [ChildEdge("element", id1, id2)])
    case (BaseClass(id1, offset1, inheritance1), BaseClass(id2, offset2, inheritance2)) =>
      Script(false, false,
             AttributeSteps(Attribute("inheritance"), InheritanceValue(inheritance1), InheritanceValue(inheritance2))
             + NumberSteps("offset", offset1, offset2) + [ChildEdge("", id1, id2)])
    case (Member(_, id1, offset1, bitsize1), Member(_, id2, offset2, bitsize2)) =>
      Script(false, false,
             NumberSteps("offset", offset1, offset2) + NumberSteps("size", bitsize1, bitsize2)
                 + [ChildEdge("", id1, id2)])
    case (Method(_, _, kind1, vtable1, id1), Method(_, _, kind2, vtable2, id2)) =>
      Script(false, false,
             AttributeSteps(Attribute("kind"), MethodKindValue(kind1), MethodKindValue(kind2))
             + OptionalAttributeSteps(Attribute("vtable offset"), MapNumber(vtable1), MapNumber(vtable2))
             + [ChildEdge("", id1, id2)])
    case (StructUnion(kind1, name1, d1), StructUnion(kind2, name2, d2)) =>
      if kind1 != kind2 || name1 != name2 then INCOMPARABLE
      else Script(name1 != "", false,
                  if d1.Some? && d2.Some? then StructSteps(p.graph, d1.value, d2.value)
                  else DefinedSteps(d1.Some?, d2.Some?, p.options.ignoreTypeDeclarationStatusChanges))
    case (Enumeration(name1, d1), Enumeration(name2, d2)) =>
      if name1 != name2 then INCOMPARABLE
      else Script(name1 != "", false,
                  if d1.Some? && d2.Some? then EnumSteps(d1.value, d2.value)
                  else DefinedSteps(d1.Some?, d2.Some?, p.options.ignoreTypeDeclarationStatusChanges))
    case (Function(_, _), Function(_, _)) => Script(false, false, FunctionSteps(a, b))
    case (ElfSymbol(_, _, _, _, _, _, _, id1, _), ElfSymbol(_, _, _, _, _, _, _, id2, _)) =>
      Script(false, false,
             SymbolAttributeSteps(a, b) + SymbolTypeSteps(id1, id2, p.options.ignoreSymbolTypePresenceChanges))
    case (Symbols(s1), Symbols(s2)) =>
      Script(true, false, SymbolsSteps(s1, s2))
    case _ => INCOMPARABLE
  }

  ghost predicate InDomain(p: Problem, c: Comparison) {
    TwoSided(c) && c.first.value in p.graph && c.second.value in p.graph
  }

  /** What Compare does with a pair it has not met before. */
  function CompareScript(p: Problem, c: Comparison): Script
    requires WellFormed(p.graph) && InDomain(p, c)
  {
    var g := p.graph;
    var (unqualified1, qualifiers1) := Unqualified(g, c.first.value, {});
    var (unqualified2, qualifiers2) := Unqualified(g, c.second.value, {});
    if qualifiers1 != {} || qualifiers2 != {} then
      Script(false, false,
             QualifierSteps(qualifiers1, qualifiers2) + [ChildEdge("underlying", unqualified1, unqualified2)])
    else
      var (resolved1, typedefs1) := Resolved(g, unqualified1, []);
      var (resolved2, typedefs2) := Resolved(g, unqualified2, []);
      if unqualified1 != resolved1 || unqualified2 != resolved2 then
        Script(typedefs1 != [] && typedefs2 != [] && typedefs1[0] == typedefs2[0], false,
               [ChildEdge("resolved", resolved1, resolved2)])
      else NodeScript(p, g[unqualified1], g[unqualified2])
  }

  // ---- the steps stay in the graph ----

  lemma {:induction false} InBothWithin(ids1: set<Id>, ids2: set<Id>, symbols1: SymbolMap, symbols2: SymbolMap)
    requires forall s :: s in symbols1 ==> s.1 in ids1
    requires forall s :: s in symbols2 ==> s.1 in ids2
    ensures forall s :: s in InBoth(symbols1, symbols2) ==> s.1 in ids1 && s.2 in ids2
    decreases |symbols1|
  {
    if symbols1 != [] {
      InBothWithin(ids1, ids2, symbols1[..|symbols1| - 1], symbols2);
      assert symbols1[|symbols1| - 1] in symbols1;
    }
  }

  lemma {:induction false} EnumStepsWithin(
      ids1: set<Id>, ids2: set<Id>, pairs: Matches, enums1: seq<(string, int)>, enums2: seq<(string, int)>)
    requires PairsInRange(pairs, |enums1|, |enums2|)
    ensures Within(ids1, ids2, EnumeratorSteps(pairs, enums1, enums2))
  {
    if pairs != [] {
      EnumStepsWithin(ids1, ids2, pairs[..|pairs| - 1], enums1, enums2);
    }
  }

  lemma FunctionStepsWithin(a: Node, b: Node)
    requires a.Function? && b.Function?
    ensures Within(References(a), References(b), FunctionSteps(a, b))
  {
    var ids1, ids2 := References(a), References(b);
    forall i | 0 <= i < |a.parameters| ensures a.parameters[i].typeId in ids1 {
      assert a.parameters[i] in a.parameters;
    }
    forall i | 0 <= i < |b.parameters| ensures b.parameters[i].typeId in ids2 {
      assert b.parameters[i] in b.parameters;
    }
    var n1, n2 := |a.parameters|, |b.parameters|;
    var min := if n1 < n2 then n1 else n2;
    ParametersWithin(ids1, ids2, a.parameters, b.parameters, min);
    ExtraWithin(ids1, ids2, if n1 < n2 then b.parameters else a.parameters, n1 < n2, min);
    hide ParameterSteps, ExtraParameterSteps;
  }

  lemma ParametersWithin(
      ids1: set<Id>, ids2: set<Id>, parameters1: seq<Parameter>, parameters2: seq<Parameter>, n: nat)
    requires n <= |parameters1| && n <= |parameters2|
    requires forall i :: 0 <= i < |parameters1| ==> parameters1[i].typeId in ids1
    requires forall i :: 0 <= i < |parameters2| ==> parameters2[i].typeId in ids2
    ensures Within(ids1, ids2, ParameterSteps(parameters1, parameters2, n))
  {
  }

  lemma ExtraWithin(ids1: set<Id>, ids2: set<Id>, parameters: seq<Parameter>, added: bool, min: nat)
    requires min <= |parameters|
    requires forall i :: 0 <= i < |parameters| ==> parameters[i].typeId in if added then ids2 else ids1
    ensures Within(ids1, ids2, ExtraParameterSteps(parameters, added, min))
  {
    var steps := ExtraParameterSteps(parameters, added, min);
    forall k | 0 <= k < |steps| ensures StepWithin(ids1, ids2, steps[k]) {
      assert steps[k] == ExtraParameterStep(parameters, added, min + k);
    }
  }

  lemma NodesStepsWithin(g: Graph, ids1: set<Id>, ids2: set<Id>, nodes1: seq<Id>, nodes2: seq<Id>, reorder: bool)
    requires WellFormed(g) && ids1 <= g.Keys && ids2 <= g.Keys
    requires (forall id :: id in nodes1 ==> id in ids1) && (forall id :: id in nodes2 ==> id in ids2)
    ensures Within(ids1, ids2, NodesSteps(g, nodes1, nodes2, reorder))
  {
    hide WellFormed, MatchedPairs, NodeKeys;
    var pairs := MatchedPairs(NodeKeys(g, nodes1).0, NodeKeys(g, nodes2).0, reorder);
    forall k | 0 <= k < |pairs| ensures StepWithin(ids1, ids2, PairStep(pairs[k], nodes1, nodes2)) {
      assert PairInRange(pairs[k], |nodes1|, |nodes2|);
    }
  }

  lemma StructStepsWithin(g: Graph, ids1: set<Id>, ids2: set<Id>, d1: StructDefinition, d2: StructDefinition)
    requires WellFormed(g) && ids1 <= g.Keys && ids2 <= g.Keys
    requires forall id :: id in d1.baseClasses + d1.methods + d1.members ==> id in ids1
    requires forall id :: id in d2.baseClasses + d2.methods + d2.members ==> id in ids2
    ensures Within(ids1, ids2, StructSteps(g, d1, d2))
  {
    hide WellFormed, NodesSteps, StepWithin;
    NodesStepsWithin(g, ids1, ids2, d1.baseClasses, d2.baseClasses, true);
    NodesStepsWithin(g, ids1, ids2, d1.methods, d2.methods, false);
    NodesStepsWithin(g, ids1, ids2, d1.members, d2.members, true);
    NoChildren(ids1, ids2, NumberSteps("byte size", d1.bytesize, d2.bytesize));
  }

  lemma NoChildren(ids1: set<Id>, ids2: set<Id>, steps: seq<Step>)
    requires AllNodeSteps(steps)
    ensures Within(ids1, ids2, steps)
  {
  }

  predicate HasParts(node: Node) {
    node.StructUnion? || node.Enumeration? || node.Function? || node.Symbols?
  }

  /** Comparing two nodes leads to comparing the nodes they refer to. */
  lemma NodeScriptWithin(p: Problem, a: Node, b: Node)
    requires WellFormed(p.graph) && References(a) <= p.graph.Keys && References(b) <= p.graph.Keys
    requires !a.Qualified? && !b.Qualified? && !a.Typedef? && !b.Typedef?
    ensures Within(References(a), References(b), NodeScript(p, a, b).steps)
  {
    if HasParts(a) && HasParts(b) {
      PartsScriptWithin(p, a, b);
    } else {
      PlainScriptWithin(p, a, b);
    }
  }

  lemma PlainScriptWithin(p: Problem, a: Node, b: Node)
    requires WellFormed(p.graph) && References(a) <= p.graph.Keys && References(b) <= p.graph.Keys
    requires !a.Qualified? && !b.Qualified? && !a.Typedef? && !b.Typedef?
    requires !HasParts(a) || !HasParts(b)
    ensures Within(References(a), References(b), NodeScript(p, a, b).steps)
  {
    hide WellFormed, StructSteps, EnumSteps, FunctionSteps, SymbolsSteps,
         IntegerSteps, SymbolAttributeSteps, NumberSteps, AttributeSteps, OptionalAttributeSteps;
  }

  lemma PartsScriptWithin(p: Problem, a: Node, b: Node)
    requires WellFormed(p.graph) && References(a) <= p.graph.Keys && References(b) <= p.graph.Keys
    requires HasParts(a) && HasParts(b)
    ensures Within(References(a), References(b), NodeScript(p, a, b).steps)
  {
    hide WellFormed, StructSteps, EnumeratorSteps, FunctionSteps, SymbolsSteps, MatchedPairs;
    var ids1, ids2 := References(a), References(b);
    if a.StructUnion? && b.StructUnion? {
      if a.structDefinition.Some? && b.structDefinition.Some? {
        StructStepsWithin(p.graph, ids1, ids2, a.structDefinition.value, b.structDefinition.value);
      }
    } else if a.Enumeration? && b.Enumeration? {
      if a.enumDefinition.Some? && b.enumDefinition.Some? {
        var e1, e2 := a.enumDefinition.value.enumerators, b.enumDefinition.value.enumerators;
        EnumStepsWithin(ids1, ids2, MatchedPairs(EnumeratorNames(e1), EnumeratorNames(e2), true), e1, e2);
      }
    } else if a.Function? && b.Function? {
      FunctionStepsWithin(a, b);
    } else if a.Symbols? && b.Symbols? {
      SymbolsWithin(a, b);
    }
  }

  lemma {:induction false} OnlyInWithin(ids: set<Id>, symbols1: SymbolMap, symbols2: SymbolMap)
    requires forall s :: s in symbols1 ==> s.1 in ids
    ensures forall s :: s in OnlyIn(symbols1, symbols2) ==> s.1 in ids
  {
    if symbols1 != [] {
      OnlyInWithin(ids, symbols1[..|symbols1| - 1], symbols2);
      assert symbols1[|symbols1| - 1] in symbols1;
    }
  }

  lemma GoneWithin(ids1: set<Id>, ids2: set<Id>, symbols: seq<(string, Id)>, added: bool)
    requires forall s :: s in symbols ==> s.1 in if added then ids2 else ids1
    ensures Within(ids1, ids2, GoneSymbolSteps(symbols, added))
  {
    hide Quote;
    assert forall k :: 0 <= k < |symbols| ==> symbols[k] in symbols;
  }

  lemma CommonWithin(ids1: set<Id>, ids2: set<Id>, symbols: seq<(string, Id, Id)>)
    requires forall s :: s in symbols ==> s.1 in ids1 && s.2 in ids2
    ensures Within(ids1, ids2, CommonSymbolSteps(symbols))
  {
    hide Quote;
    assert forall k :: 0 <= k < |symbols| ==> symbols[k] in symbols;
  }

  lemma SymbolsWithin(a: Node, b: Node)
    requires a.Symbols? && b.Symbols?
    ensures Within(References(a), References(b), SymbolsSteps(a.symbols, b.symbols))
  {
    InBothWithin(References(a), References(b), a.symbols, b.symbols);
    OnlyInWithin(References(a), a.symbols, b.symbols);
    OnlyInWithin(References(b), b.symbols, a.symbols);
    hide InBoth, OnlyIn, References, GoneSymbolSteps, CommonSymbolSteps, StepWithin;
    GoneWithin(References(a), References(b), OnlyIn(a.symbols, b.symbols), false);
    GoneWithin(References(a), References(b), OnlyIn(b.symbols, a.symbols), true);
    CommonWithin(References(a), References(b), InBoth(a.symbols, b.symbols));
  }

  lemma ScriptInGraph(p: Problem, c: Comparison)
    requires WellFormed(p.graph) && InDomain(p, c)
    ensures InGraph(p.graph, CompareScript(p, c).steps)
  {
    hide NodeScript;
    var g := p.graph;
    var (unqualified1, qualifiers1) := Unqualified(g, c.first.value, {});
    var (unqualified2, qualifiers2) := Unqualified(g, c.second.value, {});
    if qualifiers1 == {} && qualifiers2 == {} &&
       Resolved(g, unqualified1, []).0 == unqualified1 && Resolved(g, unqualified2, []).0 == unqualified2 {
      NodeScriptWithin(p, g[unqualified1], g[unqualified2]);
    }
  }
}

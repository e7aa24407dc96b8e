/** Comparison of two nodes of a type graph: Compare and the Equals methods of stg.cc. */
module Compare {
  import opened Wrappers
  import opened Reachability
  import opened Sequences
  import opened Strings
  import opened Graph
  import opened Order
  import opened Matching
  import opened Scc
  import opened SccSearch
  import opened Diffs
  import opened Scripts
  import opened Verdicts
  import opened CompareInvariant
  import opened CompareSteps
  import opened CompareProtocol
  import opened ScriptCases

  class State {
    const graph: Graph
    const options: CompareOptions
    var known: map<Comparison, bool>
    var outcomes: map<Comparison, Diff>
    var provisional: map<Comparison, Diff>
    const scc: SCC<Comparison>
    /** The pairs examined so far, in order. */
    ghost var examined: seq<Comparison>

    ghost function P(): Problem {
      Problem(graph, options)
    }

    ghost function View(): StateView
      reads this, scc
    {
      StateView(known, outcomes, provisional, scc.View())
    }

    ghost predicate Valid()
      reads this, scc
    {
      && WellFormed(graph) && scc.Valid() && StateInv(P(), View())
      // every pair is examined at most once
      && Distinct(examined) && Elements(examined) == Seen(scc.View())
    }

    constructor (graph: Graph, options: CompareOptions)
      requires WellFormed(graph)
      ensures Valid() && fresh(scc) && this.graph == graph && this.options == options
      ensures known == map[] && outcomes == map[] && scc.path == []
    {
      this.graph, this.options := graph, options;
      known, outcomes, provisional := map[], map[], map[];
      scc := new SCC<Comparison>();
      examined := [];
    }

    ghost function Unseen(): set<Comparison>
      reads this, scc
    {
      Domain(P()) - Seen(scc.View())
    }

    /** u is under examination since state s0, and the result tells what has happened so far. */
    ghost predicate Running(s0: StateView, u: Comparison, result: Result)
      reads this, scc, result
    {
      && Valid() && InDomain(P(), u) && result.Valid()
      && Tracks(P(), View(), u, result.events) && Grows(P(), s0, View(), u)
    }

    // ---- one step of an examination ----

    lemma NotedKeepsRunning(s0: StateView, u: Comparison, result: Result, events: seq<Event>, steps: seq<Step>)
      requires Valid() && InDomain(P(), u) && result.Valid()
      requires Tracks(P(), View(), u, events) && Grows(P(), s0, View(), u)
      requires result.events == events + Noted(steps)
      requires forall step :: step in steps ==> step.NodeStep? || (step.GoneStep? && step.edge in outcomes)
      ensures Running(s0, u, result)
    {
      hide StateInv, Grows, Tracks, SCC.Valid;
      TracksNoted(P(), View(), u, events, steps);
    }

    method MaybeNodeDiff(
        ghost s0: StateView, ghost u: Comparison, result: Result, attribute: Label, before: Value, after: Value)
      requires Running(s0, u, result)
      modifies result
      ensures Running(s0, u, result)
      ensures result.Log() == old(result.Log()).Then(AttributeSteps(attribute, before, after))
    {
      hide StateInv, Grows, Tracks, SCC.Valid, Summarises, AttributeSteps;
      ghost var events := result.events;
      result.MaybeAddNodeDiff(attribute, before, after);
      NotedKeepsRunning(s0, u, result, events, AttributeSteps(attribute, before, after));
    }

    method MaybeOptionalNodeDiff(
        ghost s0: StateView, ghost u: Comparison, result: Result, attribute: Label, before: Option<Value>,
        after: Option<Value>)
      requires Running(s0, u, result)
      modifies result
      ensures Running(s0, u, result)
      ensures result.Log() == old(result.Log()).Then(OptionalAttributeSteps(attribute, before, after))
    {
      hide StateInv, Grows, Tracks, SCC.Valid, Summarises, OptionalAttributeSteps;
      ghost var events := result.events;
      result.MaybeAddOptionalNodeDiff(attribute, before, after);
      NotedKeepsRunning(s0, u, result, events, OptionalAttributeSteps(attribute, before, after));
    }

    method NodeDiff(ghost s0: StateView, ghost u: Comparison, result: Result, text: DetailText)
      requires Running(s0, u, result)
      modifies result
      ensures Running(s0, u, result)
      ensures result.Log() == old(result.Log()).Then([NodeStep(text)])
    {
      hide StateInv, Grows, Tracks, SCC.Valid, Summarises;
      ghost var events := result.events;
      result.AddNodeDiff(text);
      NotedKeepsRunning(s0, u, result, events, [NodeStep(text)]);
    }

    method Removed(node: Id) returns (comparison: Comparison)
      modifies this`outcomes
      ensures comparison == Comparison(Some(node), None)
      ensures outcomes == Inserted(old(outcomes), comparison, NO_DIFF)
    {
      comparison := Comparison(Some(node), None);
      outcomes := Inserted(outcomes, comparison, NO_DIFF);
    }

    method Added(node: Id) returns (comparison: Comparison)
      modifies this`outcomes
      ensures comparison == Comparison(None, Some(node))
      ensures outcomes == Inserted(old(outcomes), comparison, NO_DIFF)
    {
      comparison := Comparison(None, Some(node));
      outcomes := Inserted(outcomes, comparison, NO_DIFF);
    }

    /** Takes a step to a node that only one side has. */
    method GoneDiff(ghost s0: StateView, ghost u: Comparison, result: Result, text: DetailText, node: Id, added: bool)
      requires Running(s0, u, result)
      requires GoneStep(text, OneSided(node, added)) in CompareScript(P(), u).steps
      modifies this, result
      ensures Running(s0, u, result)
      ensures result.Log() == old(result.Log()).Then([GoneStep(text, OneSided(node, added))])
      ensures scc.View() == old(scc.View())
    {
      hide StateInv, Grows, Tracks, SCC.Valid, Summarises, CompareScript;
      ghost var s, events := View(), result.events;
      var comparison;
      if added {
        comparison := Added(node);
      } else {
        comparison := Removed(node);
      }
      GoneRecorded(P(), s, u, events, comparison);
      GrowsTrans(P(), s0, s, View(), u);
      result.AddEdgeDiff(text, comparison);
      NotedKeepsRunning(s0, u, result, events, [GoneStep(text, comparison)]);
    }

    /** The comparison of two children. */
    method ChildDiff(ghost s0: StateView, ghost u: Comparison, result: Result, text: DetailText, id1: Id, id2: Id)
      requires Running(s0, u, result)
      requires ChildStep(text, Pair(id1, id2)) in CompareScript(P(), u).steps
      modifies this, scc, result
      ensures Running(s0, u, result)
      ensures result.Log() == old(result.Log()).Then([ChildStep(text, Pair(id1, id2))])
      ensures Unseen() <= old(Unseen())
      decreases Unseen(), 1
    {
      hide StateInv, Grows, Tracks, SCC.Valid, Summarises, CompareScript, Compared, MayFollow;
      ghost var s, events := View(), result.events;
      ChildMayFollow(P(), s, u, events, text, Pair(id1, id2));
      var equals, comparison := Compare(id1, id2);
      ChildAnswered(P(), s0, s, View(), u, events, text, Pair(id1, id2), equals, comparison);
      result.MaybeAddEdgeDiff(text, equals, comparison, Pair(id1, id2));
    }

    // ---- the Equals methods ----

    /** u has just been opened, and it comes down to comparing these two nodes. */
    ghost predicate Starting(u: Comparison, a: Node, b: Node)
      reads this, scc
    {
      && WellFormed(graph) && InDomain(P(), u) && Valid() && Tracks(P(), View(), u, [])
      && References(a) <= graph.Keys && References(b) <= graph.Keys
      && !a.Qualified? && !b.Qualified? && !a.Typedef? && !b.Typedef?
      && CompareScript(P(), u) == NodeScript(P(), a, b)
    }

    ghost predicate StartingAlike(u: Comparison, a: Node, b: Node)
      reads this, scc
    {
      && Starting(u, a, b) && KindOf(a) == KindOf(b)
      && (a.Symbols? && b.Symbols? ==> SortedSymbols(a.symbols) && SortedSymbols(b.symbols))
    }

    method NewResult(ghost u: Comparison) returns (result: Result)
      requires Valid() && InDomain(P(), u) && Tracks(P(), View(), u, [])
      ensures fresh(result) && Running(View(), u, result) && result.Log() == NOTHING_DONE
    {
      hide StateInv, Tracks, SCC.Valid, Summarises;
      result := new Result();
      GrowsSelf(P(), View(), u);
    }

    method MarkIncomparable(ghost s0: StateView, ghost u: Comparison, result: Result)
      requires Running(s0, u, result)
      modifies result
      ensures Running(s0, u, result)
      ensures result.Log() == old(result.Log()).(incomparable := true)
    {
      hide StateInv, Grows, Tracks, SCC.Valid, Summarises;
      result.MarkIncomparable();
    }

    method HoldChanges(ghost s0: StateView, ghost u: Comparison, result: Result, holds: bool)
      requires Running(s0, u, result)
      modifies result
      ensures Running(s0, u, result)
      ensures result.Log() == old(result.Log()).(holdsChanges := holds)
    {
      hide StateInv, Grows, Tracks, SCC.Valid, Summarises;
      result.HoldChanges(holds);
    }

    method EqualsPointerReference(ghost u: Comparison, a: Node, b: Node) returns (result: Result)
      requires Starting(u, a, b) && a.PointerReference? && b.PointerReference?
      modifies this, scc
      ensures fresh(result) && Running(old(View()), u, result) && result.Log() == CompareScript(P(), u)
      decreases Unseen(), 5
    {
      hide Valid, Running, Tracks, CompareScript, Script.Then;
      ghost var s0 := View();
      result := NewResult(u);
      if a.pointerKind != b.pointerKind {
        MarkIncomparable(s0, u, result);
        return;
      }
      PointerReferenceScript(P(), a, b);
      var text := if a.pointerKind == PTR then "pointed-to" else "referred-to";
      ChildDiff(s0, u, result, Edge(text), a.pointeeTypeId, b.pointeeTypeId);
    }

    method EqualsInteger(ghost u: Comparison, a: Node, b: Node) returns (result: Result)
      requires Starting(u, a, b) && a.Integer? && b.Integer?
      modifies this, scc
      ensures fresh(result) && Running(old(View()), u, result) && result.Log() == CompareScript(P(), u)
    {
      hide Valid, Running, Tracks, AttributeSteps, OptionalAttributeSteps, NodeScript, CompareScript, IntegerSteps,
           Script.Then;
      IntegerScript(P(), a, b);
      ghost var s0 := View();
      result := NewResult(u);
      MaybeNodeDiff(s0, u, result, Attribute("encoding"), EncodingValue(a.encoding), EncodingValue(b.encoding));
      MaybeNodeDiff(s0, u, result, Attribute("bit size"), Number(a.bitsize), Number(b.bitsize));
      if a.bitsize != Bits(a.bytesize) && b.bitsize != Bits(b.bytesize) {
        MaybeNodeDiff(s0, u, result, Attribute("byte size"), Number(a.bytesize), Number(b.bytesize));
      } else {
        ThenNothing(result.Log());
      }
    }

    method EqualsArray(ghost u: Comparison, a: Node, b: Node) returns (result: Result)
      requires Starting(u, a, b) && a.Array? && b.Array?
      modifies this, scc
      ensures fresh(result) && Running(old(View()), u, result) && result.Log() == CompareScript(P(), u)
      decreases Unseen(), 5
    {
      hide Valid, Running, Tracks, AttributeSteps, OptionalAttributeSteps, NodeScript, CompareScript, IntegerSteps,
           Script.Then;
      ArrayScript(P(), a, b);
      ghost var s0 := View();
      result := NewResult(u);
      MaybeNodeDiff(s0, u, result, Attribute("number of elements"), Number(a.numberOfElements),
                    Number(b.numberOfElements));
      ChildDiff(s0, u, result, Edge("element"), a.elementTypeId, b.elementTypeId);
    }

    method EqualsBaseClass(ghost u: Comparison, a: Node, b: Node) returns (result: Result)
      requires Starting(u, a, b) && a.BaseClass? && b.BaseClass?
      modifies this, scc
      ensures fresh(result) && Running(old(View()), u, result) && result.Log() == CompareScript(P(), u)
      decreases Unseen(), 5
    {
      hide Valid, Running, Tracks, AttributeSteps, OptionalAttributeSteps, NodeScript, CompareScript, IntegerSteps,
           Script.Then;
      BaseClassScript(P(), a, b);
      ghost var s0 := View();
      result := NewResult(u);
      MaybeNodeDiff(s0, u, result, Attribute("inheritance"), InheritanceValue(a.inheritance),
                    InheritanceValue(b.inheritance));
      MaybeNodeDiff(s0, u, result, Attribute("offset"), Number(a.offset), Number(b.offset));
      ChildDiff(s0, u, result, Edge(""), a.typeId, b.typeId);
    }

    method EqualsMember(ghost u: Comparison, a: Node, b: Node) returns (result: Result)
      requires Starting(u, a, b) && a.Member? && b.Member?
      modifies this, scc
      ensures fresh(result) && Running(old(View()), u, result) && result.Log() == CompareScript(P(), u)
      decreases Unseen(), 5
    {
      hide Valid, Running, Tracks, AttributeSteps, OptionalAttributeSteps, NodeScript, CompareScript, IntegerSteps,
           Script.Then;
      MemberScript(P(), a, b);
      ghost var s0 := View();
      result := NewResult(u);
      MaybeNodeDiff(s0, u, result, Attribute("offset"), Number(a.offset), Number(b.offset));
      MaybeNodeDiff(s0, u, result, Attribute("size"), Number(a.bitsize), Number(b.bitsize));
      ChildDiff(s0, u, result, Edge(""), a.typeId, b.typeId);
    }

    method EqualsMethod(ghost u: Comparison, a: Node, b: Node) returns (result: Result)
      requires Starting(u, a, b) && a.Method? && b.Method?
      modifies this, scc
      ensures fresh(result) && Running(old(View()), u, result) && result.Log() == CompareScript(P(), u)
      decreases Unseen(), 5
    {
      hide Valid, Running, Tracks, AttributeSteps, OptionalAttributeSteps, NodeScript, CompareScript, IntegerSteps,
           Script.Then;
      MethodScript(P(), a, b);
      ghost var s0 := View();
      result := NewResult(u);
      MaybeNodeDiff(s0, u, result, Attribute("kind"), MethodKindValue(a.methodKind), MethodKindValue(b.methodKind));
      MaybeOptionalNodeDiff(s0, u, result, Attribute("vtable offset"), MapNumber(a.vtableOffset),
                            MapNumber(b.vtableOffset));
      ChildDiff(s0, u, result, Edge(""), a.typeId, b.typeId);
    }

    /** Whether both nodes are defined; if just one is, that may be a difference. */
    method CompareDefined(
        ghost s0: StateView, ghost u: Comparison, result: Result, defined1: bool, defined2: bool, ignoreDiff: bool)
      returns (both: bool)
      requires Running(s0, u, result)
      modifies result
      ensures Running(s0, u, result) && both == (defined1 && defined2)
      ensures result.Log() == old(result.Log()).Then(if both then [] else DefinedSteps(defined1, defined2, ignoreDiff))
    {
      hide Running;
      if defined1 && defined2 {
        return true;
      }
      if !ignoreDiff && defined1 != defined2 {
        NodeDiff(s0, u, result, Declared(defined1, defined2));
      }
      return false;
    }

    /** The pairs of indices in which the nodes are compared. */
    method PairNodes(nodes1: seq<Id>, nodes2: seq<Id>, reorder: bool) returns (pairs: Matches)
      requires WellFormed(graph)
      requires (forall id :: id in nodes1 ==> id in graph) && (forall id :: id in nodes2 ==> id in graph)
      ensures pairs == MatchedPairs(NodeKeys(graph, nodes1).0, NodeKeys(graph, nodes2).0, reorder)
    {
      hide WellFormed, Paired, Reordered, SortedKeys;
      var keys1 := MatchingKeys(graph, nodes1);
      var keys2 := MatchingKeys(graph, nodes2);
      pairs := PairUp(keys1, keys2);
      if reorder {
        pairs := ReorderPairs(pairs, NodeKeys(graph, nodes1).0, NodeKeys(graph, nodes2).0);
      }
    }

    method CompareNodes(
        ghost s0: StateView, ghost u: Comparison, result: Result, nodes1: seq<Id>, nodes2: seq<Id>, reorder: bool)
      requires Running(s0, u, result) && WellFormed(graph) && InDomain(P(), u)
      requires (forall id :: id in nodes1 ==> id in graph) && (forall id :: id in nodes2 ==> id in graph)
      requires forall step :: step in NodesSteps(graph, nodes1, nodes2, reorder) ==> step in CompareScript(P(), u).steps
      modifies this, scc, result
      ensures Running(s0, u, result)
      ensures result.Log() == old(result.Log()).Then(NodesSteps(graph, nodes1, nodes2, reorder))
      ensures Unseen() <= old(Unseen())
      decreases Unseen(), 3
    {
      hide WellFormed, Running, CompareScript, MatchedPairs, NodeKeys, PairStep;
      var pairs := PairNodes(nodes1, nodes2, reorder);
      ghost var steps := NodesSteps(graph, nodes1, nodes2, reorder);
      for k := 0 to |pairs|
        invariant Running(s0, u, result)
        invariant result.Log() == old(result.Log()).Then(steps[..k])
        invariant Unseen() <= old(Unseen())
      {
        assert steps[k] == PairStep(pairs[k], nodes1, nodes2) && steps[k] in steps;
        assert steps[..k + 1] == steps[..k] + [steps[k]];
        ComparePair(s0, u, result, nodes1, nodes2, pairs[k]);
      }
      assert steps[..|pairs|] == steps;
    }

    method ComparePair(
        ghost s0: StateView, ghost u: Comparison, result: Result, nodes1: seq<Id>, nodes2: seq<Id>,
        pair: (Option<nat>, Option<nat>))
      requires Running(s0, u, result) && PairInRange(pair, |nodes1|, |nodes2|)
      requires WellFormed(graph) && InDomain(P(), u)
      requires PairStep(pair, nodes1, nodes2) in CompareScript(P(), u).steps
      modifies this, scc, result
      ensures Running(s0, u, result)
      ensures result.Log() == old(result.Log()).Then([PairStep(pair, nodes1, nodes2)])
      ensures Unseen() <= old(Unseen())
      decreases Unseen(), 2
    {
      hide WellFormed, Running, CompareScript;
      var (index1, index2) := pair;
      if index1.Some? && index2.None? {
        GoneDiff(s0, u, result, Edge(""), nodes1[index1.value], false);
      } else if index1.None? && index2.Some? {
        GoneDiff(s0, u, result, Edge(""), nodes2[index2.value], true);
      } else {
        ChildDiff(s0, u, result, Edge(""), nodes1[index1.value], nodes2[index2.value]);
      }
    }

    method EqualsStructUnion(ghost u: Comparison, a: Node, b: Node) returns (result: Result)
      requires Starting(u, a, b) && a.StructUnion? && b.StructUnion?
      modifies this, scc
      ensures fresh(result) && Running(old(View()), u, result) && result.Log() == CompareScript(P(), u)
      decreases Unseen(), 5
    {
      hide Valid, Running, Tracks, StructSteps, CompareScript;
      ghost var s0 := View();
      result := NewResult(u);
      // the script has no steps, so no child is looked at
      if a.structKind != b.structKind || a.name != b.name {
        MarkIncomparable(s0, u, result);
        return;
      }
      HoldChanges(s0, u, result, a.name != "");
      var both := CompareDefined(s0, u, result, a.structDefinition.Some?, b.structDefinition.Some?,
                                 options.ignoreTypeDeclarationStatusChanges);
      if both {
        CompareDefinitions(s0, u, result, a.structDefinition.value, b.structDefinition.value);
      }
    }

    method CompareDefinitions(
        ghost s0: StateView, ghost u: Comparison, result: Result, d1: StructDefinition, d2: StructDefinition)
      requires Running(s0, u, result) && WellFormed(graph) && InDomain(P(), u)
      requires forall id :: id in d1.baseClasses + d1.methods + d1.members ==> id in graph
      requires forall id :: id in d2.baseClasses + d2.methods + d2.members ==> id in graph
      requires CompareScript(P(), u).steps == StructSteps(graph, d1, d2)
      modifies this, scc, result
      ensures Running(s0, u, result)
      ensures result.Log() == old(result.Log()).Then(StructSteps(graph, d1, d2))
      decreases Unseen(), 4
    {
      hide WellFormed, Running, CompareScript, NodesSteps, AttributeSteps;
      MaybeNodeDiff(s0, u, result, Attribute("byte size"), Number(d1.bytesize), Number(d2.bytesize));
      CompareNodes(s0, u, result, d1.baseClasses, d2.baseClasses, true);
      CompareNodes(s0, u, result, d1.methods, d2.methods, false);
      CompareNodes(s0, u, result, d1.members, d2.members, true);
      assert result.Log().steps == old(result.Log()).Then(StructSteps(graph, d1, d2)).steps;
    }

    method EqualsEnumeration(ghost u: Comparison, a: Node, b: Node) returns (result: Result)
      requires Starting(u, a, b) && a.Enumeration? && b.Enumeration?
      modifies this, scc
      ensures fresh(result) && Running(old(View()), u, result) && result.Log() == CompareScript(P(), u)
    {
      hide Valid, Running, Tracks, EnumSteps, CompareScript;
      ghost var s0 := View();
      result := NewResult(u);
      if a.name != b.name {
        MarkIncomparable(s0, u, result);
        return;
      }
      HoldChanges(s0, u, result, a.name != "");
      var both := CompareDefined(s0, u, result, a.enumDefinition.Some?, b.enumDefinition.Some?,
                                 options.ignoreTypeDeclarationStatusChanges);
      if both {
        CompareEnumerators(s0, u, result, a.enumDefinition.value, b.enumDefinition.value);
      }
    }

    method CompareEnumerators(
        ghost s0: StateView, ghost u: Comparison, result: Result, d1: EnumDefinition, d2: EnumDefinition)
      requires Running(s0, u, result)
      modifies result
      ensures Running(s0, u, result)
      ensures result.Log() == old(result.Log()).Then(EnumSteps(d1, d2))
    {
      hide Running, MatchedPairs, EnumeratorStep, AttributeSteps, SortedKeys, Paired;
      MaybeNodeDiff(s0, u, result, Attribute("byte size"), Number(d1.bytesize), Number(d2.bytesize));
      var enums1, enums2 := d1.enumerators, d2.enumerators;
      var names1, names2 := EnumeratorNames(enums1), EnumeratorNames(enums2);
      var pairs := PairUp(SortedKeys(names1), SortedKeys(names2));
      pairs := ReorderPairs(pairs, names1, names2);
      ghost var before := result.Log();
      for k := 0 to |pairs|
        invariant Running(s0, u, result)
        invariant result.Log() == before.Then(EnumeratorSteps(pairs[..k], enums1, enums2))
      {
        assert pairs[..k + 1][..k] == pairs[..k];
        CompareEnumerator(s0, u, result, pairs[k], enums1, enums2);
      }
      assert pairs[..|pairs|] == pairs;
    }

    method CompareEnumerator(
        ghost s0: StateView, ghost u: Comparison, result: Result, pair: (Option<nat>, Option<nat>),
        enums1: seq<(string, int)>, enums2: seq<(string, int)>)
      requires Running(s0, u, result) && PairInRange(pair, |enums1|, |enums2|)
      modifies result
      ensures Running(s0, u, result)
      ensures result.Log() == old(result.Log()).Then(EnumeratorStep(pair, enums1, enums2))
    {
      hide Running, AttributeSteps;
      var (index1, index2) := pair;
      if index1.Some? && index2.None? {
        NodeDiff(s0, u, result, EnumeratorRemoved(enums1[index1.value].0, enums1[index1.value].1));
      } else if index1.None? && index2.Some? {
        NodeDiff(s0, u, result, EnumeratorAdded(enums2[index2.value].0, enums2[index2.value].1));
      } else {
        var enum1, enum2 := enums1[index1.value], enums2[index2.value];
        MaybeNodeDiff(s0, u, result, Enumerator(enum1.0), Number(enum1.1), Number(enum2.1));
      }
    }

    method EqualsFunction(ghost u: Comparison, a: Node, b: Node) returns (result: Result)
      requires Starting(u, a, b) && a.Function? && b.Function?
      modifies this, scc
      ensures fresh(result) && Running(old(View()), u, result) && result.Log() == CompareScript(P(), u)
      decreases Unseen(), 5
    {
      hide Valid, Running, Tracks, CompareScript, NodeScript, ParameterSteps, ExtraParameterSteps, Script.Then;
      ghost var s0 := View();
      FunctionScript(P(), a, b);
      result := NewResult(u);
      ChildDiff(s0, u, result, Edge("return"), a.returnTypeId, b.returnTypeId);
      var n1, n2 := |a.parameters|, |b.parameters|;
      var min := if n1 < n2 then n1 else n2;
      CompareParameters(s0, u, result, a.parameters, b.parameters, min);
      var added := n1 < n2;
      ExtraParameters(s0, u, result, if added then b.parameters else a.parameters, added, min);
    }

    method CompareParameters(
        ghost s0: StateView, ghost u: Comparison, result: Result,
        parameters1: seq<Parameter>, parameters2: seq<Parameter>, min: nat)
      requires Running(s0, u, result) && WellFormed(graph) && InDomain(P(), u)
      requires min <= |parameters1| && min <= |parameters2|
      requires forall step :: step in ParameterSteps(parameters1, parameters2, min) ==>
                 step in CompareScript(P(), u).steps
      modifies this, scc, result
      ensures Running(s0, u, result)
      ensures result.Log() == old(result.Log()).Then(ParameterSteps(parameters1, parameters2, min))
      ensures Unseen() <= old(Unseen())
      decreases Unseen(), 3
    {
      hide Running, CompareScript, WellFormed;
      ghost var steps := ParameterSteps(parameters1, parameters2, min);
      for i := 0 to min
        invariant Running(s0, u, result)
        invariant result.Log() == old(result.Log()).Then(steps[..i])
        invariant Unseen() <= old(Unseen())
      {
        var p1, p2 := parameters1[i], parameters2[i];
        assert steps[i] in steps && steps[..i + 1] == steps[..i] + [steps[i]];
        ChildDiff(s0, u, result, ParameterEdge(i + 1, p1.name, p2.name), p1.typeId, p2.typeId);
      }
      assert steps[..min] == steps;
    }

    method ExtraParameters(
        ghost s0: StateView, ghost u: Comparison, result: Result, parameters: seq<Parameter>, added: bool, min: nat)
      requires Running(s0, u, result) && WellFormed(graph) && InDomain(P(), u) && min <= |parameters|
      requires forall step :: step in ExtraParameterSteps(parameters, added, min) ==>
                 step in CompareScript(P(), u).steps
      modifies this, result
      ensures Running(s0, u, result)
      ensures result.Log() == old(result.Log()).Then(ExtraParameterSteps(parameters, added, min))
      ensures scc.View() == old(scc.View())
    {
      hide Running, CompareScript, WellFormed;
      ghost var steps := ExtraParameterSteps(parameters, added, min);
      for i := min to |parameters|
        invariant Running(s0, u, result)
        invariant result.Log() == old(result.Log()).Then(steps[..i - min])
        invariant scc.View() == old(scc.View())
      {
        assert steps[i - min] == ExtraParameterStep(parameters, added, min + (i - min));
        assert steps[i - min] in steps && steps[..i + 1 - min] == steps[..i - min] + [steps[i - min]];
        GoneDiff(s0, u, result, ExtraParameter(i + 1, parameters[i].name), parameters[i].typeId, added);
      }
      assert steps[..|parameters| - min] == steps;
    }

    method EqualsElfSymbol(ghost u: Comparison, a: Node, b: Node) returns (result: Result)
      requires Starting(u, a, b) && a.ElfSymbol? && b.ElfSymbol?
      modifies this, scc
      ensures fresh(result) && Running(old(View()), u, result) && result.Log() == CompareScript(P(), u)
      decreases Unseen(), 5
    {
      hide Valid, Running, Tracks, CompareScript, NodeScript, SymbolAttributeSteps, Script.Then;
      ghost var s0 := View();
      ElfSymbolScript(P(), a, b);
      result := NewResult(u);
      CompareSymbolAttributes(s0, u, result, a, b);
      if a.symbolTypeId.Some? && b.symbolTypeId.Some? {
        ChildDiff(s0, u, result, Edge(""), a.symbolTypeId.value, b.symbolTypeId.value);
      } else if a.symbolTypeId.Some? {
        if !options.ignoreSymbolTypePresenceChanges {
          GoneDiff(s0, u, result, Edge(""), a.symbolTypeId.value, false);
        } else {
          ThenNothing(result.Log());
        }
      } else if b.symbolTypeId.Some? {
        if !options.ignoreSymbolTypePresenceChanges {
          GoneDiff(s0, u, result, Edge(""), b.symbolTypeId.value, true);
        } else {
          ThenNothing(result.Log());
        }
      } else {
        ThenNothing(result.Log());
      }
    }

    method CompareSymbolAttributes(ghost s0: StateView, ghost u: Comparison, result: Result, a: Node, b: Node)
      requires Running(s0, u, result) && a.ElfSymbol? && b.ElfSymbol?
      modifies result
      ensures Running(s0, u, result)
      ensures result.Log() == old(result.Log()).Then(SymbolAttributeSteps(a, b))
    {
      hide Running, AttributeSteps, VersionSteps, OptionalAttributeSteps, Script.Then, SymbolAttributeSteps;
      AttributesInOrder(result.Log(), a, b);
      MaybeNodeDiff(s0, u, result, Attribute("name"), Text(a.symbolName), Text(b.symbolName));
      CompareVersions(s0, u, result, a.versionInfo, b.versionInfo);
      MaybeNodeDiff(s0, u, result, Attribute("defined"), Flag(a.isDefined), Flag(b.isDefined));
      MaybeNodeDiff(s0, u, result, Attribute("symbol type"), SymbolTypeValue(a.symbolType),
                    SymbolTypeValue(b.symbolType));
      MaybeNodeDiff(s0, u, result, Attribute("binding"), BindingValue(a.binding), BindingValue(b.binding));
      MaybeNodeDiff(s0, u, result, Attribute("visibility"), VisibilityValue(a.visibility),
                    VisibilityValue(b.visibility));
      MaybeOptionalNodeDiff(s0, u, result, Attribute("CRC"), MapNumber(a.crc), MapNumber(b.crc));
    }

    method CompareVersions(
        ghost s0: StateView, ghost u: Comparison, result: Result, v1: Option<VersionInfo>, v2: Option<VersionInfo>)
      requires Running(s0, u, result)
      modifies result
      ensures Running(s0, u, result)
      ensures result.Log() == old(result.Log()).Then(VersionSteps(v1, v2))
    {
      hide Running, AttributeSteps;
      if v1.Some? && v2.Some? {
        MaybeNodeDiff(s0, u, result, Attribute("version"), Text(v1.value.name), Text(v2.value.name));
        MaybeNodeDiff(s0, u, result, Attribute("default version"), Flag(v1.value.isDefault), Flag(v2.value.isDefault));
        assert result.Log().steps == old(result.Log()).steps + VersionSteps(v1, v2);
      } else {
        MaybeNodeDiff(s0, u, result, Attribute("has version"), Flag(v1.Some?), Flag(v2.Some?));
      }
    }

    method EqualsSymbols(ghost u: Comparison, a: Node, b: Node) returns (result: Result)
      requires Starting(u, a, b) && a.Symbols? && b.Symbols?
      requires SortedSymbols(a.symbols) && SortedSymbols(b.symbols)
      modifies this, scc
      ensures fresh(result) && Running(old(View()), u, result) && result.Log() == CompareScript(P(), u)
      decreases Unseen(), 5
    {
      hide Valid, Running, Tracks, CompareScript, NodeScript, OnlyIn, InBoth, GoneSymbolSteps, CommonSymbolSteps,
           Script.Then;
      ghost var s0 := View();
      SymbolsScript(P(), a, b);
      result := NewResult(u);
      HoldChanges(s0, u, result, true);
      var removed, added, inBoth := SplitSymbols(a.symbols, b.symbols);
      GoneSymbols(s0, u, result, removed, false);
      GoneSymbols(s0, u, result, added, true);
      CommonSymbols(s0, u, result, inBoth);
    }

    method GoneSymbols(
        ghost s0: StateView, ghost u: Comparison, result: Result, symbols: seq<(string, Id)>, added: bool)
      requires Running(s0, u, result) && WellFormed(graph) && InDomain(P(), u)
      requires forall step :: step in GoneSymbolSteps(symbols, added) ==> step in CompareScript(P(), u).steps
      modifies this, result
      ensures Running(s0, u, result)
      ensures result.Log() == old(result.Log()).Then(GoneSymbolSteps(symbols, added))
      ensures scc.View() == old(scc.View())
    {
      hide Running, CompareScript, WellFormed, GoneSymbolSteps, Quote;
      ghost var steps := GoneSymbolSteps(symbols, added);
      for k := 0 to |symbols|
        invariant Running(s0, u, result)
        invariant result.Log() == old(result.Log()).Then(steps[..k])
        invariant scc.View() == old(scc.View())
      {
        GoneSymbolStepAt(symbols, added, k);
        assert steps[k] in steps;
        var (path, symbol) := symbols[k];
        GoneDiff(s0, u, result, Edge(Quote(path)), symbol, added);
      }
      assert steps[..|symbols|] == steps;
    }

    method CommonSymbols(ghost s0: StateView, ghost u: Comparison, result: Result, symbols: seq<(string, Id, Id)>)
      requires Running(s0, u, result) && WellFormed(graph) && InDomain(P(), u)
      requires forall step :: step in CommonSymbolSteps(symbols) ==> step in CompareScript(P(), u).steps
      modifies this, scc, result
      ensures Running(s0, u, result)
      ensures result.Log() == old(result.Log()).Then(CommonSymbolSteps(symbols))
      decreases Unseen(), 3
    {
      hide Running, CompareScript, WellFormed, CommonSymbolSteps, Quote;
      ghost var steps := CommonSymbolSteps(symbols);
      for k := 0 to |symbols|
        invariant Running(s0, u, result)
        invariant result.Log() == old(result.Log()).Then(steps[..k])
        invariant Unseen() <= old(Unseen())
      {
        CommonSymbolStepAt(symbols, k);
        assert steps[k] in steps;
        var (path, symbol1, symbol2) := symbols[k];
        ChildDiff(s0, u, result, Edge(Quote(path)), symbol1, symbol2);
      }
      assert steps[..|symbols|] == steps;
    }

    /** Two nodes of the same kind, none of them a typedef or qualified. */
    method EqualsNode(ghost u: Comparison, a: Node, b: Node) returns (result: Result)
      requires StartingAlike(u, a, b)
      modifies this, scc
      ensures fresh(result) && Running(old(View()), u, result) && result.Log() == CompareScript(P(), u)
      decreases Unseen(), 6
    {
      hide Starting, Running, CompareScript, NodeScript, SortedSymbols;
      match a
      case PointerReference(_, _) => result := EqualsPointerReference(u, a, b);
      case Integer(_, _, _, _) => result := EqualsInteger(u, a, b);
      case Array(_, _) => result := EqualsArray(u, a, b);
      case BaseClass(_, _, _) => result := EqualsBaseClass(u, a, b);
      case Member(_, _, _, _) => result := EqualsMember(u, a, b);
      case Method(_, _, _, _, _) => result := EqualsMethod(u, a, b);
      case StructUnion(_, _, _) => result := EqualsStructUnion(u, a, b);
      case Enumeration(_, _) => result := EqualsEnumeration(u, a, b);
      case Function(_, _) => result := EqualsFunction(u, a, b);
      case ElfSymbol(_, _, _, _, _, _, _, _, _) => result := EqualsElfSymbol(u, a, b);
      case Symbols(_) => result := EqualsSymbols(u, a, b);
      case _ => result := EqualsTrivially(u, a, b);
    }

    /** Void and Variadic. Compare never gets here with typedefs or qualified types. */
    method EqualsTrivially(ghost u: Comparison, a: Node, b: Node) returns (result: Result)
      requires Starting(u, a, b) && KindOf(a) == KindOf(b)
      requires a.Void? || a.Variadic? || a.Typedef? || a.Qualified?
      ensures fresh(result) && Running(View(), u, result) && result.Log() == CompareScript(P(), u)
    {
      hide Valid, Running, Tracks, CompareScript;
      result := NewResult(u);
    }

    // ---- Compare ----

    /** The two lists of qualifiers are merged in step. */
    method CompareQualifiers(
        ghost s0: StateView, ghost u: Comparison, result: Result, qualifiers1: set<Qualifier>,
        qualifiers2: set<Qualifier>)
      requires Running(s0, u, result)
      modifies result
      ensures Running(s0, u, result)
      ensures result.Log() == old(result.Log()).Then(QualifierSteps(qualifiers1, qualifiers2))
    {
      hide Running, QualifierSteps, MergedQualifiers, Listed, Rank, Script.Then, Result.Log;
      ThenNothing(result.Log());
      MergeFindsDifferences(qualifiers1, qualifiers2);
      var list1, list2 := Listed(0, qualifiers1), Listed(0, qualifiers2);
      ghost var all := MergedQualifiers(list1, list2);
      ghost var done := [];
      var it1, it2 := 0, 0;
      while it1 != |list1| || it2 != |list2|
        invariant it1 <= |list1| && it2 <= |list2| && Running(s0, u, result)
        invariant result.Log() == old(result.Log()).Then(done)
        invariant all == done + MergedQualifiers(list1[it1..], list2[it2..])
        decreases |list1| - it1 + |list2| - it2
      {
        MergeNext(list1, it1, list2, it2);
        if it2 == |list2| || (it1 != |list1| && Rank(list1[it1]) < Rank(list2[it2])) {
          NodeDiff(s0, u, result, QualifierRemoved(list1[it1]));
          ThenThen(old(result.Log()), done, [NodeStep(QualifierRemoved(list1[it1]))]);
          done := done + [NodeStep(QualifierRemoved(list1[it1]))];
          it1 := it1 + 1;
        } else if it1 == |list1| || (it2 != |list2| && Rank(list1[it1]) > Rank(list2[it2])) {
          NodeDiff(s0, u, result, QualifierAdded(list2[it2]));
          ThenThen(old(result.Log()), done, [NodeStep(QualifierAdded(list2[it2]))]);
          done := done + [NodeStep(QualifierAdded(list2[it2]))];
          it2 := it2 + 1;
        } else {
          it1, it2 := it1 + 1, it2 + 1;
        }
      }
      NothingToMerge(qualifiers1, qualifiers2);
      assert list1[it1..] == [] && list2[it2..] == [];
      assert done == all;
    }

    /** The examination of a pair that has just been opened. */
    method Examine(ghost u: Comparison, node1: Id, node2: Id) returns (result: Result)
      requires Valid() && WellFormed(graph) && InDomain(P(), u) && u == Pair(node1, node2) && Tracks(P(), View(), u, [])
      modifies this, scc
      ensures fresh(result) && Running(old(View()), u, result) && result.Log() == CompareScript(P(), u)
      decreases Unseen(), 8
    {
      hide Valid, Running, Tracks, NodeScript, QualifierSteps, WellFormed, Unqualified, Resolved;
      ghost var s0 := View();
      var unqualified1, qualifiers1 := ResolveQualifiers(graph, node1, {});
      var unqualified2, qualifiers2 := ResolveQualifiers(graph, node2, {});
      if qualifiers1 != {} || qualifiers2 != {} {
        // the script is about qualifiers, and goes on below them
        result := NewResult(u);
        CompareQualifiers(s0, u, result, qualifiers1, qualifiers2);
        ChildDiff(s0, u, result, Edge("underlying"), unqualified1, unqualified2);
      } else {
        var resolved1, typedefs1 := ResolveTypedefs(graph, unqualified1, []);
        var resolved2, typedefs2 := ResolveTypedefs(graph, unqualified2, []);
        if unqualified1 != resolved1 || unqualified2 != resolved2 {
          // the script only leads to what the typedefs stand for
          result := NewResult(u);
          HoldChanges(s0, u, result, typedefs1 != [] && typedefs2 != [] && typedefs1[0] == typedefs2[0]);
          ChildDiff(s0, u, result, Edge("resolved"), resolved1, resolved2);
        } else {
          PlainScript(P(), u);
          result := ExamineNodes(u, unqualified1, unqualified2);
        }
      }
    }

    method ExamineNodes(ghost u: Comparison, node1: Id, node2: Id) returns (result: Result)
      requires WellFormed(graph) && node1 in graph && node2 in graph
      requires Starting(u, graph[node1], graph[node2])
      modifies this, scc
      ensures fresh(result) && Running(old(View()), u, result) && result.Log() == CompareScript(P(), u)
      decreases Unseen(), 7
    {
      hide Valid, Running, Tracks, CompareScript, QualifierEdges, TypedefEdges, KeyEdges, Acyclic;
      var type1, type2 := graph[node1], graph[node2];
      if KindOf(type1) != KindOf(type2) {
        ghost var s0 := View();
        DifferentKindsScript(P(), type1, type2);
        result := NewResult(u);
        MarkIncomparable(s0, u, result);
      } else {
        result := EqualsNode(u, type1, type2);
      }
    }

    method Compare(node1: Id, node2: Id) returns (equals: bool, comparison: Option<Comparison>)
      requires Valid() && node1 in graph && node2 in graph
      requires MayFollow(P(), scc.View(), Pair(node1, node2))
      modifies this, scc
      ensures Valid() && Compared(P(), old(View()), View(), Pair(node1, node2), equals, comparison)
      decreases Unseen(), 0
    {
      hide StateInv, Tracks, Grows, SCC.Valid, Compared, MayFollow, Running, CompareScript, MetAgain, Distinct,
           WellShaped;
      var c := Pair(node1, node2);
      ghost var s := View();
      ReadyToOpen(P(), s, c);

      if c in known {
        // verdicts are final, by the invariant
        KnownAnswered(P(), s, c);
        if known[c] {
          return true, None;
        } else {
          return false, Some(c);
        }
      }
      var handle := scc.Open(c);
      if handle == None {
        // tentative: the pair stays open, and below it the edge to it is on record
        OpenAnswered(P(), s, scc.View(), c);
        SeenIsSame(P(), s, View(), c, true, Some(c));
        return true, Some(c);
      }
      // one pair fewer is unseen, so the recursion ends
      Opened(P(), s, c);
      NewlyExamined(examined, c);
      examined := examined + [c];

      var result := Examine(c, node1, node2);
      equals, comparison := Finish(s, c, handle.value, result);
    }

    /** From the finished log of a pair to its answer. */
    method Finish(ghost s0: StateView, c: Comparison, handle: nat, result: Result)
      returns (equals: bool, comparison: Option<Comparison>)
      requires WellFormed(graph) && MayFollow(P(), s0.scc, c) && c !in s0.scc.open && c !in s0.known
      requires InDomain(P(), c) && Running(s0.(scc := Pushed(s0.scc, c)), c, result)
      requires result.Log() == CompareScript(P(), c)
      requires StateInv(P(), s0) && handle == |s0.scc.open|
      modifies this, scc
      ensures Valid() && Compared(P(), s0, View(), c, equals, comparison)
    {
      hide StateInv, Tracks, Grows, SCC.Valid, Compared, CompareScript, Summarises, Distinct, MayFollow,
           WellShaped, Committed, Reported, Elements, Seen, WellFormed, Inserted, InDomain;
      ghost var s := View();
      equals := result.equals;
      Ending(P(), s0, s, c, equals, result.diff, result.incomparable, result.events);

      provisional := Inserted(provisional, c, result.diff);
      var comparisons := scc.Close(handle);
      if comparisons != [] {
        // the log speaks for the whole component: all its members were opened since c
        Commit(comparisons, equals);
        assert View() == ClosedState(s, c, handle, equals, result.diff);
        comparison := if equals then None else Some(c);
      } else {
        // the answer speaks for c and the pairs opened since, all of them still open
        assert View() == s.(provisional := Inserted(s.provisional, c, result.diff), scc := Left(s.scc));
        comparison := Some(c);
      }
    }

    /** Records the verdict for each of these pairs, and, if they differ, the differences. */
    method Commit(comparisons: seq<Comparison>, equals: bool)
      requires Distinct(comparisons)
      requires forall c :: c in comparisons ==> c in provisional && c !in known && c !in outcomes
      modifies this`known, this`outcomes, this`provisional
      ensures known == Committed(old(known), Elements(comparisons), equals)
      ensures outcomes == Reported(old(outcomes), old(provisional), Elements(comparisons), equals)
      ensures provisional == old(provisional) - Elements(comparisons)
    {
      NoneCommitted(known, outcomes, provisional, equals);
      assert Elements(comparisons[..0]) == {};
      hide Committed, Reported, Inserted;
      for k := 0 to |comparisons|
        invariant known == Committed(old(known), Elements(comparisons[..k]), equals)
        invariant outcomes == Reported(old(outcomes), old(provisional), Elements(comparisons[..k]), equals)
        invariant provisional == old(provisional) - Elements(comparisons[..k])
      {
        var c := comparisons[k];
        ghost var before := comparisons[..k];
        assert comparisons[..k + 1] == before + [c];
        assert c !in before && c in comparisons;
        assert Elements(before + [c]) == Elements(before) + {c};
        CommitOne(old(known), old(outcomes), old(provisional), Elements(before), c, equals);
        known := Inserted(known, c, equals);
        assert c in provisional;
        if !equals {
          outcomes := Inserted(outcomes, c, provisional[c]);
        }
        provisional := provisional - {c};
      }
      assert comparisons[..|comparisons|] == comparisons;
    }
  }

  /** What only the first table has, what only the second has, and what both have, by key. */
  method SplitSymbols(symbols1: SymbolMap, symbols2: SymbolMap)
    returns (removed: seq<(string, Id)>, added: seq<(string, Id)>, inBoth: seq<(string, Id, Id)>)
    requires SortedSymbols(symbols1) && SortedSymbols(symbols2)
    ensures removed == OnlyIn(symbols1, symbols2) && added == OnlyIn(symbols2, symbols1)
    ensures inBoth == InBoth(symbols1, symbols2)
  {
    hide SortedSymbols, LookupSymbol;
    assert symbols1[..0] == [] && symbols2[..0] == [];
    assert OnlyIn([], symbols1) == [] && OnlyIn([], symbols2) == [] && InBoth([], symbols2) == [];
    hide OnlyIn, InBoth;
    removed, added, inBoth := [], [], [];
    var it1, it2 := 0, 0;
    while it1 != |symbols1| || it2 != |symbols2|
      invariant MergedUpTo(symbols1, it1, symbols2, it2)
      invariant removed == OnlyIn(symbols1[..it1], symbols2)
      invariant added == OnlyIn(symbols2[..it2], symbols1)
      invariant inBoth == InBoth(symbols1[..it1], symbols2)
      decreases |symbols1| - it1 + |symbols2| - it2
    {
      if it1 < |symbols1| { OneMoreSymbol(symbols1, it1, symbols2); }
      if it2 < |symbols2| { OneMoreSymbol(symbols2, it2, symbols1); }
      if it2 == |symbols2| || (it1 != |symbols1| && symbols1[it1].0.Compare(symbols2[it2].0) < 0) {
        NextIsGone(symbols1, it1, symbols2, it2);
        removed := removed + [(symbols1[it1].0.path, symbols1[it1].1)];
        it1 := it1 + 1;
      } else if it1 == |symbols1| || (it2 != |symbols2| && symbols1[it1].0.Compare(symbols2[it2].0) > 0) {
        if it1 < |symbols1| { KeyCompareMirrors(symbols2[it2].0, symbols1[it1].0); }
        NextIsGone(symbols2, it2, symbols1, it1);
        added := added + [(symbols2[it2].0.path, symbols2[it2].1)];
        it2 := it2 + 1;
      } else {
        NextIsCommon(symbols1, it1, symbols2, it2);
        inBoth := inBoth + [(symbols1[it1].0.path, symbols1[it1].1, symbols2[it2].1)];
        it1, it2 := it1 + 1, it2 + 1;
      }
    }
    assert symbols1[..it1] == symbols1 && symbols2[..it2] == symbols2;
  }

  method ReorderPairs(pairs: Matches, ghost keys1: seq<string>, ghost keys2: seq<string>) returns (ordered: Matches)
    requires pairs == Paired(SortedKeys(keys1), SortedKeys(keys2))
    ensures ordered == MatchedPairs(keys1, keys2, true)
  {
    hide Paired, SortedKeys, Reordered, AllPositioned;
    PairUpCoversAll(keys1, keys2);
    var data := new (Option<nat>, Option<nat>)[|pairs|](k requires 0 <= k < |pairs| => pairs[k]);
    assert data[..] == pairs;
    Reorder(data);
    ordered := data[..];
  }
}

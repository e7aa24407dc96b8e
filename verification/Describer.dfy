/** GetDescription and MakeDescription (stg.cc): names are made once and remembered. */
module Describer {
  import opened Reachability
  import opened Sequences
  import opened Graph
  import opened Names
  import opened Descriptions

  /** The finished names in the cache are those made without one, except where names go round in a circle. */
  ghost predicate Faithful(g: Graph, names: NameCache, pending: set<Id>)
    requires WellFormed(g) && QualifiersApply(g)
  {
    && names.Keys <= g.Keys
    && forall id :: id in names && id !in pending && Founded(g, id) ==> names[id] == Rendering(g, id)
  }

  /** All names being made need this one. */
  ghost predicate Needed(g: Graph, pending: set<Id>, id: Id)
    requires WellFormed(g)
  {
    forall p :: p in pending ==> Reaches(NameEdges(g), p, id)
  }

  /** The cache is right, and the name that is asked for is not among those being made for it. */
  ghost predicate Sound(g: Graph, names: NameCache, pending: set<Id>, id: Id)
    requires WellFormed(g) && QualifiersApply(g)
  {
    Faithful(g, names, pending) && Needed(g, pending, id) && (Founded(g, id) ==> id !in pending)
  }

  /** No name is being made that this one needs. */
  lemma NeededIsSound(g: Graph, names: NameCache, pending: set<Id>, id: Id, to: Id)
    requires WellFormed(g) && QualifiersApply(g) && Faithful(g, names, pending)
    requires Needed(g, pending, id) && id in g && to in Needs(g, id)
    ensures Sound(g, names, pending, to)
  {
    hide WellFormed, QualifiersApply, Needs, Rendering, Reaches;
    assert (id, to) in NameEdges(g);
    ReachesByEdge(NameEdges(g), id, to);
    forall p | p in pending ensures Reaches(NameEdges(g), p, to) {
      ReachesTrans(NameEdges(g), p, id, to);
    }
  }

  /** The start of the making of a name. */
  lemma PlaceholderIsSound(g: Graph, names: NameCache, pending: set<Id>, id: Id)
    requires WellFormed(g) && QualifiersApply(g) && Sound(g, names, pending, id) && id in g
    ensures Faithful(g, names[id := BLACK_HOLE], pending + {id}) && Needed(g, pending + {id}, id)
  {
    hide WellFormed, QualifiersApply, Rendering, Founded;
    ReachesSelf(NameEdges(g), id);
  }

  /** The end of the making of a name. */
  lemma FinishedIsFaithful(g: Graph, names: NameCache, pending: set<Id>, id: Id)
    requires WellFormed(g) && QualifiersApply(g) && id in g && id !in pending && AllSane(g, names)
    requires Faithful(g, names, pending + {id}) && Needed(g, pending + {id}, id) && Needs(g, id) <= names.Keys
    ensures Founded(g, id) ==> Rendered(g, id, names) == Rendering(g, id)
    ensures Faithful(g, names[id := Rendered(g, id, names)], pending)
  {
    hide WellFormed, QualifiersApply, Rendering, Rendered, Needs, Founded, Needed;
    NeedsInGraph(g, id);
    if Founded(g, id) {
      forall n | n in Needs(g, id) ensures Founded(g, n) && names[n] == Rendering(g, n) {
        NeededIsFounded(g, id, n);
        NeededIsSound(g, names, pending + {id}, id, n);
      }
      RenderedIsRendering(g, id, names);
    }
  }

  class Describer {
    const graph: Graph
    var names: NameCache
    /** The nodes whose names are being made. */
    ghost var pending: set<Id>
    /** The nodes whose names were made, or are being made, in the order in which they came up. */
    ghost var made: seq<Id>

    ghost predicate Valid()
      reads this
    {
      && WellFormed(graph) && QualifiersApply(graph)
      && names.Keys <= graph.Keys && AllSane(graph, names) && pending <= names.Keys
      // each name is made once
      && Distinct(made) && Elements(made) == names.Keys
    }

    constructor (graph: Graph)
      requires WellFormed(graph) && QualifiersApply(graph)
      ensures Valid() && this.graph == graph && names == map[] && pending == {}
    {
      this.graph := graph;
      names, pending, made := map[], {}, [];
    }

    ghost predicate SoundFor(id: Id)
      requires WellFormed(graph) && QualifiersApply(graph)
      reads this
    {
      Sound(graph, names, pending, id)
    }

    ghost predicate Making(id: Id)
      requires WellFormed(graph) && QualifiersApply(graph)
      reads this
    {
      Faithful(graph, names, pending) && Needed(graph, pending, id)
    }

    /** Names that are in the cache stay there. */
    twostate predicate Grows()
      reads this
    {
      && pending == old(pending) && old(names.Keys) <= names.Keys
      && (forall id :: id in old(names) ==> names[id] == old(names)[id])
      && old(made) <= made
    }

    method GetDescription(node: Id) returns (name: Name)
      requires Valid() && node in graph
      modifies this
      ensures Valid() && Grows() && node in names && name == names[node]
      ensures old(SoundFor(node)) ==>
                Faithful(graph, names, pending) && (Founded(graph, node) ==> name == Rendering(graph, node))
      decreases graph.Keys - names.Keys, 0
    {
      hide WellFormed, QualifiersApply, Rendering, Rendered, Faithful, Needed, Needs, AllSane, Distinct, Founded,
           Elements, Sane;
      if node in names {
        name := names[node];
        if SoundFor(node) { FaithfulName(graph, names, pending, node); }
        return;
      }
      ghost var sound, others := SoundFor(node), pending;
      if sound { PlaceholderIsSound(graph, names, pending, node); }
      Entered(graph, names, made, node);
      assert node in graph.Keys - names.Keys;
      names := names[node := BLACK_HOLE];
      pending, made := pending + {node}, made + [node];
      name := MakeDescription(node);
      if sound { FinishedIsFaithful(graph, names, others, node); }
      Left(graph, names, node, name);
      names := names[node := name];
      pending := others;
    }

    /** The name of a node that the name being made needs. */
    method Need(ghost node: Id, to: Id) returns (name: Name)
      requires Valid() && node in graph && to in Needs(graph, node)
      modifies this
      ensures Valid() && Grows() && to in names && name == names[to]
      ensures old(Making(node)) ==> Making(node)
      decreases graph.Keys - names.Keys, 1
    {
      hide WellFormed, QualifiersApply, Rendering, Faithful, Needed, Needs, AllSane, Distinct, Sound;
      NeedsInGraph(graph, node);
      if Making(node) { NeededIsSound(graph, names, pending, node, to); }
      name := GetDescription(to);
    }

    method NeedAll(ghost node: Id, ids: seq<Id>) returns (members: seq<Lexeme>, parameters: seq<Lexeme>)
      requires Valid() && node in graph && forall id :: id in ids ==> id in Needs(graph, node)
      modifies this
      ensures Valid() && Grows() && forall id :: id in ids ==> id in names
      ensures members == MemberNames(ids, names) && parameters == ListNames(ids, names)
      ensures old(Making(node)) ==> Making(node)
      decreases graph.Keys - names.Keys, 2
    {
      hide WellFormed, QualifiersApply, Faithful, Needed, Needs, AllSane, Distinct;
      members, parameters := [], [];
      for k := 0 to |ids|
        invariant Valid() && Grows() && forall id :: id in ids[..k] ==> id in names
        invariant members == MemberNames(ids[..k], names) && parameters == ListNames(ids[..k], names)
        invariant old(Making(node)) ==> Making(node)
      {
        ghost var before := names;
        var name := Need(node, ids[k]);
        ListsAgree(ids[..k], before, names);
        assert ids[..k + 1][..k] == ids[..k];
        members := members + name.Print() + [Semicolon];
        parameters := (if k == 0 then [] else parameters + [Comma]) + name.Print();
      }
      assert ids[..|ids|] == ids;
    }

    method MakeDescription(node: Id) returns (name: Name)
      requires Valid() && node in graph
      modifies this
      ensures Valid() && Grows()
      ensures Needs(graph, node) <= names.Keys && name == Rendered(graph, node, names)
      ensures old(Making(node)) ==> Making(node)
      decreases graph.Keys - names.Keys, 4
    {
      hide WellFormed, QualifiersApply, Faithful, Needed, AllSane, Distinct, Name.Add, Name.Qualify, ListNames,
           MemberNames;
      match graph[node]
      case Void => name := JustWord("void");
      case Variadic => name := JustWord("...");
      case PointerReference(kind, to) =>
        name := Need(node, to);
        name := name.Add(LEFT, INDIRECTION, [Sign(kind)]);
      case Typedef(word, _) => name := JustWord(word);
      case Qualified(_, _) =>
        var under, qualifiers := ResolveQualifiers(graph, node, {});
        name := Need(node, under);
        UnqualifiedName(graph, node, names);
        name := name.Qualify(qualifiers);
      case Integer(word, _, _, _) => name := JustWord(word);
      case Array(number, to) =>
        name := Need(node, to);
        name := name.Add(RIGHT, ARRAY_FUNCTION, [Dimension(number)]);
      case BaseClass(_, _, _) => name := JustWord(MatchingKey(graph, node));
      case Member(word, to, _, bitsize) =>
        name := Need(node, to);
        if word != "" {
          name := name.Add(LEFT, ATOMIC, [Word(Text(word))]);
        }
        if bitsize != 0 {
          name := name.Add(RIGHT, ATOMIC, [BitSize(bitsize)]);
        }
      case Method(mangledName, word, _, _, _) =>
        if mangledName == word {
          name := JustWord(word);
        } else {
          name := Plain([Word(Text(word)), OpenBrace, Word(Text(mangledName)), CloseBrace]);
        }
      case StructUnion(kind, word, definition) =>
        if word != "" {
          name := Plain([Word(Tag(kind, word))]);
        } else if definition.Some? {
          var members, _ := NeedAll(node, definition.value.members);
          name := Plain([KindWord(kind), OpenBrace] + members + [CloseBrace]);
        } else {
          name := Plain([KindWord(kind)]);
        }
      case Enumeration(word, definition) =>
        if word != "" {
          name := Plain([Word(EnumTag(word))]);
        } else if definition.Some? {
          name := Plain([EnumWord, OpenBrace] + EnumeratorWords(definition.value.enumerators) + [CloseBrace]);
        } else {
          name := Plain([EnumWord]);
        }
      case Function(to, parameters) =>
        name := DescribeFunction(node);
      case ElfSymbol(symbolName, _, _, _, _, _, _, typeId, fullName) =>
        var word := if fullName.Some? then fullName.value else symbolName;
        if typeId.Some? {
          name := Need(node, typeId.value);
          name := name.Add(LEFT, ATOMIC, [Word(Text(word))]);
        } else {
          name := JustWord(word);
        }
      case Symbols(_) => name := JustWord("symbols");
    }

    method DescribeFunction(node: Id) returns (name: Name)
      requires Valid() && node in graph && graph[node].Function?
      modifies this
      ensures Valid() && Grows()
      ensures Needs(graph, node) <= names.Keys && name == Rendered(graph, node, names)
      ensures old(Making(node)) ==> Making(node)
      decreases graph.Keys - names.Keys, 3
    {
      hide WellFormed, QualifiersApply, Faithful, Needed, AllSane, Distinct, Name.Add, ListNames, MemberNames;
      var ids := TypeIds(graph[node].parameters);
      forall id | id in ids ensures id in Needs(graph, node) {
        TypeIdsNeeded(graph, node, id);
      }
      var _, parameters := NeedAll(node, ids);
      ghost var before := names;
      name := Need(node, graph[node].returnTypeId);
      ListsAgree(ids, before, names);
      FunctionNeeds(graph, node);
      name := name.Add(RIGHT, ARRAY_FUNCTION, [Open] + parameters + [Close]);
    }
  }

  lemma TypeIdsNeeded(g: Graph, id: Id, to: Id)
    requires WellFormed(g) && id in g && g[id].Function? && to in TypeIds(g[id].parameters)
    ensures to in Needs(g, id)
  {
  }

  lemma FunctionNeeds(g: Graph, id: Id)
    requires WellFormed(g) && id in g && g[id].Function?
    ensures Needs(g, id) == {g[id].returnTypeId} + Elements(TypeIds(g[id].parameters))
  {
    forall to | to in Needs(g, id) && to != g[id].returnTypeId ensures to in TypeIds(g[id].parameters) {
      var p :| p in g[id].parameters && p.typeId == to;
      var k :| 0 <= k < |g[id].parameters| && g[id].parameters[k] == p;
      assert TypeIds(g[id].parameters)[k] == to;
    }
    forall to | to in TypeIds(g[id].parameters) ensures to in Needs(g, id) { TypeIdsNeeded(g, id, to); }
  }

  lemma FaithfulName(g: Graph, names: NameCache, pending: set<Id>, id: Id)
    requires WellFormed(g) && QualifiersApply(g) && Faithful(g, names, pending) && id in names
    requires Founded(g, id) ==> id !in pending
    ensures id in g && (Founded(g, id) ==> names[id] == Rendering(g, id))
  {
  }

  lemma Entered(g: Graph, names: NameCache, made: seq<Id>, id: Id)
    requires id !in names && Distinct(made) && Elements(made) == names.Keys && AllSane(g, names)
    ensures Distinct(made + [id]) && Elements(made + [id]) == names[id := BLACK_HOLE].Keys == names.Keys + {id}
    ensures AllSane(g, names[id := BLACK_HOLE])
  {
  }

  lemma Left(g: Graph, names: NameCache, id: Id, name: Name)
    requires AllSane(g, names) && id in g && Sane(g[id], name)
    ensures AllSane(g, names[id := name])
    ensures id in names ==> names[id := name].Keys == names.Keys
  {
  }

  /** Asks for any names, in any order, sharing one cache. */
  method DescribeAll(graph: Graph, nodes: seq<Id>) returns (names: seq<Name>)
    requires WellFormed(graph) && QualifiersApply(graph) && forall node :: node in nodes ==> node in graph
    ensures |names| == |nodes|
    ensures forall k :: 0 <= k < |nodes| && Founded(graph, nodes[k]) ==> names[k] == Rendering(graph, nodes[k])
  {
    hide WellFormed, QualifiersApply, Rendering, Founded;
    names := [];
    var describer := new Describer(graph);
    for k := 0 to |nodes|
      invariant fresh(describer) && describer.Valid() && describer.graph == graph && describer.pending == {}
      invariant |names| == k && Faithful(graph, describer.names, {})
      invariant forall j :: 0 <= j < k && Founded(graph, nodes[j]) ==> names[j] == Rendering(graph, nodes[j])
    {
      var name := describer.GetDescription(nodes[k]);
      names := names + [name];
    }
  }
}

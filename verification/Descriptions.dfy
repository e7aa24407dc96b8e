/** Names of nodes (stg.cc), remembered in a cache while they are made. */
module Descriptions {
  import opened Reachability
  import opened Graph
  import opened Names

  type NameCache = map<Id, Name>

  /** What stands for the name of a node while that name is being made. */
  const BLACK_HOLE := Plain([Hole])

  /** The nodes whose names a name is made from. */
  function Needs(g: Graph, id: Id): set<Id>
    requires WellFormed(g) && id in g
  {
    match g[id]
    case PointerReference(_, to) => {to}
    case Qualified(_, _) => {Unqualified(g, id, {}).0}
    case Array(_, to) => {to}
    case Member(_, to, _, _) => {to}
    case StructUnion(_, "", Some(d)) => set m | m in d.members
    case Function(to, parameters) => {to} + set p | p in parameters :: p.typeId
    case ElfSymbol(_, _, _, _, _, _, _, Some(to), _) => {to}
    case _ => {}
  }

  lemma NeedsInGraph(g: Graph, id: Id)
    requires WellFormed(g) && id in g
    ensures Needs(g, id) <= g.Keys
  {
  }

  ghost function NameEdges(g: Graph): (edges: Edges<Id>)
    requires WellFormed(g)
    ensures forall a, b :: (a, b) in edges <==> a in g && b in Needs(g, a)
  {
    set a, b | a in g && b in Needs(g, a) :: (a, b)
  }

  /** Qualifiers qualify types. */
  ghost predicate QualifiersApply(g: Graph)
    requires WellFormed(g)
  {
    forall id :: id in g && g[id].Qualified? ==>
      !g[Unqualified(g, id, {}).0].Member? && !g[Unqualified(g, id, {}).0].ElfSymbol?
  }

  /** How tightly the name of a node may hold together. */
  predicate Sane(node: Node, name: Name) {
    match node
    case PointerReference(_, _) => name.precedence == NIL || name.precedence == INDIRECTION
    case Qualified(_, _) => true
    case Array(_, _) => true
    case Function(_, _) => true
    case Member(_, _, _, _) => true
    case ElfSymbol(_, _, _, _, _, _, _, _, _) => true
    case _ => name.precedence == NIL
  }

  predicate AllSane(g: Graph, names: NameCache) {
    forall id :: id in names && id in g ==> Sane(g[id], names[id])
  }

  lemma UnqualifiedName(g: Graph, id: Id, names: NameCache)
    requires WellFormed(g) && id in g && g[id].Qualified? && QualifiersApply(g) && AllSane(g, names)
    requires Needs(g, id) <= names.Keys
    ensures names[Unqualified(g, id, {}).0].CanQualify(Unqualified(g, id, {}).1)
  {
    var (under, qualifiers) := Unqualified(g, id, {});
    assert under in Needs(g, id);
  }

  // ---- the name of a node, given the names it needs ----

  /** The names of parameters, separated by commas. */
  function ListNames(ids: seq<Id>, names: NameCache): seq<Lexeme>
    requires forall id :: id in ids ==> id in names
  {
    if ids == [] then []
    else
      var n := |ids| - 1;
      (if n == 0 then [] else ListNames(ids[..n], names) + [Comma]) + names[ids[n]].Print()
  }

  /** The names of members, each followed by a semicolon. */
  function MemberNames(ids: seq<Id>, names: NameCache): seq<Lexeme>
    requires forall id :: id in ids ==> id in names
  {
    if ids == [] then []
    else
      var n := |ids| - 1;
      MemberNames(ids[..n], names) + names[ids[n]].Print() + [Semicolon]
  }

  function TypeIds(parameters: seq<Parameter>): seq<Id> {
    seq(|parameters|, k requires 0 <= k < |parameters| => parameters[k].typeId)
  }

  function EnumeratorWords(enumerators: seq<(string, int)>): seq<Lexeme> {
    seq(|enumerators|, k requires 0 <= k < |enumerators| => Lexeme.Enumerator(enumerators[k].0, enumerators[k].1))
  }

  function JustWord(text: string): Name {
    Plain([Word(Text(text))])
  }

  /** The name of a node, given the names it needs. */
  function Rendered(g: Graph, id: Id, names: NameCache): (name: Name)
    requires WellFormed(g) && id in g && QualifiersApply(g) && AllSane(g, names) && Needs(g, id) <= names.Keys
    ensures Sane(g[id], name)
  {
    match g[id]
    case Void => JustWord("void")
    case Variadic => JustWord("...")
    case PointerReference(kind, to) => names[to].Add(LEFT, INDIRECTION, [Sign(kind)])
    case Typedef(name, _) => JustWord(name)
    case Qualified(_, _) =>
      UnqualifiedName(g, id, names);
      var (under, qualifiers) := Unqualified(g, id, {});
      assert under in Needs(g, id);
      names[under].Qualify(qualifiers)
    case Integer(name, _, _, _) => JustWord(name)
    case Array(number, to) => names[to].Add(RIGHT, ARRAY_FUNCTION, [Dimension(number)])
    case BaseClass(_, _, _) => JustWord(MatchingKey(g, id))
    case Member(name, to, _, bitsize) =>
      var named := if name != "" then names[to].Add(LEFT, ATOMIC, [Word(Text(name))]) else names[to];
      if bitsize != 0 then named.Add(RIGHT, ATOMIC, [BitSize(bitsize)]) else named
    case Method(mangledName, name, _, _, _) =>
      if mangledName == name then JustWord(name)
      else Plain([Word(Text(name)), OpenBrace, Word(Text(mangledName)), CloseBrace])
    case StructUnion(kind, name, definition) =>
      if name != "" then Plain([Word(Tag(kind, name))])
      else if definition.Some? then
        Plain([KindWord(kind), OpenBrace] + MemberNames(definition.value.members, names) + [CloseBrace])
      else Plain([KindWord(kind)])
    case Enumeration(name, definition) =>
      if name != "" then Plain([Word(EnumTag(name))])
      else if definition.Some? then
        Plain([EnumWord, OpenBrace] + EnumeratorWords(definition.value.enumerators) + [CloseBrace])
      else Plain([EnumWord])
    case Function(to, parameters) =>
      names[to].Add(RIGHT, ARRAY_FUNCTION, [Open] + ListNames(TypeIds(parameters), names) + [Close])
    case ElfSymbol(symbolName, _, _, _, _, _, _, typeId, fullName) =>
      var name := if fullName.Some? then fullName.value else symbolName;
      if typeId.Some? then names[typeId.value].Add(LEFT, ATOMIC, [Word(Text(name))]) else JustWord(name)
    case Symbols(_) => JustWord("symbols")
  }

  lemma {:induction false} ListsAgree(ids: seq<Id>, names1: NameCache, names2: NameCache)
    requires forall id :: id in ids ==> id in names1 && id in names2 && names1[id] == names2[id]
    ensures ListNames(ids, names1) == ListNames(ids, names2) && MemberNames(ids, names1) == MemberNames(ids, names2)
  {
    if ids != [] { ListsAgree(ids[..|ids| - 1], names1, names2); }
  }

  /** Only the needed names matter. */
  lemma RenderedAgree(g: Graph, id: Id, names1: NameCache, names2: NameCache)
    requires WellFormed(g) && id in g && QualifiersApply(g) && AllSane(g, names1) && AllSane(g, names2)
    requires Needs(g, id) <= names1.Keys && Needs(g, id) <= names2.Keys
    requires forall n :: n in Needs(g, id) ==> names1[n] == names2[n]
    ensures Rendered(g, id, names1) == Rendered(g, id, names2)
  {
    hide ListNames, MemberNames, QualifiersApply, Name.Add, Name.Qualify;
    match g[id]
    case StructUnion(_, "", Some(d)) =>
      ListsAgree(d.members, names1, names2);
    case Function(_, parameters) =>
      assert forall t :: t in TypeIds(parameters) ==> t in Needs(g, id);
      ListsAgree(TypeIds(parameters), names1, names2);
    case _ =>
  }

  // ---- names without a cache ----

  /** The name of this node is not made from itself, nor is any that it is made from. */
  ghost predicate Founded(g: Graph, id: Id)
    requires WellFormed(g)
  {
    forall a: Id, b: Id :: Reaches(NameEdges(g), id, a) && (a, b) in NameEdges(g) ==> !Reaches(NameEdges(g), b, a)
  }

  lemma NeededIsFounded(g: Graph, id: Id, to: Id)
    requires WellFormed(g) && id in g && Founded(g, id) && to in Needs(g, id)
    ensures to in g && Founded(g, to)
    ensures |ReachSet(NameEdges(g), to)| < |ReachSet(NameEdges(g), id)|
  {
    hide WellFormed, Needs, Reaches;
    NeedsInGraph(g, id);
    ReachesSelf(NameEdges(g), id);
    assert (id, to) in NameEdges(g);
    EdgeGoesDown(NameEdges(g), id, to);
    forall a: Id, b: Id | Reaches(NameEdges(g), to, a) && (a, b) in NameEdges(g) ensures !Reaches(NameEdges(g), b, a) {
      ReachesStep(NameEdges(g), id, to, a);
    }
  }

  /** The name of a node, as it is made without a cache. */
  ghost function Rendering(g: Graph, id: Id): (name: Name)
    requires WellFormed(g) && id in g && QualifiersApply(g) && Founded(g, id)
    ensures Sane(g[id], name)
    decreases |ReachSet(NameEdges(g), id)|
  {
    NeedsInGraph(g, id);
    var names := map n | n in Needs(g, id) :: (NeededIsFounded(g, id, n); Rendering(g, n));
    Rendered(g, id, names)
  }

  lemma RenderedIsRendering(g: Graph, id: Id, names: NameCache)
    requires WellFormed(g) && id in g && QualifiersApply(g) && Founded(g, id) && AllSane(g, names)
    requires Needs(g, id) <= names.Keys && Needs(g, id) <= g.Keys
    requires forall n :: n in Needs(g, id) ==> Founded(g, n) && names[n] == Rendering(g, n)
    ensures Rendered(g, id, names) == Rendering(g, id)
  {
    hide Rendered, Needs, WellFormed, QualifiersApply, Founded;
    forall n | n in Needs(g, id) ensures |ReachSet(NameEdges(g), n)| < |ReachSet(NameEdges(g), id)| {
      NeededIsFounded(g, id, n);
    }
    RenderedAgree(g, id, names, map n | n in Needs(g, id) :: Rendering(g, n));
  }
}

/** The type graph (stg.h): nodes that refer to one another by id, and the parts of a comparison that
    follow chains of nodes. */
module Graph {
  import opened Wrappers
  import opened Reachability
  import opened Strings

  type Id = nat

  datatype Qualifier = CONST | VOLATILE | RESTRICT
  datatype PointerKind = PTR | LVALUE_REFERENCE | RVALUE_REFERENCE
  datatype Encoding =
    BOOLEAN | SIGNED_INTEGER | UNSIGNED_INTEGER | SIGNED_CHARACTER | UNSIGNED_CHARACTER | UTF
  datatype Inheritance = NON_VIRTUAL_BASE | VIRTUAL_BASE
  datatype MethodKind = NON_VIRTUAL | STATIC | VIRTUAL
  datatype StructKind = CLASS | STRUCT | UNION
  datatype SymbolType = OBJECT | FUNCTION | COMMON | TLS
  datatype Binding = GLOBAL | LOCAL | WEAK | GNU_UNIQUE
  datatype Visibility = DEFAULT | PROTECTED | HIDDEN | INTERNAL

  datatype Parameter = Parameter(name: string, typeId: Id)
  datatype VersionInfo = VersionInfo(isDefault: bool, name: string)
  datatype StructDefinition =
    StructDefinition(bytesize: nat, baseClasses: seq<Id>, methods: seq<Id>, members: seq<Id>)
  datatype EnumDefinition = EnumDefinition(bytesize: nat, enumerators: seq<(string, int)>)

  datatype Node =
    | Void
    | Variadic
    | PointerReference(pointerKind: PointerKind, pointeeTypeId: Id)
    | Typedef(name: string, referredTypeId: Id)
    | Qualified(qualifier: Qualifier, qualifiedTypeId: Id)
    | Integer(name: string, encoding: Encoding, bitsize: nat, bytesize: nat)
    | Array(numberOfElements: nat, elementTypeId: Id)
    | BaseClass(typeId: Id, offset: nat, inheritance: Inheritance)
    | Member(name: string, typeId: Id, offset: nat, bitsize: nat)
    | Method(mangledName: string, name: string, methodKind: MethodKind, vtableOffset: Option<nat>, typeId: Id)
    | StructUnion(structKind: StructKind, name: string, structDefinition: Option<StructDefinition>)
    | Enumeration(name: string, enumDefinition: Option<EnumDefinition>)
    | Function(returnTypeId: Id, parameters: seq<Parameter>)
    | ElfSymbol(symbolName: string, versionInfo: Option<VersionInfo>, isDefined: bool, symbolType: SymbolType,
                binding: Binding, visibility: Visibility, crc: Option<nat>, symbolTypeId: Option<Id>,
                fullName: Option<string>)
    | Symbols(symbols: seq<(SymbolKey, Id)>)

  /** The nodes that are set. An id that was only allocated is not in the map. */
  type Graph = map<Id, Node>

  /** The nodes a node refers to. */
  function References(node: Node): set<Id> {
    match node
    case Void | Variadic | Integer(_, _, _, _) | Enumeration(_, _) => {}
    case PointerReference(_, id) => {id}
    case Typedef(_, id) => {id}
    case Qualified(_, id) => {id}
    case Array(_, id) => {id}
    case BaseClass(id, _, _) => {id}
    case Member(_, id, _, _) => {id}
    case Method(_, _, _, _, id) => {id}
    case StructUnion(_, _, None) => {}
    case StructUnion(_, _, Some(d)) =>
      (set id | id in d.baseClasses) + (set id | id in d.methods) + (set id | id in d.members)
    case Function(id, parameters) => {id} + set p | p in parameters :: p.typeId
    case ElfSymbol(_, _, _, _, _, _, _, None, _) => {}
    case ElfSymbol(_, _, _, _, _, _, _, Some(id), _) => {id}
    case Symbols(symbols) => set s | s in symbols :: s.1
  }

  /** The nodes whose matching keys a node's own key may be taken from. */
  function KeyReferences(node: Node): set<Id> {
    match node
    case BaseClass(id, _, _) => {id}
    case Member("", id, _, _) => {id}
    case StructUnion(_, "", Some(d)) => set id | id in d.members
    case _ => {}
  }

  ghost function QualifierEdges(g: Graph): Edges<Id> {
    set id | id in g && g[id].Qualified? :: (id, g[id].qualifiedTypeId)
  }

  ghost function TypedefEdges(g: Graph): Edges<Id> {
    set id | id in g && g[id].Typedef? :: (id, g[id].referredTypeId)
  }

  ghost function KeyEdges(g: Graph): Edges<Id> {
    set id, to | id in g && to in KeyReferences(g[id]) :: (id, to)
  }

  /** The symbols of a std::map come in the order of their keys. */
  ghost predicate SortedSymbols(symbols: seq<(SymbolKey, Id)>) {
    forall i, j :: 0 <= i < j < |symbols| ==> symbols[i].0.Compare(symbols[j].0) < 0
  }

  /** What comparison asks of a graph: every node referred to is set, and no chain that is followed
      without looking for repetition leads back to itself. */
  ghost predicate WellFormed(g: Graph) {
    && (forall id :: id in g ==> References(g[id]) <= g.Keys)
    && (forall id :: id in g && g[id].Symbols? ==> SortedSymbols(g[id].symbols))
    && Acyclic(QualifierEdges(g)) && Acyclic(TypedefEdges(g)) && Acyclic(KeyEdges(g))
  }

  // ---- qualifiers and typedefs ----

  /** One step off a chain of qualifiers. Qualifiers on arrays and functions are discarded. */
  function ResolveQualifier(node: Node, qualifiers: set<Qualifier>): (Option<Id>, set<Qualifier>) {
    match node
    case Qualified(qualifier, id) => (Some(id), qualifiers + {qualifier})
    case Array(_, _) => (None, {})
    case Function(_, _) => (None, {})
    case _ => (None, qualifiers)
  }

  /** The end of a chain of qualifiers, and the qualifiers collected on the way. */
  function Unqualified(g: Graph, id: Id, qualifiers: set<Qualifier>): (r: (Id, set<Qualifier>))
    requires WellFormed(g) && id in g
    ensures r.0 in g && !g[r.0].Qualified?
    ensures r.1 != {} ==> !g[r.0].Array? && !g[r.0].Function?
    ensures !g[r.0].Array? && !g[r.0].Function? ==> qualifiers <= r.1
    decreases |ReachSet(QualifierEdges(g), id)|
  {
    match ResolveQualifier(g[id], qualifiers)
    case (None, collected) => (id, collected)
    case (Some(under), collected) =>
      assert under in References(g[id]);
      ReachSetShrinks(QualifierEdges(g), id, under);
      Unqualified(g, under, collected)
  }

  method ResolveQualifiers(g: Graph, id: Id, qualifiers: set<Qualifier>)
    returns (resolved: Id, collected: set<Qualifier>)
    requires WellFormed(g) && id in g
    ensures (resolved, collected) == Unqualified(g, id, qualifiers)
  {
    resolved, collected := id, qualifiers;
    while true
      invariant resolved in g && Unqualified(g, resolved, collected) == Unqualified(g, id, qualifiers)
      decreases |ReachSet(QualifierEdges(g), resolved)|
    {
      var (maybe, more) := ResolveQualifier(g[resolved], collected);
      collected := more;
      if maybe == None {
        return;
      }
      assert maybe.value in References(g[resolved]);
      ReachSetShrinks(QualifierEdges(g), resolved, maybe.value);
      resolved := maybe.value;
    }
  }

  /** The end of a chain of typedefs, and their names. */
  function Resolved(g: Graph, id: Id, typedefs: seq<string>): (r: (Id, seq<string>))
    requires WellFormed(g) && id in g
    ensures r.0 in g && !g[r.0].Typedef?
    ensures typedefs <= r.1
    ensures if g[id].Typedef? then r.1 != [] && r.0 != id else r == (id, typedefs)
    decreases |ReachSet(TypedefEdges(g), id)|
  {
    if g[id].Typedef? then
      assert g[id].referredTypeId in References(g[id]);
      ReachSetShrinks(TypedefEdges(g), id, g[id].referredTypeId);
      Resolved(g, g[id].referredTypeId, typedefs + [g[id].name])
    else (id, typedefs)
  }

  method ResolveTypedefs(g: Graph, id: Id, typedefs: seq<string>) returns (resolved: Id, names: seq<string>)
    requires WellFormed(g) && id in g
    ensures (resolved, names) == Resolved(g, id, typedefs)
  {
    resolved, names := id, typedefs;
    while g[resolved].Typedef?
      invariant resolved in g && Resolved(g, resolved, names) == Resolved(g, id, typedefs)
      decreases |ReachSet(TypedefEdges(g), resolved)|
    {
      assert g[resolved].referredTypeId in References(g[resolved]);
      ReachSetShrinks(TypedefEdges(g), resolved, g[resolved].referredTypeId);
      names := names + [g[resolved].name];
      resolved := g[resolved].referredTypeId;
    }
  }

  // ---- matching keys ----

  /** The name under which a node is matched with another, empty if there is none. */
  function MatchingKey(g: Graph, id: Id): string
    requires WellFormed(g) && id in g
    decreases |ReachSet(KeyEdges(g), id)|, 1, 0
  {
    match g[id]
    case BaseClass(typeId, _, _) => KeyOf(g, id, typeId)
    case Member(name, typeId, _, _) => if name != "" then name else KeyOf(g, id, typeId)
    case Method(mangledName, name, _, _, _) => name + "," + mangledName
    case StructUnion(_, name, definition) =>
      if name != "" then name
      else if definition.Some? then FirstKey(g, id, definition.value.members)
      else ""
    case _ => ""
  }

  function KeyOf(g: Graph, id: Id, to: Id): string
    requires WellFormed(g) && id in g && to in KeyReferences(g[id])
    decreases |ReachSet(KeyEdges(g), id)|, 0, 0
  {
    assert to in References(g[id]);
    ReachSetShrinks(KeyEdges(g), id, to);
    MatchingKey(g, to)
  }

  function FirstKey(g: Graph, id: Id, members: seq<Id>): string
    requires WellFormed(g) && id in g && forall m :: m in members ==> m in KeyReferences(g[id])
    decreases |ReachSet(KeyEdges(g), id)|, 0, |members| + 1
  {
    if members == [] then ""
    else
      var key := KeyOf(g, id, members[0]);
      if key != "" then key else FirstKey(g, id, members[1..])
  }
}

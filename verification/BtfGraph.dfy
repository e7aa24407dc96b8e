/** What the records of a BTF type section mean as a graph, independently of the order in which the reader
    comes to allocate ids. */
module BtfGraph {
  import opened Wrappers
  import opened Graph
  import opened BtfFormat

  /** The indices a record refers to, other than for parameters. Zero means the void type. */
  function TypeRefs(record: Record): set<nat> {
    match record
    case PointerRecord(t) => {t}
    case TypedefRecord(_, t) => {t}
    case QualifierRecord(_, t) => {t}
    case ArrayRecord(_, t) => {t}
    case StructRecord(_, _, _, members) => set m | m in members :: m.typeIndex
    case FunctionRecord(_, t) => {t}
    case PrototypeRecord(t, _) => {t}
    case VariableRecord(_, t) => {t}
    case _ => {}
  }

  /** The indices a record refers to for parameters. Zero means variadic. */
  function ParameterRefs(record: Record): set<nat> {
    match record
    case PrototypeRecord(_, parameters) => set p | p in parameters :: p.typeIndex
    case _ => {}
  }

  /** Types are numbered from 1 in the order of their records. */
  predicate Defined(records: seq<Record>, n: nat, index: nat) {
    1 <= index <= n && index <= |records| && !records[index - 1].SectionRecord?
  }

  /** One of the first n records refers to this type. */
  ghost predicate Mentioned(records: seq<Record>, n: nat, index: nat) {
    exists k :: 0 <= k < n && k < |records| && (index in TypeRefs(records[k]) || index in ParameterRefs(records[k]))
  }

  ghost predicate MentionsVoid(records: seq<Record>, n: nat) {
    exists k :: 0 <= k < n && k < |records| && 0 in TypeRefs(records[k])
  }

  ghost predicate MentionsVariadic(records: seq<Record>, n: nat) {
    exists k :: 0 <= k < n && k < |records| && 0 in ParameterRefs(records[k])
  }

  /** One of the first n records is a struct or union with such a member. */
  predicate IsMember(records: seq<Record>, n: nat, index: nat, position: nat) {
    && 1 <= index <= n && index <= |records|
    && records[index - 1].StructRecord? && position < |records[index - 1].members|
  }

  /** What an id was allocated for. */
  datatype Role = TypeRole(index: nat) | VoidRole | VariadicRole | MemberRole(index: nat, position: nat)

  /** The state of the reader as a value: the nodes that are set, how many ids are allocated, the ids of the
      types met so far, and what each id allocated by this reader is for. */
  datatype View = View(
    nodes: map<Id, Node>, size: nat, voidId: Option<Id>, variadicId: Option<Id>, ids: map<nat, Id>,
    roles: map<Id, Role>)

  function Ref(v: View, index: nat): Option<Id> {
    if index == 0 then v.voidId else if index in v.ids then Some(v.ids[index]) else None
  }

  function ParameterRef(v: View, index: nat): Option<Id> {
    if index == 0 then v.variadicId else if index in v.ids then Some(v.ids[index]) else None
  }

  ghost predicate NewIds(v: View, base: nat) {
    base <= v.size && forall id: Id :: id in v.roles <==> base <= id < v.size
  }

  ghost predicate OneIdPerRole(v: View) {
    forall a, b :: a in v.roles && b in v.roles && v.roles[a] == v.roles[b] ==> a == b
  }

  ghost predicate TypesListed(v: View) {
    && (forall index :: index in v.ids ==>
        index != 0 && v.ids[index] in v.roles && v.roles[v.ids[index]] == TypeRole(index))
    && (forall id :: id in v.roles && v.roles[id].TypeRole? ==>
        v.roles[id].index in v.ids && v.ids[v.roles[id].index] == id)
  }

  ghost predicate SharedListed(v: View) {
    && (v.voidId.Some? ==> v.voidId.value in v.roles && v.roles[v.voidId.value] == VoidRole)
    && (v.variadicId.Some? ==> v.variadicId.value in v.roles && v.roles[v.variadicId.value] == VariadicRole)
    && (forall id :: id in v.roles && v.roles[id] == VoidRole ==> v.voidId == Some(id))
    && (forall id :: id in v.roles && v.roles[id] == VariadicRole ==> v.variadicId == Some(id))
  }

  /** Each id allocated by the reader has one role, and each role one id. */
  ghost predicate RolesAreUnique(v: View, base: nat) {
    NewIds(v, base) && OneIdPerRole(v) && TypesListed(v) && SharedListed(v)
  }

  ghost predicate ExactlySet(v: View, before: map<Id, Node>, records: seq<Record>, n: nat) {
    forall id :: id in v.nodes <==> id in before || (id in v.roles && IsSet(v.roles[id], records, n))
  }

  ghost predicate Unchanged(v: View, base: nat, before: map<Id, Node>) {
    forall id :: id in before ==> id < base && id in v.nodes && v.nodes[id] == before[id]
  }

  ghost predicate SharedSet(v: View) {
    && (v.voidId.Some? ==> v.voidId.value in v.nodes && v.nodes[v.voidId.value] == Void)
    && (v.variadicId.Some? ==> v.variadicId.value in v.nodes && v.nodes[v.variadicId.value] == Variadic)
  }

  /** The nodes that were there before are unchanged, and of those allocated since exactly the ones that are
      defined are set. */
  ghost predicate NodesAreSet(v: View, base: nat, before: map<Id, Node>, records: seq<Record>, n: nat) {
    ExactlySet(v, before, records, n) && Unchanged(v, base, before) && SharedSet(v)
  }

  predicate IsSet(role: Role, records: seq<Record>, n: nat) {
    role.TypeRole? ==> Defined(records, n, role.index)
  }

  /** Ids are only allocated for what is defined or mentioned. */
  ghost predicate NothingElse(v: View, records: seq<Record>, n: nat) {
    && (forall index :: index in v.ids ==> Defined(records, n, index) || Mentioned(records, n, index))
    && (forall id :: id in v.roles && v.roles[id].MemberRole? ==>
        IsMember(records, n, v.roles[id].index, v.roles[id].position))
    && (v.voidId.Some? ==> MentionsVoid(records, n))
    && (v.variadicId.Some? ==> MentionsVariadic(records, n))
  }

  /** A reference leads to the id of the type with that index. */
  ghost predicate Leads(v: View, id: Id, index: nat) {
    Ref(v, index) == Some(id)
  }

  ghost predicate LeadsForParameter(v: View, id: Id, index: nat) {
    ParameterRef(v, index) == Some(id)
  }

  ghost predicate MembersMean(v: View, i: nat, ids: seq<Id>, members: seq<MemberRecord>, n: nat) {
    && |ids| == n <= |members|
    && forall k :: 0 <= k < n ==> MemberMeans(v, i, k, ids[k], members[k])
  }

  ghost predicate MemberMeans(v: View, i: nat, k: nat, id: Id, member: MemberRecord) {
    && id in v.roles && v.roles[id] == MemberRole(i, k) && id in v.nodes
    && v.nodes[id].Member? && v.nodes[id].name == member.name
    && v.nodes[id].offset == member.offset && v.nodes[id].bitsize == member.bitsize
    && Leads(v, v.nodes[id].typeId, member.typeIndex)
  }

  ghost predicate ParametersMean(v: View, parameters: seq<Parameter>, records: seq<ParameterRecord>, n: nat) {
    && |parameters| == n <= |records|
    && forall k :: 0 <= k < n ==>
         parameters[k].name == records[k].name && LeadsForParameter(v, parameters[k].typeId, records[k].typeIndex)
  }

  ghost predicate IsSymbol(v: View, node: Node, name: string, symbolType: SymbolType, index: nat) {
    && node.ElfSymbol?
    && node == ElfSymbol(name, None, true, symbolType, GLOBAL, DEFAULT, None, node.symbolTypeId, None)
    && node.symbolTypeId.Some? && Leads(v, node.symbolTypeId.value, index)
  }

  /** What the node of the i-th type is, according to its record. */
  ghost predicate NodeMeans(v: View, i: nat, node: Node, record: Record) {
    match record
    case IntRecord(name, encoding, bits, size) => node == Integer(name, encoding, bits, size)
    case PointerRecord(t) => node.PointerReference? && node.pointerKind == PTR && Leads(v, node.pointeeTypeId, t)
    case TypedefRecord(name, t) => node.Typedef? && node.name == name && Leads(v, node.referredTypeId, t)
    case QualifierRecord(q, t) => node.Qualified? && node.qualifier == q && Leads(v, node.qualifiedTypeId, t)
    case ArrayRecord(number, t) => node.Array? && node.numberOfElements == number && Leads(v, node.elementTypeId, t)
    case StructRecord(kind, name, size, members) =>
      && node.StructUnion? && node.structKind == kind && node.name == name && node.structDefinition.Some?
      && node.structDefinition.value.bytesize == size
      && node.structDefinition.value.baseClasses == [] && node.structDefinition.value.methods == []
      && MembersMean(v, i, node.structDefinition.value.members, members, |members|)
    case EnumRecord(name, size, enumerators) =>
      // an enum without enumerators is a declaration
      node == Enumeration(name, if enumerators == [] then None else Some(EnumDefinition(size, enumerators)))
    case ForwardRecord(kind, name) => node == StructUnion(kind, name, None)
    case FunctionRecord(name, t) => IsSymbol(v, node, name, FUNCTION, t)
    case PrototypeRecord(t, parameters) =>
      && node.Function? && Leads(v, node.returnTypeId, t)
      && ParametersMean(v, node.parameters, parameters, |parameters|)
    case VariableRecord(name, t) => IsSymbol(v, node, name, OBJECT, t)
    case SectionRecord => false
  }

  ghost predicate RecordMeans(v: View, i: nat, record: Record) {
    record.SectionRecord? || (i in v.ids && v.ids[i] in v.nodes && NodeMeans(v, i, v.nodes[v.ids[i]], record))
  }

  /** The first n records have been read, and the next ones up to `started` may have been begun. */
  ghost predicate Meaning(v: View, base: nat, before: map<Id, Node>, records: seq<Record>, n: nat, started: nat) {
    && n <= started <= |records|
    && RolesAreUnique(v, base) && NodesAreSet(v, base, before, records, n) && NothingElse(v, records, started)
    && forall k :: 0 <= k < n ==> RecordMeans(v, k + 1, records[k])
  }

  // ---- how the state grows ----

  ghost predicate Grows(v: View, w: View) {
    && v.size <= w.size
    && (forall id :: id in v.nodes ==> id in w.nodes && w.nodes[id] == v.nodes[id])
    && (forall index :: index in v.ids ==> index in w.ids && w.ids[index] == v.ids[index])
    && (forall id :: id in v.roles ==> id in w.roles && w.roles[id] == v.roles[id])
    && (v.voidId.Some? ==> w.voidId == v.voidId) && (v.variadicId.Some? ==> w.variadicId == v.variadicId)
  }

  /** No member has been added. */
  ghost predicate SameMembers(v: View, w: View) {
    forall id :: id in w.roles && w.roles[id].MemberRole? ==> id in v.roles
  }

  lemma GrowsTrans(u: View, v: View, w: View)
    requires Grows(u, v) && Grows(v, w)
    ensures Grows(u, w)
  {
  }

  lemma MembersStay(v: View, w: View, i: nat, ids: seq<Id>, members: seq<MemberRecord>, n: nat)
    requires Grows(v, w) && MembersMean(v, i, ids, members, n)
    ensures MembersMean(w, i, ids, members, n)
  {
  }

  lemma ParametersStay(v: View, w: View, parameters: seq<Parameter>, records: seq<ParameterRecord>, n: nat)
    requires Grows(v, w) && ParametersMean(v, parameters, records, n)
    ensures ParametersMean(w, parameters, records, n)
  {
  }

  lemma NodeStays(v: View, w: View, i: nat, node: Node, record: Record)
    requires Grows(v, w) && NodeMeans(v, i, node, record)
    ensures NodeMeans(w, i, node, record)
  {
    hide Grows, MembersMean, ParametersMean;
    RefsStay(v, w);
    match record
    case StructRecord(_, _, _, members) =>
        MembersStay(v, w, i, node.structDefinition.value.members, members, |members|);
    case PrototypeRecord(_, parameters) => ParametersStay(v, w, node.parameters, parameters, |parameters|);
    case _ =>
  }

  lemma RefsStay(v: View, w: View)
    requires Grows(v, w)
    ensures forall id, index :: Leads(v, id, index) ==> Leads(w, id, index)
  {
  }

  lemma RecordsStay(v: View, w: View, records: seq<Record>, n: nat)
    requires Grows(v, w) && n <= |records| && forall k :: 0 <= k < n ==> RecordMeans(v, k + 1, records[k])
    ensures forall k :: 0 <= k < n ==> RecordMeans(w, k + 1, records[k])
  {
    hide NodeMeans;
    forall k | 0 <= k < n && !records[k].SectionRecord? ensures RecordMeans(w, k + 1, records[k]) {
      NodeStays(v, w, k + 1, v.nodes[v.ids[k + 1]], records[k]);
    }
  }

  /** A new id, for this role, with a node if it can be set already. */
  function Allocated(v: View, role: Role, node: Option<Node>): View {
    View(if node.Some? then v.nodes[v.size := node.value] else v.nodes,
         v.size + 1,
         if role == VoidRole then Some(v.size) else v.voidId,
         if role == VariadicRole then Some(v.size) else v.variadicId,
         if role.TypeRole? then v.ids[role.index := v.size] else v.ids,
         v.roles[v.size := role])
  }

  /** The role is new, and the node is what it should be. */
  ghost predicate MayAllocate(v: View, base: nat, before: map<Id, Node>, records: seq<Record>, n: nat, started: nat,
                              role: Role, node: Option<Node>)
  {
    && Meaning(v, base, before, records, n, started)
    && (node.Some? <==> IsSet(role, records, n))
    && match role
       case TypeRole(index) =>
         index != 0 && index !in v.ids && (Defined(records, started, index) || Mentioned(records, started, index))
       case VoidRole => v.voidId == None && node == Some(Void) && MentionsVoid(records, started)
       case VariadicRole => v.variadicId == None && node == Some(Variadic) && MentionsVariadic(records, started)
       case MemberRole(index, position) =>
         NoMemberFrom(v, index, position) && IsMember(records, started, index, position)
  }

  /** The members of this type from a position on have not been added yet. */
  ghost predicate NoMemberFrom(v: View, index: nat, position: nat) {
    forall id :: id in v.roles && v.roles[id].MemberRole? && v.roles[id].index == index ==>
      v.roles[id].position < position
  }

  lemma AllocatedMeaning(
      v: View, base: nat, before: map<Id, Node>, records: seq<Record>, n: nat, started: nat, role: Role,
      node: Option<Node>)
    requires MayAllocate(v, base, before, records, n, started, role, node)
    ensures var w := Allocated(v, role, node);
            && Grows(v, w) && Meaning(w, base, before, records, n, started)
            && (!role.MemberRole? ==> SameMembers(v, w))
            && (role.MemberRole? ==> NoMemberFrom(w, role.index, role.position + 1))
  {
    hide RolesAreUnique, NodesAreSet, NothingElse, RecordMeans, Grows;
    var w := Allocated(v, role, node);
    RoleIsNew(v, base, before, records, n, started, role, node);
    AllocatedRoles(v, base, role, node);
    AllocatedNodes(v, base, before, records, n, role, node);
    AllocatedElse(v, base, records, started, role, node);
    AllocatedGrows(v, base, before, records, n, role, node);
    RecordsStay(v, w, records, n);
  }

  lemma RoleIsNew(
      v: View, base: nat, before: map<Id, Node>, records: seq<Record>, n: nat, started: nat, role: Role,
      node: Option<Node>)
    requires MayAllocate(v, base, before, records, n, started, role, node)
    ensures forall id :: id in v.roles ==> v.roles[id] != role
    ensures v.size !in v.roles
  {
    hide NodesAreSet, NothingElse, RecordMeans, Mentioned, MentionsVoid, MentionsVariadic;
  }

  lemma AllocatedRoles(v: View, base: nat, role: Role, node: Option<Node>)
    requires RolesAreUnique(v, base) && (forall id :: id in v.roles ==> v.roles[id] != role)
    requires role.TypeRole? ==> role.index != 0 && role.index !in v.ids
    requires (role == VoidRole ==> v.voidId == None) && (role == VariadicRole ==> v.variadicId == None)
    ensures RolesAreUnique(Allocated(v, role, node), base)
  {
    hide TypesListed, SharedListed;
    AllocatedTypes(v, base, role, node);
    AllocatedShared(v, base, role, node);
  }

  lemma AllocatedTypes(v: View, base: nat, role: Role, node: Option<Node>)
    requires NewIds(v, base) && TypesListed(v) && (role.TypeRole? ==> role.index != 0 && role.index !in v.ids)
    ensures TypesListed(Allocated(v, role, node))
  {
  }

  lemma AllocatedShared(v: View, base: nat, role: Role, node: Option<Node>)
    requires NewIds(v, base) && SharedListed(v)
    requires (role == VoidRole ==> v.voidId == None) && (role == VariadicRole ==> v.variadicId == None)
    ensures SharedListed(Allocated(v, role, node))
  {
  }

  lemma AllocatedNodes(
      v: View, base: nat, before: map<Id, Node>, records: seq<Record>, n: nat, role: Role, node: Option<Node>)
    requires RolesAreUnique(v, base) && NodesAreSet(v, base, before, records, n)
    requires node.Some? <==> IsSet(role, records, n)
    requires (role == VoidRole ==> node == Some(Void)) && (role == VariadicRole ==> node == Some(Variadic))
    ensures NodesAreSet(Allocated(v, role, node), base, before, records, n)
  {
    hide IsSet, OneIdPerRole, TypesListed, ExactlySet;
    AllocatedExactly(v, base, before, records, n, role, node);
  }

  lemma AllocatedExactly(
      v: View, base: nat, before: map<Id, Node>, records: seq<Record>, n: nat, role: Role, node: Option<Node>)
    requires NewIds(v, base) && ExactlySet(v, before, records, n) && (node.Some? <==> IsSet(role, records, n))
    ensures ExactlySet(Allocated(v, role, node), before, records, n)
  {
    hide IsSet;
  }

  lemma AllocatedElse(v: View, base: nat, records: seq<Record>, started: nat, role: Role, node: Option<Node>)
    requires NothingElse(v, records, started) && RolesAreUnique(v, base)
    requires match role
             case TypeRole(index) => Defined(records, started, index) || Mentioned(records, started, index)
             case VoidRole => MentionsVoid(records, started)
             case VariadicRole => MentionsVariadic(records, started)
             case MemberRole(index, position) => IsMember(records, started, index, position)
    ensures NothingElse(Allocated(v, role, node), records, started)
  {
    hide Defined, Mentioned, MentionsVoid, MentionsVariadic, IsMember, RolesAreUnique;
  }

  lemma AllocatedGrows(
      v: View, base: nat, before: map<Id, Node>, records: seq<Record>, n: nat, role: Role, node: Option<Node>)
    requires RolesAreUnique(v, base) && NodesAreSet(v, base, before, records, n)
    requires role.TypeRole? ==> role.index !in v.ids
    requires (role == VoidRole ==> v.voidId == None) && (role == VariadicRole ==> v.variadicId == None)
    ensures Grows(v, Allocated(v, role, node))
  {
    hide IsSet;
  }

  /** The type that was being read is defined. */
  lemma TypeDefined(v: View, base: nat, before: map<Id, Node>, records: seq<Record>, n: nat, node: Node)
    requires Meaning(v, base, before, records, n, n + 1) && n + 1 in v.ids && !records[n].SectionRecord?
    requires NodeMeans(v, n + 1, node, records[n])
    ensures v.ids[n + 1] !in v.nodes && v.ids[n + 1] < v.size
    ensures var w := v.(nodes := v.nodes[v.ids[n + 1] := node]);
            Grows(v, w) && Meaning(w, base, before, records, n + 1, n + 1)
  {
    hide RolesAreUnique, NodesAreSet, NothingElse, RecordMeans, Grows, NodeMeans;
    var w := v.(nodes := v.nodes[v.ids[n + 1] := node]);
    DefinedNodes(v, base, before, records, n, node);
    RecordsStay(v, w, records, n);
    NodeStays(v, w, n + 1, node, records[n]);
    NothingElseStays(v, w, records, n + 1);
    RecordDefined(w, n + 1, node, records[n]);
    forall k | 0 <= k < n + 1 ensures RecordMeans(w, k + 1, records[k]) { }
  }

  lemma RecordDefined(w: View, i: nat, node: Node, record: Record)
    requires i in w.ids && w.ids[i] in w.nodes && w.nodes[w.ids[i]] == node && NodeMeans(w, i, node, record)
    ensures RecordMeans(w, i, record)
  {
    hide NodeMeans;
  }

  lemma DefinedNodes(v: View, base: nat, before: map<Id, Node>, records: seq<Record>, n: nat, node: Node)
    requires RolesAreUnique(v, base) && NodesAreSet(v, base, before, records, n) && n < |records|
    requires n + 1 in v.ids && !records[n].SectionRecord?
    ensures v.ids[n + 1] !in v.nodes && v.ids[n + 1] < v.size
    ensures var w := v.(nodes := v.nodes[v.ids[n + 1] := node]);
            Grows(v, w) && RolesAreUnique(w, base) && NodesAreSet(w, base, before, records, n + 1)
  {
    hide OneIdPerRole, ExactlySet;
    NotDefinedYet(v, base, before, records, n);
    var w := v.(nodes := v.nodes[v.ids[n + 1] := node]);
    DefinedExactly(v, base, before, records, n, node);
    assert OneIdPerRole(w) by { SameRoles(v, w); }
  }

  lemma SameRoles(v: View, w: View)
    requires v.roles == w.roles && OneIdPerRole(v)
    ensures OneIdPerRole(w)
  {
  }

  lemma NotDefinedYet(v: View, base: nat, before: map<Id, Node>, records: seq<Record>, n: nat)
    requires NewIds(v, base) && TypesListed(v) && ExactlySet(v, before, records, n) && Unchanged(v, base, before)
    requires n + 1 in v.ids
    ensures v.ids[n + 1] !in v.nodes && v.ids[n + 1] < v.size
  {
  }

  lemma DefinedExactly(v: View, base: nat, before: map<Id, Node>, records: seq<Record>, n: nat, node: Node)
    requires NewIds(v, base) && OneIdPerRole(v) && TypesListed(v) && ExactlySet(v, before, records, n) && n < |records|
    requires n + 1 in v.ids && !records[n].SectionRecord?
    ensures ExactlySet(v.(nodes := v.nodes[v.ids[n + 1] := node]), before, records, n + 1)
  {
  }

  lemma NothingElseStays(v: View, w: View, records: seq<Record>, n: nat)
    requires NothingElse(v, records, n) && w.ids == v.ids && w.roles == v.roles && w.voidId == v.voidId
    requires w.variadicId == v.variadicId
    ensures NothingElse(w, records, n)
  {
    hide Mentioned, MentionsVoid, MentionsVariadic, Defined;
  }

  /** Sections define no type. */
  lemma SectionSkipped(v: View, base: nat, before: map<Id, Node>, records: seq<Record>, n: nat)
    requires Meaning(v, base, before, records, n, n + 1) && records[n].SectionRecord?
    ensures Meaning(v, base, before, records, n + 1, n + 1)
  {
    hide NodeMeans, Mentioned, NothingElse;
  }

  /** A further record is begun. */
  lemma NextBegun(v: View, base: nat, before: map<Id, Node>, records: seq<Record>, record: Record)
    requires Meaning(v, base, before, records, |records|, |records|)
    ensures Meaning(v, base, before, records + [record], |records|, |records| + 1)
    ensures NoMemberFrom(v, |records| + 1, 0)
  {
    hide NodeMeans, RolesAreUnique, RecordMeans, Unchanged, SharedSet, NothingElse, ExactlySet;
    var n, more := |records|, records + [record];
    MoreRecords(records, record);
    SetWithMore(v, before, records, record);
    ElseWithMore(v, records, record);
    NoMembersAhead(v, records, n);
    forall k | 0 <= k < n ensures RecordMeans(v, k + 1, more[k]) {
      assert more[k] == records[k];
    }
  }

  lemma MoreRecords(records: seq<Record>, record: Record)
    ensures var more := records + [record];
            && (forall index :: Defined(records, |records|, index) <==> Defined(more, |records|, index))
            && (forall index :: Defined(records, |records|, index) ==> Defined(more, |more|, index))
            && (forall index :: Mentioned(records, |records|, index) ==> Mentioned(more, |more|, index))
            && (MentionsVoid(records, |records|) ==> MentionsVoid(more, |more|))
            && (MentionsVariadic(records, |records|) ==> MentionsVariadic(more, |more|))
            && (forall index, position :: IsMember(records, |records|, index, position) ==>
                IsMember(more, |more|, index, position))
  {
    hide TypeRefs, ParameterRefs;
    var more := records + [record];
    assert forall k :: 0 <= k < |records| ==> more[k] == records[k];
  }

  lemma SetWithMore(v: View, before: map<Id, Node>, records: seq<Record>, record: Record)
    requires ExactlySet(v, before, records, |records|)
    ensures ExactlySet(v, before, records + [record], |records|)
  {
    hide Defined;
    MoreRecords(records, record);
  }

  lemma ElseWithMore(v: View, records: seq<Record>, record: Record)
    requires NothingElse(v, records, |records|)
    ensures NothingElse(v, records + [record], |records| + 1)
  {
    hide Defined, Mentioned, MentionsVoid, MentionsVariadic, IsMember;
    MoreRecords(records, record);
  }

  lemma NoMembersAhead(v: View, records: seq<Record>, n: nat)
    requires NothingElse(v, records, n)
    ensures NoMemberFrom(v, n + 1, 0)
  {
    hide Defined, Mentioned, MentionsVoid, MentionsVariadic;
  }

  /** Types that have been defined have an id. */
  lemma DefinedIsListed(
      v: View, base: nat, before: map<Id, Node>, records: seq<Record>, n: nat, started: nat, index: nat)
    requires Meaning(v, base, before, records, n, started) && Defined(records, n, index)
    ensures index in v.ids
  {
    hide NodeMeans, RolesAreUnique, NodesAreSet, NothingElse;
    assert RecordMeans(v, index - 1 + 1, records[index - 1]);
  }

  // ---- what is left without a node ----

  /** What is mentioned has an id. */
  lemma MentionedIsListed(v: View, base: nat, before: map<Id, Node>, records: seq<Record>, n: nat, index: nat)
    requires Meaning(v, base, before, records, n, n) && Mentioned(records, n, index)
    ensures index != 0 ==> index in v.ids
    ensures index == 0 ==> v.voidId.Some? || v.variadicId.Some?
  {
    hide RolesAreUnique, NodesAreSet, NothingElse, NodeMeans;
    var k :| 0 <= k < n && (index in TypeRefs(records[k]) || index in ParameterRefs(records[k]));
    assert RecordMeans(v, k + 1, records[k]);
    RecordLeads(v, k + 1, v.nodes[v.ids[k + 1]], records[k], index);
  }

  lemma RecordLeads(v: View, i: nat, node: Node, record: Record, index: nat)
    requires NodeMeans(v, i, node, record)
    ensures index in TypeRefs(record) ==> Ref(v, index).Some?
    ensures index in ParameterRefs(record) ==> ParameterRef(v, index).Some?
  {
    match record
    case StructRecord(_, _, _, members) =>
      if m :| m in members && m.typeIndex == index {
        var k :| 0 <= k < |members| && members[k] == m;
        assert MemberMeans(v, i, k, node.structDefinition.value.members[k], members[k]);
      }
    case PrototypeRecord(_, parameters) =>
      if p :| p in parameters && p.typeIndex == index {
        var k :| 0 <= k < |parameters| && parameters[k] == p;
        assert LeadsForParameter(v, node.parameters[k].typeId, index);
      }
    case _ =>
  }

  /** A type that is mentioned although it is not defined. */
  ghost predicate Missing(records: seq<Record>, index: nat) {
    index != 0 && Mentioned(records, |records|, index) && !Defined(records, |records|, index)
  }

  /** The ids without a node are exactly those of the types that are missing. */
  lemma UnsetAreMissing(v: View, base: nat, before: map<Id, Node>, records: seq<Record>)
    requires Meaning(v, base, before, records, |records|, |records|)
    ensures forall index :: Missing(records, index) ==> index in v.ids && v.ids[index] !in v.nodes
    ensures forall id :: base <= id < v.size && id !in v.nodes ==>
              exists index :: Missing(records, index) && index in v.ids && v.ids[index] == id
  {
    hide NodeMeans, RecordMeans, Mentioned, Defined;
    forall index | Missing(records, index) ensures index in v.ids && v.ids[index] !in v.nodes {
      MentionedIsListed(v, base, before, records, |records|, index);
    }
    forall id | base <= id < v.size && id !in v.nodes
      ensures exists index :: Missing(records, index) && index in v.ids && v.ids[index] == id
    {
      assert id in v.roles && v.roles[id].TypeRole?;
      var index := v.roles[id].index;
      assert Missing(records, index) && v.ids[index] == id;
    }
  }

  /** Void and variadic are there exactly if they are mentioned. */
  lemma SharedIfMentioned(v: View, base: nat, before: map<Id, Node>, records: seq<Record>)
    requires Meaning(v, base, before, records, |records|, |records|)
    ensures v.voidId.Some? <==> MentionsVoid(records, |records|)
    ensures v.variadicId.Some? <==> MentionsVariadic(records, |records|)
  {
    hide RolesAreUnique, NodesAreSet, NodeMeans, MentionsVoid, MentionsVariadic;
    if MentionsVoid(records, |records|) {
      var k := VoidMention(records);
      assert RecordMeans(v, k + 1, records[k]);
      RecordLeads(v, k + 1, v.nodes[v.ids[k + 1]], records[k], 0);
    }
    if MentionsVariadic(records, |records|) {
      var k := VariadicMention(records);
      assert RecordMeans(v, k + 1, records[k]);
      RecordLeads(v, k + 1, v.nodes[v.ids[k + 1]], records[k], 0);
    }
  }

  lemma VoidMention(records: seq<Record>) returns (k: nat)
    requires MentionsVoid(records, |records|)
    ensures k < |records| && 0 in TypeRefs(records[k]) && !records[k].SectionRecord?
  {
    k :| 0 <= k < |records| && 0 in TypeRefs(records[k]);
  }

  lemma VariadicMention(records: seq<Record>) returns (k: nat)
    requires MentionsVariadic(records, |records|)
    ensures k < |records| && 0 in ParameterRefs(records[k]) && !records[k].SectionRecord?
  {
    k :| 0 <= k < |records| && 0 in ParameterRefs(records[k]);
  }
}

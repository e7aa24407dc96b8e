/** The reading of a type section is unique, up to the choice of ids. */
module BtfUnique {
  import opened Wrappers
  import opened Graph
  import opened BtfFormat
  import opened BtfGraph

  /** a and b were allocated for the same thing. */
  ghost predicate SameRole(v: View, w: View, a: Id, b: Id) {
    a in v.roles && b in w.roles && v.roles[a] == w.roles[b]
  }

  function Zeros(ids: seq<Id>): seq<Id> {
    seq(|ids|, k requires 0 <= k < |ids| => 0)
  }

  /** A node without the ids it refers to. */
  function Shape(node: Node): Node {
    match node
    case PointerReference(kind, _) => PointerReference(kind, 0)
    case Typedef(name, _) => Typedef(name, 0)
    case Qualified(qualifier, _) => Qualified(qualifier, 0)
    case Array(number, _) => Array(number, 0)
    case Member(name, _, offset, bitsize) => Member(name, 0, offset, bitsize)
    case StructUnion(kind, name, Some(d)) =>
      StructUnion(kind, name, Some(StructDefinition(d.bytesize, Zeros(d.baseClasses), Zeros(d.methods),
          Zeros(d.members))))
    case Function(_, parameters) =>
      Function(0, seq(|parameters|, k requires 0 <= k < |parameters| => Parameter(parameters[k].name, 0)))
    case ElfSymbol(symbolName, versionInfo, isDefined, symbolType, binding, visibility, crc, Some(_), fullName) =>
      ElfSymbol(symbolName, versionInfo, isDefined, symbolType, binding, visibility, crc, Some(0), fullName)
    case _ => node
  }

  /** The ids a node refers to, in order. */
  function Targets(node: Node): seq<Id> {
    match node
    case PointerReference(_, id) => [id]
    case Typedef(_, id) => [id]
    case Qualified(_, id) => [id]
    case Array(_, id) => [id]
    case Member(_, id, _, _) => [id]
    case StructUnion(_, _, Some(d)) => d.members
    case Function(id, parameters) => [id] + seq(|parameters|, k requires 0 <= k < |parameters| => parameters[k].typeId)
    case ElfSymbol(_, _, _, _, _, _, _, Some(id), _) => [id]
    case _ => []
  }

  /** The nodes are the same but for ids, and refer to the same things. */
  ghost predicate Corresponds(v: View, w: View, x: Node, y: Node) {
    && Shape(x) == Shape(y) && |Targets(x)| == |Targets(y)|
    && forall k :: 0 <= k < |Targets(x)| ==> SameRole(v, w, Targets(x)[k], Targets(y)[k])
  }

  lemma LeadsToSame(v: View, w: View, base1: nat, base2: nat, index: nat)
    requires RolesAreUnique(v, base1) && RolesAreUnique(w, base2)
    ensures forall a, b :: Leads(v, a, index) && Leads(w, b, index) ==> SameRole(v, w, a, b)
    ensures forall a, b :: LeadsForParameter(v, a, index) && LeadsForParameter(w, b, index) ==> SameRole(v, w, a, b)
  {
    hide NewIds, OneIdPerRole;
  }

  lemma SameRecordCorresponds(v: View, w: View, base1: nat, base2: nat, i: nat, x: Node, y: Node, record: Record)
    requires RolesAreUnique(v, base1) && RolesAreUnique(w, base2)
    requires NodeMeans(v, i, x, record) && NodeMeans(w, i, y, record)
    ensures Corresponds(v, w, x, y)
  {
    hide RolesAreUnique, Leads, LeadsForParameter, SameRole;
    match record
    case PointerRecord(t) => LeadsToSame(v, w, base1, base2, t);
    case TypedefRecord(_, t) => LeadsToSame(v, w, base1, base2, t);
    case QualifierRecord(_, t) => LeadsToSame(v, w, base1, base2, t);
    case ArrayRecord(_, t) => LeadsToSame(v, w, base1, base2, t);
    case FunctionRecord(_, t) => LeadsToSame(v, w, base1, base2, t);
    case VariableRecord(_, t) => LeadsToSame(v, w, base1, base2, t);
    case StructRecord(_, _, _, members) => StructsCorrespond(v, w, i, x, y, record);
    case PrototypeRecord(t, parameters) => FunctionsCorrespond(v, w, base1, base2, i, x, y, record);
    case _ =>
  }

  lemma StructsCorrespond(v: View, w: View, i: nat, x: Node, y: Node, record: Record)
    requires record.StructRecord? && NodeMeans(v, i, x, record) && NodeMeans(w, i, y, record)
    ensures Corresponds(v, w, x, y)
  {
    hide Leads;
    var members := record.members;
    forall k | 0 <= k < |members| ensures SameRole(v, w, Targets(x)[k], Targets(y)[k]) {
      assert MemberMeans(v, i, k, Targets(x)[k], members[k]) && MemberMeans(w, i, k, Targets(y)[k], members[k]);
    }
    assert Zeros(x.structDefinition.value.members) == Zeros(y.structDefinition.value.members);
  }

  lemma FunctionsCorrespond(v: View, w: View, base1: nat, base2: nat, i: nat, x: Node, y: Node, record: Record)
    requires RolesAreUnique(v, base1) && RolesAreUnique(w, base2)
    requires record.PrototypeRecord? && NodeMeans(v, i, x, record) && NodeMeans(w, i, y, record)
    ensures Corresponds(v, w, x, y)
  {
    hide RolesAreUnique, Leads, LeadsForParameter, SameRole;
    LeadsToSame(v, w, base1, base2, record.typeIndex);
    var parameters := record.parameters;
    forall k | 0 <= k < |parameters|
      ensures SameRole(v, w, x.parameters[k].typeId, y.parameters[k].typeId)
      ensures x.parameters[k].name == y.parameters[k].name
    {
      LeadsToSame(v, w, base1, base2, parameters[k].typeIndex);
      assert LeadsForParameter(v, x.parameters[k].typeId, parameters[k].typeIndex);
      assert LeadsForParameter(w, y.parameters[k].typeId, parameters[k].typeIndex);
    }
    assert Shape(x) == Shape(y);
  }

  /** Members mean the same in both readings. */
  lemma MembersCorrespond(v: View, w: View, base1: nat, base2: nat, i: nat, k: nat, a: Id, b: Id, member: MemberRecord)
    requires RolesAreUnique(v, base1) && RolesAreUnique(w, base2)
    requires MemberMeans(v, i, k, a, member) && MemberMeans(w, i, k, b, member)
    ensures Corresponds(v, w, v.nodes[a], w.nodes[b])
  {
    hide RolesAreUnique, Leads, SameRole;
    LeadsToSame(v, w, base1, base2, member.typeIndex);
  }

  lemma MemberOfRecord(v: View, base: nat, before: map<Id, Node>, records: seq<Record>, id: Id)
    returns (member: MemberRecord)
    requires Meaning(v, base, before, records, |records|, |records|) && id in v.roles && v.roles[id].MemberRole?
    ensures IsMember(records, |records|, v.roles[id].index, v.roles[id].position)
    ensures member == records[v.roles[id].index - 1].members[v.roles[id].position]
    ensures MemberMeans(v, v.roles[id].index, v.roles[id].position, id, member)
  {
    hide Leads, Mentioned, Defined, NodesAreSet;
    var i, k := v.roles[id].index, v.roles[id].position;
    member := records[i - 1].members[k];
    assert RecordMeans(v, i - 1 + 1, records[i - 1]);
    var node := v.nodes[v.ids[i]];
    assert MemberMeans(v, i, k, node.structDefinition.value.members[k], member);
  }

  /** Two readings of the same section: what has the same role is set in both or in neither, and has
      corresponding nodes. */
  lemma ReadingsAgree(
      v: View, base1: nat, before1: map<Id, Node>, w: View, base2: nat, before2: map<Id, Node>, records: seq<Record>,
      a: Id, b: Id)
    requires Meaning(v, base1, before1, records, |records|, |records|)
    requires Meaning(w, base2, before2, records, |records|, |records|)
    requires SameRole(v, w, a, b)
    ensures a in v.nodes <==> b in w.nodes
    ensures a in v.nodes ==> Corresponds(v, w, v.nodes[a], w.nodes[b])
  {
    hide NodeMeans, Mentioned, MemberMeans, Corresponds, NothingElse;
    SetOrNot(v, base1, before1, records, a);
    SetOrNot(w, base2, before2, records, b);
    match v.roles[a]
    case TypeRole(index) =>
      if Defined(records, |records|, index) {
        assert RecordMeans(v, index - 1 + 1, records[index - 1]) && RecordMeans(w, index - 1 + 1, records[index - 1]);
        SameRecordCorresponds(v, w, base1, base2, index, v.nodes[a], w.nodes[b], records[index - 1]);
      }
    case VoidRole => SharedCorrespond(v, w, Void);
    case VariadicRole => SharedCorrespond(v, w, Variadic);
    case MemberRole(index, position) =>
      var member1 := MemberOfRecord(v, base1, before1, records, a);
      var member2 := MemberOfRecord(w, base2, before2, records, b);
      MembersCorrespond(v, w, base1, base2, index, position, a, b, member1);
  }

  lemma SharedCorrespond(v: View, w: View, node: Node)
    requires node == Void || node == Variadic
    ensures Corresponds(v, w, node, node)
  {
  }

  lemma SetOrNot(v: View, base: nat, before: map<Id, Node>, records: seq<Record>, id: Id)
    requires RolesAreUnique(v, base) && NodesAreSet(v, base, before, records, |records|) && id in v.roles
    ensures id in v.nodes <==> IsSet(v.roles[id], records, |records|)
  {
  }

  /** Each role of one reading is one of the other. */
  lemma RolesAgree(
      v: View, base1: nat, before1: map<Id, Node>, w: View, base2: nat, before2: map<Id, Node>, records: seq<Record>,
      a: Id)
    returns (b: Id)
    requires Meaning(v, base1, before1, records, |records|, |records|)
    requires Meaning(w, base2, before2, records, |records|, |records|)
    requires a in v.roles
    ensures SameRole(v, w, a, b)
  {
    hide NodesAreSet, NodeMeans, Mentioned, Defined, MentionsVoid, MentionsVariadic, IsMember, NewIds, OneIdPerRole;
    match v.roles[a]
    case TypeRole(index) =>
      TypeIsListed(w, base2, before2, records, index);
      b := w.ids[index];
    case VoidRole =>
      SharedIfMentioned(w, base2, before2, records);
      b := w.voidId.value;
    case VariadicRole =>
      SharedIfMentioned(w, base2, before2, records);
      b := w.variadicId.value;
    case MemberRole(index, position) =>
      b := MemberIsListed(w, base2, before2, records, index, position);
  }

  lemma TypeIsListed(w: View, base: nat, before: map<Id, Node>, records: seq<Record>, index: nat)
    requires Meaning(w, base, before, records, |records|, |records|) && index != 0
    requires Defined(records, |records|, index) || Mentioned(records, |records|, index)
    ensures index in w.ids
  {
    hide Meaning, Mentioned;
    if Mentioned(records, |records|, index) {
      MentionedIsListed(w, base, before, records, |records|, index);
    } else {
      DefinedIsListed(w, base, before, records, |records|, |records|, index);
    }
  }

  lemma MemberIsListed(w: View, base: nat, before: map<Id, Node>, records: seq<Record>, index: nat, position: nat)
    returns (b: Id)
    requires Meaning(w, base, before, records, |records|, |records|) && IsMember(records, |records|, index, position)
    ensures b in w.roles && w.roles[b] == MemberRole(index, position)
  {
    hide RolesAreUnique, NodesAreSet, NothingElse, Leads;
    assert RecordMeans(w, index - 1 + 1, records[index - 1]);
    b := w.nodes[w.ids[index]].structDefinition.value.members[position];
    assert MemberMeans(w, index, position, b, records[index - 1].members[position]);
  }
}

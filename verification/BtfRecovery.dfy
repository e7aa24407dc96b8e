/** The records of a type section can be recovered from the graph that the reader makes of them. */
module BtfRecovery {
  import opened Wrappers
  import opened Graph
  import opened BtfFormat
  import opened BtfGraph

  /** The index that a type section has for the node with this id. */
  function IndexOf(v: View, id: Id): nat {
    if id in v.roles && v.roles[id].TypeRole? then v.roles[id].index else 0
  }

  function MembersOf(v: View, ids: seq<Id>): seq<MemberRecord> {
    if ids == [] then []
    else
      var n := |ids| - 1;
      MembersOf(v, ids[..n])
      + if ids[n] in v.nodes && v.nodes[ids[n]].Member? then
          var m := v.nodes[ids[n]];
          [MemberRecord(m.name, IndexOf(v, m.typeId), m.offset, m.bitsize)]
        else []
  }

  function ParametersOf(v: View, parameters: seq<Parameter>): seq<ParameterRecord> {
    seq(|parameters|, k requires 0 <= k < |parameters| =>
      ParameterRecord(parameters[k].name, IndexOf(v, parameters[k].typeId)))
  }

  /** How a node is written down, if it can be. Declarations of enumerations are written with this size. */
  function RecordOf(v: View, node: Node, size: nat): Option<Record> {
    match node
    case Integer(name, encoding, bitsize, bytesize) => Some(IntRecord(name, encoding, bitsize, bytesize))
    case PointerReference(PTR, id) => Some(PointerRecord(IndexOf(v, id)))
    case Typedef(name, id) => Some(TypedefRecord(name, IndexOf(v, id)))
    case Qualified(qualifier, id) => Some(QualifierRecord(qualifier, IndexOf(v, id)))
    case Array(number, id) => Some(ArrayRecord(number, IndexOf(v, id)))
    case StructUnion(kind, name, None) => Some(ForwardRecord(kind, name))
    case StructUnion(kind, name, Some(StructDefinition(bytesize, bases, methods, members))) =>
      if bases == [] && methods == [] then Some(StructRecord(kind, name, bytesize, MembersOf(v, members))) else None
    case Enumeration(name, None) => Some(EnumRecord(name, size, []))
    case Enumeration(name, Some(EnumDefinition(bytesize, enumerators))) =>
      Some(EnumRecord(name, bytesize, enumerators))
    case Function(id, parameters) => Some(PrototypeRecord(IndexOf(v, id), ParametersOf(v, parameters)))
    case ElfSymbol(name, None, true, FUNCTION, GLOBAL, DEFAULT, None, Some(id), None) =>
      Some(FunctionRecord(name, IndexOf(v, id)))
    case ElfSymbol(name, None, true, OBJECT, GLOBAL, DEFAULT, None, Some(id), None) =>
      Some(VariableRecord(name, IndexOf(v, id)))
    case _ => None
  }

  lemma IndexIsRecovered(v: View, base: nat, id: Id, index: nat)
    requires RolesAreUnique(v, base)
    ensures Leads(v, id, index) || LeadsForParameter(v, id, index) ==> IndexOf(v, id) == index
  {
    hide NewIds, OneIdPerRole;
  }

  lemma {:induction false} MembersAreRecovered(
      v: View, base: nat, i: nat, ids: seq<Id>, members: seq<MemberRecord>, n: nat)
    requires RolesAreUnique(v, base) && MembersMean(v, i, ids, members, n)
    ensures MembersOf(v, ids) == members[..n]
  {
    hide RolesAreUnique, Leads;
    if n > 0 {
      assert MemberMeans(v, i, n - 1, ids[n - 1], members[n - 1]);
      assert MembersMean(v, i, ids[..n - 1], members, n - 1);
      MembersAreRecovered(v, base, i, ids[..n - 1], members, n - 1);
      IndexIsRecovered(v, base, v.nodes[ids[n - 1]].typeId, members[n - 1].typeIndex);
      assert members[..n] == members[..n - 1] + [members[n - 1]];
    }
  }

  lemma ParametersAreRecovered(
      v: View, base: nat, parameters: seq<Parameter>, records: seq<ParameterRecord>)
    requires RolesAreUnique(v, base) && ParametersMean(v, parameters, records, |records|)
    ensures ParametersOf(v, parameters) == records
  {
    hide RolesAreUnique, LeadsForParameter;
    forall k | 0 <= k < |records| ensures ParametersOf(v, parameters)[k] == records[k] {
      IndexIsRecovered(v, base, parameters[k].typeId, records[k].typeIndex);
    }
  }

  /** The size of an enumeration without enumerators is all that gets lost. */
  lemma RecordIsRecovered(v: View, base: nat, i: nat, node: Node, record: Record)
    requires RolesAreUnique(v, base) && NodeMeans(v, i, node, record)
    ensures RecordOf(v, node, if record.EnumRecord? then record.size else 0) == Some(record)
  {
    hide RolesAreUnique, Leads, MembersMean, ParametersMean, IndexOf, MembersOf, ParametersOf;
    match record {
      case PointerRecord(t) => IndexIsRecovered(v, base, node.pointeeTypeId, t);
      case TypedefRecord(_, t) => IndexIsRecovered(v, base, node.referredTypeId, t);
      case QualifierRecord(_, t) => IndexIsRecovered(v, base, node.qualifiedTypeId, t);
      case ArrayRecord(_, t) => IndexIsRecovered(v, base, node.elementTypeId, t);
      case StructRecord(_, _, _, members) =>
        MembersAreRecovered(v, base, i, node.structDefinition.value.members, members, |members|);
        assert members[..|members|] == members;
      case FunctionRecord(_, t) => IndexIsRecovered(v, base, node.symbolTypeId.value, t);
      case VariableRecord(_, t) => IndexIsRecovered(v, base, node.symbolTypeId.value, t);
      case PrototypeRecord(t, parameters) =>
        IndexIsRecovered(v, base, node.returnTypeId, t);
        ParametersAreRecovered(v, base, node.parameters, parameters);
      case _ =>
    }
  }

  /** Whatever ids the reader chose, its nodes are written down as the records it read. */
  lemma RecordsAreRecovered(v: View, base: nat, before: map<Id, Node>, records: seq<Record>, k: nat)
    requires Meaning(v, base, before, records, |records|, |records|)
    requires k < |records| && !records[k].SectionRecord?
    ensures k + 1 in v.ids && v.ids[k + 1] in v.nodes
    ensures RecordOf(v, v.nodes[v.ids[k + 1]], if records[k].EnumRecord? then records[k].size else 0)
            == Some(records[k])
  {
    hide RolesAreUnique, NodesAreSet, NothingElse, NodeMeans, RecordOf;
    assert RecordMeans(v, k + 1, records[k]);
    RecordIsRecovered(v, base, k + 1, v.nodes[v.ids[k + 1]], records[k]);
  }
}

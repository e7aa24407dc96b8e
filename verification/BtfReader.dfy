/** The BTF reader (btf_reader.cc): types are given ids when they are first met, be it in a reference or in
    their own record, and nodes when their record comes up. */
module BtfReader {
  import opened Wrappers
  import opened Strings
  import opened Graph
  import opened BtfFormat
  import opened BtfGraph
  import opened BtfPull

  type SymbolMap = seq<(SymbolKey, Id)>

  /** The nodes of a graph under construction. An id that was only allocated has no node. */
  class NodeTable {
    var nodes: map<Id, Node>
    var size: nat

    ghost predicate Valid()
      reads this
    {
      forall id :: id in nodes ==> id < size
    }

    constructor ()
      ensures Valid() && nodes == map[] && size == 0
    {
      nodes, size := map[], 0;
    }

    method Allocate() returns (id: Id)
      requires Valid()
      modifies this
      ensures Valid() && id == old(size) && size == old(size) + 1 && nodes == old(nodes)
    {
      id := size;
      size := size + 1;
    }

    /** No node is set twice. */
    method Set(id: Id, node: Node)
      requires Valid() && id < size && id !in nodes
      modifies this
      ensures Valid() && nodes == old(nodes)[id := node] && size == old(size)
    {
      nodes := nodes[id := node];
    }

    method Add(node: Node) returns (id: Id)
      requires Valid()
      modifies this
      ensures Valid() && id == old(size) && size == old(size) + 1 && nodes == old(nodes)[id := node]
    {
      id := Allocate();
      Set(id, node);
    }
  }

  // ---- symbols ----

  function SymbolName(record: Record): Option<string> {
    match record
    case FunctionRecord(name, _) => Some(name)
    case VariableRecord(name, _) => Some(name)
    case _ => None
  }

  /** No two symbols have the same name. */
  ghost predicate DistinctSymbols(records: seq<Record>) {
    forall j, k :: 0 <= j < k < |records| && SymbolName(records[j]).Some? ==>
      SymbolName(records[j]) != SymbolName(records[k])
  }

  /** A symbol defined by the k-th record. */
  ghost predicate SymbolAt(v: View, records: seq<Record>, k: int, key: SymbolKey, id: Id) {
    0 <= k < |records| && SymbolName(records[k]) == Some(key.name) && key.path == "" && k + 1 in v.ids &&
        v.ids[k + 1] == id
  }

  /** The table lists the symbols defined by the records. */
  ghost predicate SymbolsMean(v: View, symbols: SymbolMap, records: seq<Record>) {
    && SortedSymbols(symbols)
    && forall key: SymbolKey, id: Id :: (key, id) in symbols <==>
         exists k :: SymbolAt(v, records, k, key, id)
  }

  /** Insertion into a std::map. */
  function InsertSymbol(symbols: SymbolMap, key: SymbolKey, id: Id): (r: Option<SymbolMap>)
    ensures r.Some? ==> forall s :: s in r.value <==> s in symbols || s == (key, id)
    ensures r.None? ==> exists other :: (key, other) in symbols
  {
    if symbols == [] || key.Compare(symbols[0].0) < 0 then Some([(key, id)] + symbols)
    else if key == symbols[0].0 then
      assert symbols[0] == (key, symbols[0].1) && symbols[0] in symbols;
      None
    else
      assert symbols == [symbols[0]] + symbols[1..];
      match InsertSymbol(symbols[1..], key, id)
      case Some(rest) => Some([symbols[0]] + rest)
      case None => None
  }

  lemma {:induction false} InsertKeepsSorted(symbols: SymbolMap, key: SymbolKey, id: Id)
    requires SortedSymbols(symbols)
    ensures InsertSymbol(symbols, key, id).Some? ==> SortedSymbols(InsertSymbol(symbols, key, id).value)
    ensures InsertSymbol(symbols, key, id).Some? <==> forall other :: (key, other) !in symbols
  {
    hide SymbolKey.Compare;
    if symbols == [] {
    } else if key.Compare(symbols[0].0) < 0 {
      BeforeAll(symbols, key);
    } else if key == symbols[0].0 {
      assert (key, symbols[0].1) in symbols;
    } else {
      assert symbols == [symbols[0]] + symbols[1..];
      InsertKeepsSorted(symbols[1..], key, id);
      if InsertSymbol(symbols[1..], key, id).Some? {
        var rest := InsertSymbol(symbols[1..], key, id).value;
        KeyCompareMirrors(symbols[0].0, key);
        forall k | 0 <= k < |rest| ensures symbols[0].0.Compare(rest[k].0) < 0 {
          assert rest[k] in rest;
          if rest[k] in symbols[1..] {
            var l :| 0 <= l < |symbols[1..]| && symbols[1..][l] == rest[k];
            assert symbols[0].0.Compare(symbols[l + 1].0) < 0;
          }
        }
      }
    }
  }

  lemma BeforeAll(symbols: SymbolMap, key: SymbolKey)
    requires SortedSymbols(symbols) && symbols != [] && key.Compare(symbols[0].0) < 0
    ensures forall k :: 0 <= k < |symbols| ==> key.Compare(symbols[k].0) < 0
    ensures forall other :: (key, other) !in symbols
  {
    hide SymbolKey.Compare;
    forall k | 0 <= k < |symbols| ensures key.Compare(symbols[k].0) < 0 {
      if k > 0 { KeyCompareTransitive(key, symbols[0].0, symbols[k].0); }
    }
  }

  // ---- the reader ----

  class Structs {
    const table: NodeTable
    var voidId: Option<Id>
    var variadicId: Option<Id>
    var ids: map<nat, Id>
    var symbols: SymbolMap
    ghost var roles: map<Id, Role>
    /** What was in the table before. */
    ghost const base: nat
    ghost const before: map<Id, Node>

    ghost function View(): View
      reads this, table
    {
      BtfGraph.View.View(table.nodes, table.size, voidId, variadicId, ids, roles)
    }

    /** n records have been read, and perhaps part of the next. */
    ghost predicate Reading(records: seq<Record>, n: nat, started: nat)
      reads this, table
    {
      table.Valid() && Meaning(View(), base, before, records, n, started)
    }

    constructor (table: NodeTable)
      requires table.Valid()
      ensures this.table == table && Reading([], 0, 0) && symbols == []
      ensures base == table.size && before == table.nodes
    {
      this.table := table;
      voidId, variadicId, ids, symbols, roles := None, None, map[], [], map[];
      base, before := table.size, table.nodes;
    }

    /** A step of the reading of a record. */
    twostate predicate Proceeds(records: seq<Record>, n: nat)
      reads this, table
    {
      && n < |records| && Reading(records, n, n + 1)
      && Grows(old(View()), View()) && SameMembers(old(View()), View()) && symbols == old(symbols)
    }

    /** The one id with the role of void. */
    method GetVoid(ghost records: seq<Record>, ghost n: nat) returns (id: Id)
      requires n < |records| && Reading(records, n, n + 1) && MentionsVoid(records, n + 1)
      modifies this, table
      ensures Proceeds(records, n) && voidId == Some(id)
    {
      hide Meaning, MentionsVoid, Grows, SameMembers;
      if voidId == None {
        ghost var v := View();
        MayAllocateShared(v, base, before, records, n, n + 1);
        AllocatedMeaning(v, base, before, records, n, n + 1, VoidRole, Some(Void));
        id := table.Add(Void);
        voidId := Some(id);
        roles := roles[id := VoidRole];
        assert View() == Allocated(v, VoidRole, Some(Void));
      } else {
        Unmoved(View());
      }
      id := voidId.value;
    }

    /** The one id with the role of a variadic parameter. */
    method GetVariadic(ghost records: seq<Record>, ghost n: nat) returns (id: Id)
      requires n < |records| && Reading(records, n, n + 1) && MentionsVariadic(records, n + 1)
      modifies this, table
      ensures Proceeds(records, n) && variadicId == Some(id)
    {
      hide Meaning, MentionsVariadic, Grows, SameMembers;
      if variadicId == None {
        ghost var v := View();
        MayAllocateShared(v, base, before, records, n, n + 1);
        AllocatedMeaning(v, base, before, records, n, n + 1, VariadicRole, Some(Variadic));
        id := table.Add(Variadic);
        variadicId := Some(id);
        roles := roles[id := VariadicRole];
        assert View() == Allocated(v, VariadicRole, Some(Variadic));
      } else {
        Unmoved(View());
      }
      id := variadicId.value;
    }

    /** The id of a type, for which a new one is allocated if there is none. */
    method GetIdRaw(ghost records: seq<Record>, ghost n: nat, index: nat) returns (id: Id)
      requires n < |records| && Reading(records, n, n + 1) && index != 0
      requires Defined(records, n + 1, index) || Mentioned(records, n + 1, index)
      modifies this, table
      ensures Proceeds(records, n) && index in ids && ids[index] == id
    {
      hide Meaning, Defined, Mentioned, Grows, SameMembers;
      if index !in ids {
        ghost var v := View();
        MayAllocateType(v, base, before, records, n, n + 1, index);
        AllocatedMeaning(v, base, before, records, n, n + 1, TypeRole(index), None);
        id := table.Allocate();
        ids := ids[index := id];
        roles := roles[id := TypeRole(index)];
        assert View() == Allocated(v, TypeRole(index), None);
      } else {
        Unmoved(View());
      }
      id := ids[index];
    }

    /** For references that are not parameters. */
    method GetId(ghost records: seq<Record>, ghost n: nat, index: nat) returns (id: Id)
      requires n < |records| && Reading(records, n, n + 1) && index in TypeRefs(records[n])
      modifies this, table
      ensures Proceeds(records, n) && Leads(View(), id, index)
    {
      hide Meaning, TypeRefs, Grows, SameMembers;
      assert Mentioned(records, n + 1, index) && (index == 0 ==> MentionsVoid(records, n + 1));
      if index != 0 {
        id := GetIdRaw(records, n, index);
      } else {
        id := GetVoid(records, n);
      }
    }

    /** For parameters. */
    method GetParameterId(ghost records: seq<Record>, ghost n: nat, index: nat) returns (id: Id)
      requires n < |records| && Reading(records, n, n + 1) && index in ParameterRefs(records[n])
      modifies this, table
      ensures Proceeds(records, n) && LeadsForParameter(View(), id, index)
    {
      hide Meaning, ParameterRefs, Grows, SameMembers;
      assert Mentioned(records, n + 1, index) && (index == 0 ==> MentionsVariadic(records, n + 1));
      if index != 0 {
        id := GetIdRaw(records, n, index);
      } else {
        id := GetVariadic(records, n);
      }
    }

    method BuildMembers(ghost records: seq<Record>, ghost n: nat, members: seq<MemberRecord>) returns (result: seq<Id>)
      requires n < |records| && Reading(records, n, n + 1) && NoMemberFrom(View(), n + 1, 0)
      requires records[n].StructRecord? && records[n].members == members
      modifies this, table
      ensures Reading(records, n, n + 1) && Grows(old(View()), View()) && symbols == old(symbols)
      ensures MembersMean(View(), n + 1, result, members, |members|)
    {
      hide Meaning, Grows, SameMembers, MembersMean, NoMemberFrom, MemberMeans;
      result := [];
      Unmoved(View());
      NoMembersYet(View(), n + 1, members);
      for i := 0 to |members|
        invariant Reading(records, n, n + 1) && Grows(old(View()), View()) && symbols == old(symbols)
        invariant NoMemberFrom(View(), n + 1, i) && MembersMean(View(), n + 1, result, members, i)
      {
        ghost var v := View();
        var raw := members[i];
        assert raw in members;
        var typeId := GetId(records, n, raw.typeIndex);
        ghost var w := View();
        MayAllocateMember(v, w, base, before, records, n, i);
        var member := Member(raw.name, typeId, raw.offset, raw.bitsize);
        AllocatedMeaning(w, base, before, records, n, n + 1, MemberRole(n + 1, i), Some(member));
        var id := table.Add(member);
        roles := roles[id := MemberRole(n + 1, i)];
        assert View() == Allocated(w, MemberRole(n + 1, i), Some(member));
        GrowsTrans(v, w, View());
        GrowsTrans(old(View()), v, View());
        OneMoreMember(v, w, n + 1, i, result, members, typeId);
        result := result + [id];
      }
    }

    method BuildParams(ghost records: seq<Record>, ghost n: nat, parameters: seq<ParameterRecord>)
      returns (result: seq<Parameter>)
      requires n < |records| && Reading(records, n, n + 1)
      requires records[n].PrototypeRecord? && records[n].parameters == parameters
      modifies this, table
      ensures Proceeds(records, n) && ParametersMean(View(), result, parameters, |parameters|)
    {
      hide Meaning, Grows, SameMembers, ParametersMean, LeadsForParameter;
      result := [];
      Unmoved(View());
      NoParametersYet(View(), parameters);
      for i := 0 to |parameters|
        invariant Proceeds(records, n) && ParametersMean(View(), result, parameters, i)
      {
        ghost var v := View();
        var raw := parameters[i];
        assert raw in parameters;
        var typeId := GetParameterId(records, n, raw.typeIndex);
        GrowsTrans(old(View()), v, View());
        SameMembersTrans(old(View()), v, View());
        OneMoreParameter(v, View(), result, parameters, i, typeId);
        result := result + [Parameter(raw.name, typeId)];
      }
    }

    /** Sets the node of the type that is being read. */
    method Define(ghost records: seq<Record>, ghost n: nat, index: nat, node: Node)
      requires n < |records| && index == n + 1 && Reading(records, n, n + 1)
      requires !records[n].SectionRecord? && NodeMeans(View(), n + 1, node, records[n])
      modifies this, table
      ensures Reading(records, n + 1, n + 1) && Grows(old(View()), View()) && symbols == old(symbols) && index in ids
    {
      hide Meaning, Grows, SameMembers, NodeMeans, Mentioned;
      ghost var u := View();
      var id := GetIdRaw(records, n, index);
      ghost var v := View();
      NodeStays(u, v, n + 1, node, records[n]);
      TypeDefined(v, base, before, records, n, node);
      table.Set(id, node);
      assert View() == v.(nodes := v.nodes[v.ids[n + 1] := node]);
      GrowsTrans(u, v, View());
    }

    /** Defines the type of a record that is neither a symbol nor a section. */
    method BuildPlainType(ghost records: seq<Record>, index: nat, record: Record)
      requires 1 <= index <= |records| && records[index - 1] == record && Reading(records, index - 1, index)
      requires NoMemberFrom(View(), index, 0)
      requires SymbolName(record) == None && !record.SectionRecord?
      modifies this, table
      ensures Reading(records, index, index) && Grows(old(View()), View()) && symbols == old(symbols) && index in ids
    {
      hide Meaning, Grows, SameMembers, MembersMean, ParametersMean, Leads, NoMemberFrom;
      ghost var n: nat, u := index - 1, View();
      Unmoved(u);
      var node;
      match record {
        case IntRecord(name, encoding, bits, size) =>
          node := Integer(name, encoding, bits, size);
        case PointerRecord(t) =>
          var id := GetId(records, n, t);
          node := PointerReference(PTR, id);
        case TypedefRecord(name, t) =>
          var id := GetId(records, n, t);
          node := Typedef(name, id);
        case QualifierRecord(qualifier, t) =>
          var id := GetId(records, n, t);
          node := Qualified(qualifier, id);
        case ArrayRecord(number, t) =>
          var id := GetId(records, n, t);
          node := Array(number, id);
        case StructRecord(kind, name, size, members) =>
          var ids := BuildMembers(records, n, members);
          node := StructUnion(kind, name, Some(StructDefinition(size, [], [], ids)));
        case EnumRecord(name, size, enumerators) =>
          // forward-declared enums are treated as enums without enumerators
          node := Enumeration(name, if enumerators == [] then None else Some(EnumDefinition(size, enumerators)));
        case ForwardRecord(kind, name) =>
          node := StructUnion(kind, name, None);
        case PrototypeRecord(t, parameters) =>
          var result := BuildParams(records, n, parameters);
          ghost var v := View();
          var id := GetId(records, n, t);
          ParametersStay(v, View(), result, parameters, |parameters|);
          GrowsTrans(u, v, View());
          node := Function(id, result);
      }
      ghost var w := View();
      Define(records, n, index, node);
      GrowsTrans(u, w, View());
    }

    /** Defines a symbol, unless there is one with that name already. */
    method BuildSymbol(ghost records: seq<Record>, index: nat, name: string, symbolType: SymbolType, typeIndex: nat)
      returns (inserted: bool)
      requires 1 <= index <= |records| && Reading(records, index - 1, index)
      requires records[index - 1] == if symbolType == FUNCTION then FunctionRecord(name, typeIndex)
                 else VariableRecord(name, typeIndex)
      requires symbolType == FUNCTION || symbolType == OBJECT
      requires SymbolsMean(View(), symbols, records[..index - 1])
      modifies this, table
      ensures inserted ==> Reading(records, index, index) && SymbolsMean(View(), symbols, records[..index])
      ensures inserted <==> forall k :: 0 <= k < index - 1 ==> SymbolName(records[k]) != Some(name)
    {
      hide Meaning, Grows, SameMembers, Leads, SymbolsMean;
      ghost var n: nat, u := index - 1, View();
      AllHaveIds(u, base, before, records, n, index);
      var typeId := GetId(records, n, typeIndex);
      ghost var v := View();
      var node := ElfSymbol(name, None, true, symbolType, GLOBAL, DEFAULT, None, Some(typeId), None);
      SymbolNodeMeans(v, index, name, symbolType, typeIndex, typeId);
      Define(records, n, index, node);
      GrowsTrans(u, v, View());
      var key := SymbolKey("", name);
      SymbolInserted(u, View(), symbols, records, n, name);
      var more := InsertSymbol(symbols, key, ids[index]);
      if more == None {
        return false;
      }
      symbols := more.value;
      return true;
    }

    /** Reads one record. Fails if it is a symbol whose name is taken. */
    method BuildOneType(ghost records: seq<Record>, index: nat, record: Record) returns (ok: bool)
      requires 1 <= index <= |records| && records[index - 1] == record && Reading(records, index - 1, index)
      requires NoMemberFrom(View(), index, 0) && SymbolsMean(View(), symbols, records[..index - 1])
      modifies this, table
      ensures ok ==> Reading(records, index, index) && SymbolsMean(View(), symbols, records[..index])
      ensures ok <==> SymbolName(record).Some? ==> forall k :: 0 <= k < index - 1 ==>
                SymbolName(records[k]) != SymbolName(record)
    {
      hide Meaning, Grows, SymbolsMean, NoMemberFrom;
      AllHaveIds(View(), base, before, records, index - 1, index);
      match record
      case FunctionRecord(name, t) => ok := BuildSymbol(records, index, name, FUNCTION, t);
      case VariableRecord(name, t) => ok := BuildSymbol(records, index, name, OBJECT, t);
      case SectionRecord =>
        SectionSkipped(View(), base, before, records, index - 1);
        Unmoved(View());
        SymbolsStay(View(), View(), symbols, records, index - 1);
        ok := true;
      case _ =>
        ghost var u := View();
        BuildPlainType(records, index, record);
        SymbolsStay(u, View(), symbols, records, index - 1);
        ok := true;
    }
  }

  lemma Unmoved(v: View)
    ensures Grows(v, v) && SameMembers(v, v)
  {
  }

  lemma MayAllocateShared(v: View, base: nat, before: map<Id, Node>, records: seq<Record>, n: nat, started: nat)
    requires Meaning(v, base, before, records, n, started)
    ensures v.voidId == None && MentionsVoid(records, started) ==>
              MayAllocate(v, base, before, records, n, started, VoidRole, Some(Void))
    ensures v.variadicId == None && MentionsVariadic(records, started) ==>
              MayAllocate(v, base, before, records, n, started, VariadicRole, Some(Variadic))
  {
    hide Meaning;
  }

  lemma MayAllocateType(
      v: View, base: nat, before: map<Id, Node>, records: seq<Record>, n: nat, started: nat, index: nat)
    requires Meaning(v, base, before, records, n, started) && index != 0 && index !in v.ids
    requires Defined(records, started, index) || Mentioned(records, started, index)
    ensures MayAllocate(v, base, before, records, n, started, TypeRole(index), None)
  {
    hide Meaning, Mentioned;
    if Defined(records, n, index) { DefinedIsListed(v, base, before, records, n, started, index); }
  }

  lemma NoMembersYet(v: View, i: nat, members: seq<MemberRecord>)
    ensures MembersMean(v, i, [], members, 0)
  {
  }

  lemma NoParametersYet(v: View, parameters: seq<ParameterRecord>)
    ensures ParametersMean(v, [], parameters, 0)
  {
  }

  lemma SameMembersTrans(u: View, v: View, w: View)
    requires SameMembers(u, v) && SameMembers(v, w) && Grows(v, w)
    ensures SameMembers(u, w)
  {
  }

  lemma MayAllocateMember(v: View, w: View, base: nat, before: map<Id, Node>, records: seq<Record>, n: nat, i: nat)
    requires n < |records| && Meaning(w, base, before, records, n, n + 1) && Grows(v, w) && SameMembers(v, w)
    requires NoMemberFrom(v, n + 1, i) && records[n].StructRecord? && i < |records[n].members|
    ensures forall member: Node :: MayAllocate(w, base, before, records, n, n + 1, MemberRole(n + 1, i), Some(member))
  {
    hide Meaning;
  }

  lemma OneMoreMember(v: View, w: View, index: nat, i: nat, ids: seq<Id>, members: seq<MemberRecord>, typeId: Id)
    requires i < |members| && MembersMean(v, index, ids, members, i) && Leads(w, typeId, members[i].typeIndex)
    requires var x := Allocated(w, MemberRole(index, i),
                                Some(Member(members[i].name, typeId, members[i].offset, members[i].bitsize)));
             Grows(v, w) && Grows(w, x) && Grows(v, x)
    ensures var x := Allocated(w, MemberRole(index, i),
                               Some(Member(members[i].name, typeId, members[i].offset, members[i].bitsize)));
            MembersMean(x, index, ids + [w.size], members, i + 1)
  {
    hide Grows, Leads;
    var x := Allocated(w, MemberRole(index, i),
                       Some(Member(members[i].name, typeId, members[i].offset, members[i].bitsize)));
    MembersStay(v, x, index, ids, members, i);
    RefsStay(w, x);
  }

  lemma OneMoreParameter(
      v: View, w: View, parameters: seq<Parameter>, records: seq<ParameterRecord>, i: nat, typeId: Id)
    requires i < |records| && Grows(v, w) && ParametersMean(v, parameters, records, i)
    requires LeadsForParameter(w, typeId, records[i].typeIndex)
    ensures ParametersMean(w, parameters + [Parameter(records[i].name, typeId)], records, i + 1)
  {
    hide Grows, LeadsForParameter;
    ParametersStay(v, w, parameters, records, i);
  }

  lemma SymbolNodeMeans(v: View, i: nat, name: string, symbolType: SymbolType, index: nat, typeId: Id)
    requires Leads(v, typeId, index) && (symbolType == FUNCTION || symbolType == OBJECT)
    ensures NodeMeans(v, i, ElfSymbol(name, None, true, symbolType, GLOBAL, DEFAULT, None, Some(typeId), None),
                      if symbolType == FUNCTION then FunctionRecord(name, index) else VariableRecord(name, index))
  {
    hide Leads;
  }

  /** Every symbol read so far has an id. */
  lemma AllHaveIds(v: View, base: nat, before: map<Id, Node>, records: seq<Record>, n: nat, started: nat)
    requires Meaning(v, base, before, records, n, started)
    ensures forall k :: 0 <= k < n && SymbolName(records[k]).Some? ==> k + 1 in v.ids
  {
    hide RolesAreUnique, NodesAreSet, NothingElse, NodeMeans;
  }

  lemma SymbolsStay(
      v: View, w: View, symbols: SymbolMap, records: seq<Record>, n: nat)
    requires n < |records| && SymbolName(records[n]) == None && Grows(v, w) && SymbolsMean(v, symbols, records[..n])
    requires forall k :: 0 <= k < n && SymbolName(records[k]).Some? ==> k + 1 in v.ids
    ensures SymbolsMean(w, symbols, records[..n + 1])
  {
    hide SortedSymbols;
    var some, more := records[..n], records[..n + 1];
    forall key: SymbolKey, id: Id ensures (key, id) in symbols <==> exists k :: SymbolAt(w, more, k, key, id) {
      if (key, id) in symbols {
        var k :| SymbolAt(v, some, k, key, id);
        assert SymbolAt(w, more, k, key, id);
      }
      if k :| SymbolAt(w, more, k, key, id) {
        assert SymbolAt(v, some, k, key, id);
      }
    }
  }

  lemma SymbolInserted(v: View, w: View, symbols: SymbolMap, records: seq<Record>, n: nat, name: string)
    requires n < |records| && SymbolName(records[n]) == Some(name) && Grows(v, w)
    requires SymbolsMean(v, symbols, records[..n])
    requires n + 1 in w.ids && forall k :: 0 <= k < n && SymbolName(records[k]).Some? ==> k + 1 in v.ids
    ensures var more := InsertSymbol(symbols, SymbolKey("", name), w.ids[n + 1]);
            && (more.Some? <==> forall k :: 0 <= k < n ==> SymbolName(records[k]) != Some(name))
            && (more.Some? ==> SymbolsMean(w, more.value, records[..n + 1]))
  {
    hide SortedSymbols, InsertSymbol;
    var some, all := records[..n], records[..n + 1];
    var key0, id0 := SymbolKey("", name), w.ids[n + 1];
    InsertKeepsSorted(symbols, key0, id0);
    var more := InsertSymbol(symbols, key0, id0);
    if k :| 0 <= k < n && SymbolName(records[k]) == Some(name) {
      assert SymbolAt(v, some, k, key0, v.ids[k + 1]);
      assert (key0, v.ids[k + 1]) in symbols;
    }
    if other: Id :| (key0, other) in symbols {
      var k :| SymbolAt(v, some, k, key0, other);
      assert SymbolName(records[k]) == Some(name);
    }
    if more.Some? {
      forall key: SymbolKey, id: Id ensures (key, id) in more.value <==> exists k :: SymbolAt(w, all, k, key, id) {
        if (key, id) in symbols {
          var k :| SymbolAt(v, some, k, key, id);
          assert SymbolAt(w, all, k, key, id);
        }
        assert SymbolAt(w, all, n, key0, id0);
        if k :| SymbolAt(w, all, k, key, id) {
          assert k != n ==> SymbolAt(v, some, k, key, id);
        }
      }
    }
  }

  // ---- the whole section ----

  /** The reading of a type section: every type, shared types and members have one id each; every node is
      what its record says; the symbol table comes last; and nothing else was added to the table. */
  ghost predicate IsReading(
      v: View, root: Id, symbols: SymbolMap, table: map<Id, Node>, size: nat, base: nat, before: map<Id, Node>,
      records: seq<Record>)
  {
    && Meaning(v, base, before, records, |records|, |records|)
    && SymbolsMean(v, symbols, records)
    && root == v.size && size == v.size + 1 && table == v.nodes[root := Symbols(symbols)]
  }

  ghost function Prepended(read: seq<Record>, rest: Option<seq<Record>>): Option<seq<Record>> {
    match rest
    case Some(more) => Some(read + more)
    case None => None
  }

  lemma RecordsGoOn(words: seq<nat>, trailing: nat, at: nat, strings: string, read: seq<Record>)
    requires at <= |words| && !(at == |words| && trailing == 0)
    ensures RecordEnd(words, at) == None ==> RecordsFrom(words, trailing, at, strings) == None
    ensures RecordEnd(words, at).Some? && RecordAt(words, at, strings) == None ==>
              RecordsFrom(words, trailing, at, strings) == None
    ensures RecordEnd(words, at).Some? && RecordAt(words, at, strings).Some? ==>
              Prepended(read, RecordsFrom(words, trailing, at, strings)) ==
              Prepended(read + [RecordAt(words, at, strings).value],
                        RecordsFrom(words, trailing, RecordEnd(words, at).value, strings))
  {
    hide RecordAt;
    if RecordEnd(words, at).Some? && RecordAt(words, at, strings).Some? {
      var rest := RecordsFrom(words, trailing, RecordEnd(words, at).value, strings);
      if rest.Some? {
        assert read + ([RecordAt(words, at, strings).value] + rest.value) == read + [RecordAt(words, at, strings).value]
                 + rest.value;
      }
    }
  }

  /** A name that is taken stays taken. */
  lemma TakenStaysTaken(read: seq<Record>, k: nat, rest: Option<seq<Record>>)
    requires k < |read| - 1 && SymbolName(read[k]).Some? && SymbolName(read[k]) == SymbolName(read[|read| - 1])
    ensures Prepended(read, rest).Some? ==> !DistinctSymbols(Prepended(read, rest).value)
  {
    if rest.Some? {
      assert (read + rest.value)[k] == read[k] && (read + rest.value)[|read| - 1] == read[|read| - 1];
    }
  }

  lemma OneMoreDistinct(read: seq<Record>, record: Record)
    requires DistinctSymbols(read)
    requires SymbolName(record).Some? ==> forall k :: 0 <= k < |read| ==> SymbolName(read[k]) != SymbolName(record)
    ensures DistinctSymbols(read + [record])
  {
  }

  lemma NothingRead(v: View)
    ensures SymbolsMean(v, [], [])
  {
  }

  /** Reads a type section. Fails if it is ill-formed or defines a symbol twice. */
  method BuildTypes(table: NodeTable, words: seq<nat>, trailing: nat, strings: string)
    returns (root: Option<Id>, ghost view: View, ghost symbols: SymbolMap)
    requires table.Valid() && trailing < 4 && 4 * |words| + trailing < 0x1_0000_0000
    modifies table
    ensures var records := RecordsFrom(words, trailing, 0, strings);
            && (root.Some? <==> records.Some? && DistinctSymbols(records.value))
            && (root.Some? ==>
                  IsReading(view, root.value, symbols, table.nodes, table.size, old(table.size), old(table.nodes),
                            records.value))
  {
    hide Meaning, SymbolsMean, RecordsFrom, RecordAt, DistinctSymbols, Grows, NoMemberFrom, SymbolName;
    var memory := new MemoryRange(words, trailing);
    var structs := new Structs(table);
    view, symbols := structs.View(), [];
    var index := 1;
    ghost var read: seq<Record> := [];
    NothingRead(structs.View());
    assert DistinctSymbols([]) by { NoSymbols(); }
    PrependedNothing(RecordsFrom(words, trailing, 0, strings));
    while !memory.Empty()
      invariant fresh(memory) && fresh(structs) && structs.table == table && memory.words == words
      invariant memory.trailing == trailing
      invariant structs.base == old(table.size) && structs.before == old(table.nodes)
      invariant memory.Valid() && index == |read| + 1 && 3 * |read| <= memory.start
      invariant structs.Reading(read, |read|, |read|) && SymbolsMean(structs.View(), structs.symbols, read)
      invariant DistinctSymbols(read)
      invariant RecordsFrom(words, trailing, 0, strings)
                  == Prepended(read, RecordsFrom(words, trailing, memory.start, strings))
      decreases |words| - memory.start
    {
      RecordsGoOn(words, trailing, memory.start, strings, read);
      var record := PullRecord(memory, strings);
      if record == None {
        return None, view, symbols;
      }
      NextBegun(structs.View(), structs.base, structs.before, read, record.value);
      ghost var more := read + [record.value];
      assert more[..index - 1] == read && more[..index] == more;
      var ok := structs.BuildOneType(more, index, record.value);
      if !ok {
        ghost var k :| 0 <= k < |read| && SymbolName(more[k]) == SymbolName(record.value) &&
          SymbolName(record.value).Some?;
        TakenStaysTaken(more, k, RecordsFrom(words, trailing, memory.start, strings));
        return None, view, symbols;
      }
      OneMoreDistinct(read, record.value);
      read := more;
      // the index is a 32-bit number
      assert index + 1 < 0x1_0000_0000;
      index := index + 1;
    }
    RecordsEnd(words, trailing, strings, read);
    view, symbols := structs.View(), structs.symbols;
    var id := table.Add(Symbols(structs.symbols));
    root := Some(id);
  }

  lemma NoSymbols()
    ensures DistinctSymbols([])
  {
  }

  lemma PrependedNothing(rest: Option<seq<Record>>)
    ensures Prepended([], rest) == rest
  {
    if rest.Some? { assert [] + rest.value == rest.value; }
  }

  lemma RecordsEnd(words: seq<nat>, trailing: nat, strings: string, read: seq<Record>)
    ensures trailing == 0 ==> Prepended(read, RecordsFrom(words, trailing, |words|, strings)) == Some(read)
  {
    assert read + [] == read;
  }
}

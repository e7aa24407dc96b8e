/** The records of a BTF type section (section 2.2 of the Linux kernel's BTF specification), and how the
    reader pulls them (btf_reader.cc). The section is a sequence of 32-bit words; a section may end with an
    incomplete word, which cannot be read. */
module BtfFormat {
  import opened Wrappers
  import opened Graph

  datatype MemberRecord = MemberRecord(name: string, typeIndex: nat, offset: nat, bitsize: nat)
  datatype ParameterRecord = ParameterRecord(name: string, typeIndex: nat)

  datatype Record =
    | IntRecord(name: string, encoding: Encoding, bits: nat, size: nat)
    | PointerRecord(typeIndex: nat)
    | TypedefRecord(name: string, typeIndex: nat)
    | QualifierRecord(qualifier: Qualifier, typeIndex: nat)
    | ArrayRecord(number: nat, typeIndex: nat)
    | StructRecord(kind: StructKind, name: string, size: nat, members: seq<MemberRecord>)
    | EnumRecord(name: string, size: nat, enumerators: seq<(string, int)>)
    | ForwardRecord(kind: StructKind, name: string)
    | FunctionRecord(name: string, typeIndex: nat)
    | PrototypeRecord(typeIndex: nat, parameters: seq<ParameterRecord>)
    | VariableRecord(name: string, typeIndex: nat)
    | SectionRecord

  const KIND_INT: nat := 1
  const KIND_PTR: nat := 2
  const KIND_ARRAY: nat := 3
  const KIND_STRUCT: nat := 4
  const KIND_UNION: nat := 5
  const KIND_ENUM: nat := 6
  const KIND_FWD: nat := 7
  const KIND_TYPEDEF: nat := 8
  const KIND_VOLATILE: nat := 9
  const KIND_CONST: nat := 10
  const KIND_RESTRICT: nat := 11
  const KIND_FUNC: nat := 12
  const KIND_FUNC_PROTO: nat := 13
  const KIND_VAR: nat := 14
  const KIND_DATASEC: nat := 15

  function KindBits(info: nat): nat {
    info / 0x100_0000 % 32
  }

  function VectorLength(info: nat): nat {
    info % 0x1_0000
  }

  predicate KindFlag(info: nat) {
    info / 0x8000_0000 % 2 == 1
  }

  /** Four bytes as a signed number. */
  function Signed(word: nat): int {
    if word < 0x8000_0000 then word else word - 0x1_0000_0000
  }

  /** Encoding bits: signed, character, boolean. */
  function EncodingOf(bits: nat): Encoding {
    if bits / 4 % 2 == 1 then BOOLEAN
    else if bits / 2 % 2 == 1 then if bits % 2 == 1 then SIGNED_CHARACTER else UNSIGNED_CHARACTER
    else if bits % 2 == 1 then SIGNED_INTEGER
    else UNSIGNED_INTEGER
  }

  /** The zero-terminated string at this offset of the string section. */
  function NameAt(strings: string, offset: nat): Option<string>
    decreases |strings| - offset
  {
    if offset >= |strings| then None
    else if strings[offset] == '\0' then Some("")
    else
      match NameAt(strings, offset + 1)
      case Some(rest) => Some([strings[offset]] + rest)
      case None => None
  }

  function MembersAt(words: seq<nat>, at: nat, n: nat, flag: bool, strings: string): (r: Option<seq<MemberRecord>>)
    requires at + 3 * n <= |words|
    ensures r.Some? ==> |r.value| == n
  {
    if n == 0 then Some([])
    else
      var k := at + 3 * (n - 1);
      match (MembersAt(words, at, n - 1, flag, strings), NameAt(strings, words[k]))
      case (Some(before), Some(name)) =>
        var offset := if flag then words[k + 2] % 0x100_0000 else words[k + 2];
        var bitsize := if flag then words[k + 2] / 0x100_0000 else 0;
        Some(before + [MemberRecord(name, words[k + 1], offset, bitsize)])
      case _ => None
  }

  function EnumeratorsAt(words: seq<nat>, at: nat, n: nat, strings: string): (r: Option<seq<(string, int)>>)
    requires at + 2 * n <= |words|
    ensures r.Some? ==> |r.value| == n
  {
    if n == 0 then Some([])
    else
      var k := at + 2 * (n - 1);
      match (EnumeratorsAt(words, at, n - 1, strings), NameAt(strings, words[k]))
      case (Some(before), Some(name)) => Some(before + [(name, Signed(words[k + 1]))])
      case _ => None
  }

  function ParametersAt(words: seq<nat>, at: nat, n: nat, strings: string): (r: Option<seq<ParameterRecord>>)
    requires at + 2 * n <= |words|
    ensures r.Some? ==> |r.value| == n
  {
    if n == 0 then Some([])
    else
      var k := at + 2 * (n - 1);
      match (ParametersAt(words, at, n - 1, strings), NameAt(strings, words[k]))
      case (Some(before), Some(name)) => Some(before + [ParameterRecord(name, words[k + 1])])
      case _ => None
  }

  /** How many words follow the three that all records begin with. */
  function ExtraWords(kind: nat, length: nat): nat {
    if kind == KIND_INT || kind == KIND_VAR then 1
    else if kind == KIND_ARRAY then 3
    else if kind == KIND_STRUCT || kind == KIND_UNION || kind == KIND_DATASEC then 3 * length
    else if kind == KIND_ENUM || kind == KIND_FUNC_PROTO then 2 * length
    else 0
  }

  function WithName(name: Option<string>, make: string -> Record): Option<Record> {
    match name
    case Some(n) => Some(make(n))
    case None => None
  }

  /** The record at a position. */
  function RecordAt(words: seq<nat>, at: nat, strings: string): Option<Record>
    requires at + 3 <= |words| && at + 3 + ExtraWords(KindBits(words[at + 1]), VectorLength(words[at + 1])) <= |words|
  {
    var info, third := words[at + 1], words[at + 2];
    var kind, length, name := KindBits(info), VectorLength(info), NameAt(strings, words[at]);
    if kind == KIND_INT then
      var data := words[at + 3];
      if data / 0x1_0000 % 0x100 != 0 then None
      else WithName(name, n => IntRecord(n, EncodingOf(data / 0x100_0000 % 16), data % 0x100, third))
    else if kind == KIND_PTR then Some(PointerRecord(third))
    else if kind == KIND_TYPEDEF then WithName(name, n => TypedefRecord(n, third))
    else if kind == KIND_VOLATILE then Some(QualifierRecord(VOLATILE, third))
    else if kind == KIND_CONST then Some(QualifierRecord(CONST, third))
    else if kind == KIND_RESTRICT then Some(QualifierRecord(RESTRICT, third))
    else if kind == KIND_ARRAY then Some(ArrayRecord(words[at + 5], words[at + 3]))
    else if kind == KIND_STRUCT || kind == KIND_UNION then
      match MembersAt(words, at + 3, length, KindFlag(info), strings)
      case Some(members) =>
        WithName(name, n => StructRecord(if kind == KIND_STRUCT then STRUCT else UNION, n, third, members))
      case None => None
    else if kind == KIND_ENUM then
      match EnumeratorsAt(words, at + 3, length, strings)
      case Some(enumerators) => WithName(name, n => EnumRecord(n, third, enumerators))
      case None => None
    else if kind == KIND_FWD then WithName(name, n => ForwardRecord(if KindFlag(info) then UNION else STRUCT, n))
    else if kind == KIND_FUNC then WithName(name, n => FunctionRecord(n, third))
    else if kind == KIND_FUNC_PROTO then
      match ParametersAt(words, at + 3, length, strings)
      case Some(parameters) => Some(PrototypeRecord(third, parameters))
      case None => None
    else if kind == KIND_VAR then WithName(name, n => VariableRecord(n, third))
    else if kind == KIND_DATASEC then Some(SectionRecord)
    else None
  }

  /** Where the record ends, if it fits in the section. */
  function RecordEnd(words: seq<nat>, at: nat): (r: Option<nat>)
    ensures r.Some? ==> at + 3 <= r.value <= |words|
  {
    if at + 3 > |words| then None
    else
      var end := at + 3 + ExtraWords(KindBits(words[at + 1]), VectorLength(words[at + 1]));
      if end > |words| then None else Some(end)
  }

  /** All records from a position on. */
  function RecordsFrom(words: seq<nat>, trailing: nat, at: nat, strings: string): Option<seq<Record>>
    requires at <= |words|
    decreases |words| - at
  {
    if at == |words| && trailing == 0 then Some([])
    else
      match RecordEnd(words, at)
      case None => None
      case Some(end) =>
        match (RecordAt(words, at, strings), RecordsFrom(words, trailing, end, strings))
        case (Some(record), Some(more)) => Some([record] + more)
        case _ => None
  }
}

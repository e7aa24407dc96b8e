/** Writing a BTF type section and its string section (section 2 of the Linux kernel's BTF specification), and why
    the reader recovers what was written. The writer spells out the numbers of the format itself. */
module BtfEncoding {
  import opened Wrappers
  import opened Graph
  import opened BtfFormat

  // ---- strings ----

  /** The name stands at this offset of the string section, with a zero after it. */
  predicate NameStands(strings: string, offset: nat, name: string) {
    && offset + |name| < |strings| && strings[offset..offset + |name|] == name
    && strings[offset + |name|] == '\0' && '\0' !in name
  }

  lemma {:induction false} NameIsRead(strings: string, offset: nat, name: string)
    requires NameStands(strings, offset, name)
    ensures NameAt(strings, offset) == Some(name)
    decreases |name|
  {
    if name != "" {
      var rest := name[1..];
      assert strings[offset] == strings[offset..offset + |name|][0] == name[0];
      assert strings[offset + 1..offset + 1 + |rest|] == strings[offset..offset + |name|][1..];
      NameIsRead(strings, offset + 1, rest);
      assert [name[0]] + rest == name;
    }
  }

  /** A string section that holds these names, one after another. */
  function StringTable(names: seq<string>): string {
    if names == [] then "" else names[0] + "\0" + StringTable(names[1..])
  }

  /** Where a name is found first. */
  function OffsetOf(names: seq<string>, name: string): nat {
    if names == [] || names[0] == name then 0 else |names[0]| + 1 + OffsetOf(names[1..], name)
  }

  lemma {:induction false} NameIsInTable(names: seq<string>, name: string)
    requires name in names && '\0' !in name
    ensures NameStands(StringTable(names), OffsetOf(names, name), name)
  {
    hide NameStands;
    var rest := StringTable(names[1..]);
    if names[0] == name {
      NameStandsFirst(name, rest);
    } else {
      assert names == [names[0]] + names[1..];
      NameIsInTable(names[1..], name);
      NameStandsLater(names[0] + "\0", rest, OffsetOf(names[1..], name), name);
    }
  }

  lemma NameStandsFirst(name: string, rest: string)
    requires '\0' !in name
    ensures NameStands(name + "\0" + rest, 0, name)
  {
    assert (name + "\0" + rest)[..|name|] == name;
  }

  lemma NameStandsLater(first: string, rest: string, at: nat, name: string)
    requires NameStands(rest, at, name)
    ensures NameStands(first + rest, |first| + at, name)
  {
    assert (first + rest)[|first| + at..|first| + at + |name|] == rest[at..at + |name|];
  }

  // ---- records ----

  /** What a record does not determine: where its name and those of its parts stand, and words that the reader
      passes over, which are the linkage of functions and variables, the type of an array's index, and the entries of
      a data section. */
  datatype Choices = Choices(place: string -> nat, linkage: nat, indexType: nat, entries: seq<(nat, nat, nat)>)

  /** The second word of a record. */
  function Info(kind: nat, length: nat, flag: bool): nat {
    (if flag then 0x8000_0000 else 0) + kind * 0x100_0000 + length
  }

  function EncodingBits(encoding: Encoding): nat {
    match encoding
    case UNSIGNED_INTEGER => 0
    case SIGNED_INTEGER => 1
    case UNSIGNED_CHARACTER => 2
    case SIGNED_CHARACTER => 3
    case BOOLEAN => 4
    case UTF => 0
  }

  predicate HasBitField(members: seq<MemberRecord>) {
    exists k :: 0 <= k < |members| && members[k].bitsize != 0
  }

  function MemberWords(choices: Choices, flag: bool, members: seq<MemberRecord>): (words: seq<nat>)
    ensures |words| == 3 * |members|
  {
    if members == [] then []
    else
      var m := members[|members| - 1];
      MemberWords(choices, flag, members[..|members| - 1])
      + [choices.place(m.name), m.typeIndex, OffsetWord(flag, m)]
  }

  /** The size of a bit-field shares a word with its offset. */
  function OffsetWord(flag: bool, m: MemberRecord): nat {
    if flag then m.bitsize * 0x100_0000 + m.offset else m.offset
  }

  /** A number in four bytes. */
  function TwosComplement(value: int): nat {
    value % 0x1_0000_0000
  }

  function EnumeratorWords(choices: Choices, enumerators: seq<(string, int)>): (words: seq<nat>)
    ensures |words| == 2 * |enumerators|
  {
    if enumerators == [] then []
    else
      var e := enumerators[|enumerators| - 1];
      EnumeratorWords(choices, enumerators[..|enumerators| - 1])
      + [choices.place(e.0), TwosComplement(e.1)]
  }

  function ParameterWords(choices: Choices, parameters: seq<ParameterRecord>): (words: seq<nat>)
    ensures |words| == 2 * |parameters|
  {
    if parameters == [] then []
    else
      var q := parameters[|parameters| - 1];
      ParameterWords(choices, parameters[..|parameters| - 1]) + [choices.place(q.name), q.typeIndex]
  }

  function EntryWords(entries: seq<(nat, nat, nat)>): (words: seq<nat>)
    ensures |words| == 3 * |entries|
  {
    if entries == [] then []
    else
      var e := entries[|entries| - 1];
      EntryWords(entries[..|entries| - 1]) + [e.0, e.1, e.2]
  }

  /** The words of a record. */
  function RecordWords(choices: Choices, r: Record): seq<nat>
  {
    var place := choices.place;
    match r
    case IntRecord(name, encoding, bits, size) =>
      [place(name), Info(1, 0, false), size, EncodingBits(encoding) * 0x100_0000 + bits]
    case PointerRecord(typeIndex) => [0, Info(2, 0, false), typeIndex]
    case ArrayRecord(number, typeIndex) => [0, Info(3, 0, false), 0, typeIndex, choices.indexType, number]
    case StructRecord(kind, name, size, members) =>
      var flag := HasBitField(members);
      [place(name), Info(if kind.UNION? then 5 else 4, |members|, flag), size] + MemberWords(choices, flag, members)
    case EnumRecord(name, size, enumerators) =>
      [place(name), Info(6, |enumerators|, false), size] + EnumeratorWords(choices, enumerators)
    case ForwardRecord(kind, name) => [place(name), Info(7, 0, kind.UNION?), 0]
    case TypedefRecord(name, typeIndex) => [place(name), Info(8, 0, false), typeIndex]
    case QualifierRecord(VOLATILE, typeIndex) => [0, Info(9, 0, false), typeIndex]
    case QualifierRecord(CONST, typeIndex) => [0, Info(10, 0, false), typeIndex]
    case QualifierRecord(RESTRICT, typeIndex) => [0, Info(11, 0, false), typeIndex]
    case FunctionRecord(name, typeIndex) => [place(name), Info(12, choices.linkage, false), typeIndex]
    case PrototypeRecord(typeIndex, parameters) =>
      [0, Info(13, |parameters|, false), typeIndex] + ParameterWords(choices, parameters)
    case VariableRecord(name, typeIndex) => [place(name), Info(14, 0, false), typeIndex, choices.linkage]
    case SectionRecord => [place(".data"), Info(15, |choices.entries|, false), 0] + EntryWords(choices.entries)
  }

  function Names(r: Record): seq<string> {
    match r
    case PointerRecord(_) => []
    case ArrayRecord(_, _) => []
    case QualifierRecord(_, _) => []
    case SectionRecord => []
    case StructRecord(_, name, _, members) => [name] + seq(|members|, k requires 0 <= k < |members| => members[k].name)
    case EnumRecord(name, _, enumerators) =>
      [name] + seq(|enumerators|, k requires 0 <= k < |enumerators| => enumerators[k].0)
    case PrototypeRecord(_, parameters) => seq(|parameters|, k requires 0 <= k < |parameters| => parameters[k].name)
    case _ => [r.name]
  }

  /** The names of a record stand where the writer says. */
  ghost predicate NamesStand(strings: string, choices: Choices, r: Record) {
    forall name :: name in Names(r) ==> NameStands(strings, choices.place(name), name)
  }

  /** The parts of the record fit in the bits that the format has for them. */
  predicate Fits(choices: Choices, r: Record) {
    match r
    case IntRecord(_, encoding, bits, _) => !encoding.UTF? && bits < 0x100
    case StructRecord(kind, _, _, members) =>
      && !kind.CLASS? && |members| < 0x1_0000
      && (HasBitField(members) ==> forall m :: m in members ==> m.offset < 0x100_0000)
    case EnumRecord(_, _, enumerators) =>
      |enumerators| < 0x1_0000 && forall e :: e in enumerators ==> -0x8000_0000 <= e.1 < 0x8000_0000
    case ForwardRecord(kind, _) => !kind.CLASS?
    case FunctionRecord(_, _) => choices.linkage < 0x1_0000
    case PrototypeRecord(_, parameters) => |parameters| < 0x1_0000
    case SectionRecord => |choices.entries| < 0x1_0000
    case _ => true
  }

  /** The words of the record stand at this place, and its names where the writer says. */
  ghost predicate Written(words: seq<nat>, at: nat, choices: Choices, r: Record, strings: string) {
    Fits(choices, r) && NamesStand(strings, choices, r) && Stands(words, at, RecordWords(choices, r))
  }

  // ---- reading back ----

  lemma InfoIsRead(kind: nat, length: nat, flag: bool)
    requires kind < 32 && length < 0x1_0000
    ensures KindBits(Info(kind, length, flag)) == kind
    ensures VectorLength(Info(kind, length, flag)) == length
    ensures KindFlag(Info(kind, length, flag)) == flag
  {
  }

  /** These words stand at this place. */
  predicate Stands(words: seq<nat>, at: nat, part: seq<nat>) {
    at + |part| <= |words| && words[at..at + |part|] == part
  }

  lemma StandsAt(words: seq<nat>, at: nat, part: seq<nat>, k: nat)
    requires Stands(words, at, part) && k < |part|
    ensures at + |part| <= |words| && words[at + k] == part[k]
  {
    assert words[at..at + |part|][k] == words[at + k];
  }

  lemma TwoStand(words: seq<nat>, at: nat, first: nat, second: nat)
    requires Stands(words, at, [first, second])
    ensures at + 2 <= |words| && words[at] == first && words[at + 1] == second
  {
    StandsAt(words, at, [first, second], 0);
    StandsAt(words, at, [first, second], 1);
  }

  lemma ThreeStand(words: seq<nat>, at: nat, first: nat, second: nat, third: nat)
    requires Stands(words, at, [first, second, third])
    ensures at + 3 <= |words| && words[at] == first && words[at + 1] == second && words[at + 2] == third
  {
    StandsAt(words, at, [first, second, third], 0);
    StandsAt(words, at, [first, second, third], 1);
    StandsAt(words, at, [first, second, third], 2);
  }

  lemma PartsStand(words: seq<nat>, at: nat, first: seq<nat>, second: seq<nat>)
    requires Stands(words, at, first + second)
    ensures Stands(words, at, first) && Stands(words, at + |first|, second)
  {
    var both := words[at..at + |first + second|];
    assert words[at..at + |first|] == both[..|first|] == first;
    assert words[at + |first|..at + |first| + |second|] == both[|first|..] == second;
  }

  lemma {:induction false} MembersAreRead(
      words: seq<nat>, at: nat, choices: Choices, flag: bool, members: seq<MemberRecord>, strings: string)
    requires Stands(words, at, MemberWords(choices, flag, members))
    requires forall m :: m in members ==> NameStands(strings, choices.place(m.name), m.name)
    requires forall m :: m in members ==> if flag then m.offset < 0x100_0000 else m.bitsize == 0
    ensures at + 3 * |members| <= |words| && MembersAt(words, at, |members|, flag, strings) == Some(members)
  {
    hide NameAt, NameStands, Stands, OffsetWord, MembersAt;
    assert at + 3 * |members| <= |words| by { StandingFits(words, at, MemberWords(choices, flag, members)); }
    if members == [] {
      NoMembers(words, at, flag, strings);
    } else {
      var n := |members| - 1;
      var m := members[n];
      var third := OffsetWord(flag, m);
      PartsStand(words, at, MemberWords(choices, flag, members[..n]), [choices.place(m.name), m.typeIndex, third]);
      MembersAreRead(words, at, choices, flag, members[..n], strings);
      ThreeStand(words, at + 3 * n, choices.place(m.name), m.typeIndex, third);
      NameIsRead(strings, choices.place(m.name), m.name);
      MemberIsNext(words, at, n, flag, strings, members[..n], m);
      assert members == members[..n] + [m];
    }
  }

  lemma OffsetIsRead(flag: bool, m: MemberRecord)
    requires if flag then m.offset < 0x100_0000 else m.bitsize == 0
    ensures m.offset == if flag then OffsetWord(flag, m) % 0x100_0000 else OffsetWord(flag, m)
    ensures m.bitsize == if flag then OffsetWord(flag, m) / 0x100_0000 else 0
  {
  }

  lemma NoMembers(words: seq<nat>, at: nat, flag: bool, strings: string)
    requires at <= |words|
    ensures MembersAt(words, at, 0, flag, strings) == Some([])
  {
  }

  lemma MemberIsNext(
      words: seq<nat>, at: nat, n: nat, flag: bool, strings: string, before: seq<MemberRecord>, m: MemberRecord)
    requires at + 3 * n + 3 <= |words| && MembersAt(words, at, n, flag, strings) == Some(before)
    requires NameAt(strings, words[at + 3 * n]) == Some(m.name)
    requires words[at + 3 * n + 1] == m.typeIndex && words[at + 3 * n + 2] == OffsetWord(flag, m)
    requires if flag then m.offset < 0x100_0000 else m.bitsize == 0
    ensures MembersAt(words, at, n + 1, flag, strings) == Some(before + [m])
  {
    hide NameAt, OffsetWord;
    OffsetIsRead(flag, m);
  }

  lemma StandingFits(words: seq<nat>, at: nat, part: seq<nat>)
    requires Stands(words, at, part)
    ensures at + |part| <= |words|
  {
  }

  lemma {:induction false} EnumeratorsAreRead(
      words: seq<nat>, at: nat, choices: Choices, enumerators: seq<(string, int)>, strings: string)
    requires Stands(words, at, EnumeratorWords(choices, enumerators))
    requires forall e :: e in enumerators ==> NameStands(strings, choices.place(e.0), e.0)
    requires forall e :: e in enumerators ==> -0x8000_0000 <= e.1 < 0x8000_0000
    ensures at + 2 * |enumerators| <= |words|
    ensures EnumeratorsAt(words, at, |enumerators|, strings) == Some(enumerators)
  {
    hide NameAt, NameStands, Stands, TwosComplement, Signed, EnumeratorsAt;
    assert at + 2 * |enumerators| <= |words| by { StandingFits(words, at, EnumeratorWords(choices, enumerators)); }
    if enumerators == [] {
      NoEnumerators(words, at, strings);
    } else {
      var n := |enumerators| - 1;
      var e := enumerators[n];
      PartsStand(words, at, EnumeratorWords(choices, enumerators[..n]), [choices.place(e.0), TwosComplement(e.1)]);
      EnumeratorsAreRead(words, at, choices, enumerators[..n], strings);
      TwoStand(words, at + 2 * n, choices.place(e.0), TwosComplement(e.1));
      NameIsRead(strings, choices.place(e.0), e.0);
      EnumeratorIsNext(words, at, n, strings, enumerators[..n], e);
      assert enumerators == enumerators[..n] + [e];
    }
  }

  lemma NoEnumerators(words: seq<nat>, at: nat, strings: string)
    requires at <= |words|
    ensures EnumeratorsAt(words, at, 0, strings) == Some([])
  {
  }

  lemma EnumeratorIsNext(
      words: seq<nat>, at: nat, n: nat, strings: string, before: seq<(string, int)>, e: (string, int))
    requires at + 2 * n + 2 <= |words| && EnumeratorsAt(words, at, n, strings) == Some(before)
    requires NameAt(strings, words[at + 2 * n]) == Some(e.0)
    requires words[at + 2 * n + 1] == TwosComplement(e.1) && -0x8000_0000 <= e.1 < 0x8000_0000
    ensures EnumeratorsAt(words, at, n + 1, strings) == Some(before + [e])
  {
    hide NameAt, TwosComplement, Signed;
    NumberIsRead(e.1);
  }

  lemma NumberIsRead(value: int)
    requires -0x8000_0000 <= value < 0x8000_0000
    ensures Signed(TwosComplement(value)) == value
  {
  }

  lemma {:induction false} ParametersAreRead(
      words: seq<nat>, at: nat, choices: Choices, parameters: seq<ParameterRecord>, strings: string)
    requires Stands(words, at, ParameterWords(choices, parameters))
    requires forall q :: q in parameters ==> NameStands(strings, choices.place(q.name), q.name)
    ensures at + 2 * |parameters| <= |words|
    ensures ParametersAt(words, at, |parameters|, strings) == Some(parameters)
  {
    hide NameAt, NameStands, Stands, ParametersAt;
    assert at + 2 * |parameters| <= |words| by { StandingFits(words, at, ParameterWords(choices, parameters)); }
    if parameters == [] {
      NoParameters(words, at, strings);
    } else {
      var n := |parameters| - 1;
      var q := parameters[n];
      PartsStand(words, at, ParameterWords(choices, parameters[..n]), [choices.place(q.name), q.typeIndex]);
      ParametersAreRead(words, at, choices, parameters[..n], strings);
      TwoStand(words, at + 2 * n, choices.place(q.name), q.typeIndex);
      NameIsRead(strings, choices.place(q.name), q.name);
      ParameterIsNext(words, at, n, strings, parameters[..n], q);
      assert parameters == parameters[..n] + [q];
    }
  }

  lemma NoParameters(words: seq<nat>, at: nat, strings: string)
    requires at <= |words|
    ensures ParametersAt(words, at, 0, strings) == Some([])
  {
  }

  lemma ParameterIsNext(
      words: seq<nat>, at: nat, n: nat, strings: string, before: seq<ParameterRecord>, q: ParameterRecord)
    requires at + 2 * n + 2 <= |words| && ParametersAt(words, at, n, strings) == Some(before)
    requires NameAt(strings, words[at + 2 * n]) == Some(q.name) && words[at + 2 * n + 1] == q.typeIndex
    ensures ParametersAt(words, at, n + 1, strings) == Some(before + [q])
  {
    hide NameAt;
  }

  /** A record that was written is read back, and the reader goes on behind it. */
  lemma RecordIsRead(words: seq<nat>, at: nat, choices: Choices, r: Record, strings: string)
    requires Written(words, at, choices, r, strings)
    ensures RecordEnd(words, at) == Some(at + |RecordWords(choices, r)|)
    ensures RecordAt(words, at, strings) == Some(r)
  {
    hide NamesStand, Stands;
    if r.StructRecord? {
      StructIsRead(words, at, choices, r, strings);
    } else if r.EnumRecord? {
      EnumIsRead(words, at, choices, r, strings);
    } else if r.PrototypeRecord? {
      PrototypeIsRead(words, at, choices, r, strings);
    } else if r.IntRecord? {
      IntIsRead(words, at, choices, r, strings);
    } else {
      PlainIsRead(words, at, choices, r, strings);
    }
  }

  lemma StructIsRead(words: seq<nat>, at: nat, choices: Choices, r: Record, strings: string)
    requires r.StructRecord?
    requires Written(words, at, choices, r, strings)
    ensures RecordEnd(words, at) == Some(at + |RecordWords(choices, r)|)
    ensures RecordAt(words, at, strings) == Some(r)
  {
    hide NameAt, NameStands, MembersAt, Info, MemberWords, RecordAt, RecordEnd, KindBits, VectorLength, KindFlag,
         NamesStand, Names, Stands;
    var flag := HasBitField(r.members);
    var start := [choices.place(r.name), Info(if r.kind.UNION? then 5 else 4, |r.members|, flag), r.size];
    PartsStand(words, at, start, MemberWords(choices, flag, r.members));
    ThreeStand(words, at, start[0], start[1], start[2]);
    InfoIsRead(if r.kind.UNION? then 5 else 4, |r.members|, flag);
    StructNamesStand(strings, choices, r);
    NameIsRead(strings, choices.place(r.name), r.name);
    MembersAreRead(words, at + 3, choices, flag, r.members, strings);
    assert |start + MemberWords(choices, flag, r.members)| == 3 + 3 * |r.members|;
    StructDecodes(words, at, r, strings);
  }

  lemma StructNamesStand(strings: string, choices: Choices, r: Record)
    requires r.StructRecord? && NamesStand(strings, choices, r)
    ensures NameStands(strings, choices.place(r.name), r.name)
    ensures forall m :: m in r.members ==> NameStands(strings, choices.place(m.name), m.name)
  {
    hide NameStands;
    assert r.name in Names(r) by { assert Names(r)[0] == r.name; }
    forall k | 0 <= k < |r.members|
      ensures NameStands(strings, choices.place(r.members[k].name), r.members[k].name)
    {
      assert Names(r)[k + 1] == r.members[k].name;
    }
  }

  lemma StructDecodes(words: seq<nat>, at: nat, r: Record, strings: string)
    requires r.StructRecord? && !r.kind.CLASS? && at + 3 + 3 * |r.members| <= |words|
    requires NameAt(strings, words[at]) == Some(r.name) && words[at + 2] == r.size
    requires KindBits(words[at + 1]) == if r.kind.UNION? then 5 else 4
    requires VectorLength(words[at + 1]) == |r.members|
    requires MembersAt(words, at + 3, |r.members|, KindFlag(words[at + 1]), strings) == Some(r.members)
    ensures RecordEnd(words, at) == Some(at + 3 + 3 * |r.members|) && RecordAt(words, at, strings) == Some(r)
  {
    hide NameAt, MembersAt, EnumeratorsAt, ParametersAt, KindBits, VectorLength, KindFlag;
  }

  lemma EnumIsRead(words: seq<nat>, at: nat, choices: Choices, r: Record, strings: string)
    requires r.EnumRecord?
    requires Written(words, at, choices, r, strings)
    ensures RecordEnd(words, at) == Some(at + |RecordWords(choices, r)|)
    ensures RecordAt(words, at, strings) == Some(r)
  {
    hide NameAt, NameStands, EnumeratorsAt, Info, EnumeratorWords, RecordAt, RecordEnd, KindBits, VectorLength;
    var start := [choices.place(r.name), Info(6, |r.enumerators|, false), r.size];
    PartsStand(words, at, start, EnumeratorWords(choices, r.enumerators));
    ThreeStand(words, at, start[0], start[1], start[2]);
    InfoIsRead(6, |r.enumerators|, false);
    assert r.name in Names(r) by { assert Names(r)[0] == r.name; }
    NameIsRead(strings, choices.place(r.name), r.name);
    forall k | 0 <= k < |r.enumerators|
      ensures NameStands(strings, choices.place(r.enumerators[k].0), r.enumerators[k].0)
    {
      assert Names(r)[k + 1] == r.enumerators[k].0;
    }
    EnumeratorsAreRead(words, at + 3, choices, r.enumerators, strings);
    assert |start + EnumeratorWords(choices, r.enumerators)| == 3 + 2 * |r.enumerators|;
    EnumDecodes(words, at, r, strings);
  }

  lemma EnumDecodes(words: seq<nat>, at: nat, r: Record, strings: string)
    requires r.EnumRecord? && at + 3 + 2 * |r.enumerators| <= |words|
    requires NameAt(strings, words[at]) == Some(r.name) && words[at + 2] == r.size
    requires KindBits(words[at + 1]) == 6 && VectorLength(words[at + 1]) == |r.enumerators|
    requires EnumeratorsAt(words, at + 3, |r.enumerators|, strings) == Some(r.enumerators)
    ensures RecordEnd(words, at) == Some(at + 3 + 2 * |r.enumerators|) && RecordAt(words, at, strings) == Some(r)
  {
    hide NameAt, MembersAt, EnumeratorsAt, ParametersAt, KindBits, VectorLength, KindFlag;
  }

  lemma PrototypeIsRead(words: seq<nat>, at: nat, choices: Choices, r: Record, strings: string)
    requires r.PrototypeRecord?
    requires Written(words, at, choices, r, strings)
    ensures RecordEnd(words, at) == Some(at + |RecordWords(choices, r)|)
    ensures RecordAt(words, at, strings) == Some(r)
  {
    hide NameAt, NameStands, ParametersAt, Info, ParameterWords, RecordAt, RecordEnd, KindBits, VectorLength;
    var start := [0, Info(13, |r.parameters|, false), r.typeIndex];
    PartsStand(words, at, start, ParameterWords(choices, r.parameters));
    ThreeStand(words, at, start[0], start[1], start[2]);
    InfoIsRead(13, |r.parameters|, false);
    forall k | 0 <= k < |r.parameters|
      ensures NameStands(strings, choices.place(r.parameters[k].name), r.parameters[k].name)
    {
      assert Names(r)[k] == r.parameters[k].name;
    }
    ParametersAreRead(words, at + 3, choices, r.parameters, strings);
    assert |start + ParameterWords(choices, r.parameters)| == 3 + 2 * |r.parameters|;
    PrototypeDecodes(words, at, r, strings);
  }

  lemma PrototypeDecodes(words: seq<nat>, at: nat, r: Record, strings: string)
    requires r.PrototypeRecord? && at + 3 + 2 * |r.parameters| <= |words|
    requires words[at + 2] == r.typeIndex
    requires KindBits(words[at + 1]) == 13 && VectorLength(words[at + 1]) == |r.parameters|
    requires ParametersAt(words, at + 3, |r.parameters|, strings) == Some(r.parameters)
    ensures RecordEnd(words, at) == Some(at + 3 + 2 * |r.parameters|) && RecordAt(words, at, strings) == Some(r)
  {
    hide NameAt, MembersAt, EnumeratorsAt, ParametersAt, KindBits, VectorLength, KindFlag;
  }

  lemma IntIsRead(words: seq<nat>, at: nat, choices: Choices, r: Record, strings: string)
    requires r.IntRecord?
    requires Written(words, at, choices, r, strings)
    ensures RecordEnd(words, at) == Some(at + |RecordWords(choices, r)|)
    ensures RecordAt(words, at, strings) == Some(r)
  {
    hide NameAt, NameStands, Info, EncodingBits, EncodingOf, KindBits, VectorLength, KindFlag, Stands;
    var own := RecordWords(choices, r);
    StandingFits(words, at, own);
    forall k | 0 <= k < |own| ensures at + |own| <= |words| && words[at + k] == own[k] { StandsAt(words, at, own, k); }
    assert words[at] == own[0] && words[at + 1] == own[1] && words[at + 2] == own[2] && words[at + 3] == own[3];
    InfoIsRead(1, 0, false);
    NameIsRead(strings, choices.place(r.name), r.name);
    EncodingIsRead(r.encoding, r.bits);
  }

  /** Other records without lists. */
  lemma PlainIsRead(words: seq<nat>, at: nat, choices: Choices, r: Record, strings: string)
    requires !r.StructRecord? && !r.EnumRecord? && !r.PrototypeRecord? && !r.IntRecord?
    requires Written(words, at, choices, r, strings)
    ensures RecordEnd(words, at) == Some(at + |RecordWords(choices, r)|)
    ensures RecordAt(words, at, strings) == Some(r)
  {
    hide NameAt, NameStands, Info, KindBits, VectorLength, KindFlag, Stands;
    var own := RecordWords(choices, r);
    StandingFits(words, at, own);
    forall k | 0 <= k < |own| ensures at + |own| <= |words| && words[at + k] == own[k] { StandsAt(words, at, own, k); }
    assert words[at] == own[0] && words[at + 1] == own[1] && words[at + 2] == own[2];
    match r {
      case PointerRecord(_) => InfoIsRead(2, 0, false);
      case ArrayRecord(_, _) =>
        InfoIsRead(3, 0, false);
        assert words[at + 3] == own[3] && words[at + 5] == own[5];
      case ForwardRecord(kind, name) =>
        InfoIsRead(7, 0, kind.UNION?);
        NameIsRead(strings, choices.place(name), name);
      case TypedefRecord(name, _) =>
        InfoIsRead(8, 0, false);
        NameIsRead(strings, choices.place(name), name);
      case QualifierRecord(qualifier, _) =>
        InfoIsRead(if qualifier.VOLATILE? then 9 else if qualifier.CONST? then 10 else 11, 0, false);
      case FunctionRecord(name, _) =>
        InfoIsRead(12, choices.linkage, false);
        NameIsRead(strings, choices.place(name), name);
      case VariableRecord(name, _) =>
        InfoIsRead(14, 0, false);
        NameIsRead(strings, choices.place(name), name);
      case SectionRecord => InfoIsRead(15, |choices.entries|, false);
    }
  }

  lemma EncodingIsRead(encoding: Encoding, bits: nat)
    requires !encoding.UTF? && bits < 0x100
    ensures var data := EncodingBits(encoding) * 0x100_0000 + bits;
            data / 0x1_0000 % 0x100 == 0 && EncodingOf(data / 0x100_0000 % 16) == encoding && data % 0x100 == bits
  {
  }

  // ---- sections ----

  /** The words of some records, one after another. */
  function SectionWords(choices: seq<Choices>, records: seq<Record>): seq<nat>
    requires |choices| == |records| && forall k :: 0 <= k < |records| ==> Fits(choices[k], records[k])
  {
    if records == [] then []
    else RecordWords(choices[0], records[0]) + SectionWords(choices[1..], records[1..])
  }

  /** Records that were written are read back, wherever the writer puts their names. */
  lemma {:induction false} RecordsAreRead(
      words: seq<nat>, at: nat, choices: seq<Choices>, records: seq<Record>, strings: string)
    requires |choices| == |records| && at <= |words|
    requires forall k :: 0 <= k < |records| ==>
               Fits(choices[k], records[k]) && NamesStand(strings, choices[k], records[k])
    requires words[at..] == SectionWords(choices, records)
    ensures RecordsFrom(words, 0, at, strings) == Some(records)
    decreases |records|
  {
    hide Fits, NamesStand, RecordWords, RecordAt, RecordEnd;
    if records != [] {
      var own, rest := RecordWords(choices[0], records[0]), SectionWords(choices[1..], records[1..]);
      assert words[at..at + |own|] == words[at..][..|own|] == own;
      assert words[at + |own|..] == words[at..][|own|..] == rest;
      RecordIsRead(words, at, choices[0], records[0], strings);
      RecordsAreRead(words, at + |own|, choices[1..], records[1..], strings);
      assert [records[0]] + records[1..] == records;
    }
  }

  /** All names of some records. */
  function AllNames(records: seq<Record>): (names: seq<string>)
    ensures forall k, name :: 0 <= k < |records| && name in Names(records[k]) ==> name in names
  {
    if records == [] then []
    else Names(records[0]) + AllNames(records[1..])
  }

  /** Two sections for some records: their words, and a table of their names behind the empty name. */
  function Encode(records: seq<Record>, linkage: nat, indexType: nat): (sections: (seq<nat>, string))
    requires forall k :: 0 <= k < |records| ==> Fits(Choose(records, linkage, indexType), records[k])
  {
    (SectionWords(seq(|records|, k => Choose(records, linkage, indexType)), records),
     StringTable([""] + AllNames(records)))
  }

  function Choose(records: seq<Record>, linkage: nat, indexType: nat): Choices {
    Choices((name: string) => OffsetOf([""] + AllNames(records), name), linkage, indexType, [])
  }

  /** What was written to a section is what is read from it. */
  lemma EncodeIsRead(records: seq<Record>, linkage: nat, indexType: nat)
    requires forall k :: 0 <= k < |records| ==> Fits(Choose(records, linkage, indexType), records[k])
    requires forall name :: name in AllNames(records) ==> '\0' !in name
    ensures var (words, strings) := Encode(records, linkage, indexType);
            RecordsFrom(words, 0, 0, strings) == Some(records)
  {
    hide Fits, NameStands, RecordWords, Names, RecordsFrom, StringTable, OffsetOf, AllNames;
    var names, choices := [""] + AllNames(records), Choose(records, linkage, indexType);
    var (words, strings) := Encode(records, linkage, indexType);
    forall k, name | 0 <= k < |records| && name in Names(records[k])
      ensures NameStands(strings, choices.place(name), name)
    {
      NameIsInTable(names, name);
    }
    assert words[0..] == words;
    RecordsAreRead(words, 0, seq(|records|, k => choices), records, strings);
  }
}

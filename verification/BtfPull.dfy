/** Pulling records out of a type section (btf_reader.cc), proved to follow the format. */
module BtfPull {
  import opened Wrappers
  import opened Graph
  import opened BtfFormat
  import opened BtfEncoding

  /** The part of the section that is still to be read. */
  class MemoryRange {
    const words: seq<nat>
    const trailing: nat  // the bytes of an incomplete word
    var start: nat

    ghost predicate Valid()
      reads this
    {
      start <= |words|
    }

    constructor (words: seq<nat>, trailing: nat)
      ensures Valid() && start == 0 && this.words == words && this.trailing == trailing
    {
      this.words, this.trailing := words, trailing;
      start := 0;
    }

    predicate Empty()
      reads this
    {
      start == |words| && trailing == 0
    }

    /** Where the next count words start, if there are as many. */
    method Pull(count: nat) returns (at: Option<nat>)
      requires Valid()
      modifies this
      ensures Valid()
      ensures old(start) + count <= |words| ==> at == Some(old(start)) && start == old(start) + count
      ensures old(start) + count > |words| ==> at == None && start == old(start)
    {
      if start + count > |words| {
        return None;
      }
      at := Some(start);
      start := start + count;
    }
  }

  function Prefixed(prefix: string, rest: Option<string>): Option<string> {
    match rest
    case Some(s) => Some(prefix + s)
    case None => None
  }

  method GetName(strings: string, offset: nat) returns (name: Option<string>)
    ensures name == NameAt(strings, offset)
  {
    hide NameAt, Prefixed;
    if offset >= |strings| {
      NameEnds(strings, offset);
      return None;
    }
    var end := offset;
    assert strings[offset..end] == "";
    PrefixedNothing(NameAt(strings, offset));
    while end < |strings| && strings[end] != '\0'
      invariant offset <= end <= |strings|
      invariant NameAt(strings, offset) == Prefixed(strings[offset..end], NameAt(strings, end))
    {
      NameGoesOn(strings, offset, end);
      end := end + 1;
    }
    NameEnds(strings, end);
    PrefixedEnds(strings[offset..end]);
    if end >= |strings| {
      return None;
    }
    return Some(strings[offset..end]);
  }

  lemma NameEnds(strings: string, end: nat)
    ensures end >= |strings| ==> NameAt(strings, end) == None
    ensures end < |strings| && strings[end] == '\0' ==> NameAt(strings, end) == Some("")
  {
  }

  lemma PrefixedEnds(prefix: string)
    ensures Prefixed(prefix, Some("")) == Some(prefix) && Prefixed(prefix, None) == None
  {
    assert prefix + "" == prefix;
  }

  lemma NameGoesOn(strings: string, offset: nat, end: nat)
    requires offset <= end < |strings| && strings[end] != '\0'
    ensures Prefixed(strings[offset..end], NameAt(strings, end))
              == Prefixed(strings[offset..end + 1], NameAt(strings, end + 1))
  {
    assert strings[offset..end] + [strings[end]] == strings[offset..end + 1];
    PrefixedTwice(strings[offset..end], [strings[end]], NameAt(strings, end + 1));
    assert NameAt(strings, end) == Prefixed([strings[end]], NameAt(strings, end + 1));
  }

  lemma PrefixedTwice(p: string, q: string, rest: Option<string>)
    ensures Prefixed(p, Prefixed(q, rest)) == Prefixed(p + q, rest)
  {
    if rest.Some? { assert p + (q + rest.value) == p + q + rest.value; }
  }

  lemma PrefixedNothing(rest: Option<string>)
    ensures Prefixed("", rest) == rest
  {
    if rest.Some? { assert "" + rest.value == rest.value; }
  }

  method ReadMembers(words: seq<nat>, at: nat, length: nat, flag: bool, strings: string)
    returns (members: Option<seq<MemberRecord>>)
    requires at + 3 * length <= |words|
    ensures members == MembersAt(words, at, length, flag, strings)
  {
    hide NameAt;
    var result := [];
    for i := 0 to length
      invariant MembersAt(words, at, i, flag, strings) == Some(result)
    {
      var k := at + 3 * i;
      var name := GetName(strings, words[k]);
      if name == None {
        MembersFail(words, at, i + 1, length, flag, strings);
        return None;
      }
      var offset := if flag then words[k + 2] % 0x100_0000 else words[k + 2];
      var bitsize := if flag then words[k + 2] / 0x100_0000 else 0;
      result := result + [MemberRecord(name.value, words[k + 1], offset, bitsize)];
    }
    return Some(result);
  }

  lemma {:induction false} MembersFail(words: seq<nat>, at: nat, n: nat, length: nat, flag: bool, strings: string)
    requires at + 3 * length <= |words| && n <= length && MembersAt(words, at, n, flag, strings) == None
    ensures MembersAt(words, at, length, flag, strings) == None
  {
    hide NameAt;
    if n < length { MembersFail(words, at, n, length - 1, flag, strings); }
  }

  method ReadEnumerators(words: seq<nat>, at: nat, length: nat, strings: string)
    returns (enumerators: Option<seq<(string, int)>>)
    requires at + 2 * length <= |words|
    ensures enumerators == EnumeratorsAt(words, at, length, strings)
  {
    hide NameAt;
    var result := [];
    for i := 0 to length
      invariant EnumeratorsAt(words, at, i, strings) == Some(result)
    {
      var k := at + 2 * i;
      var name := GetName(strings, words[k]);
      if name == None {
        EnumeratorsFail(words, at, i + 1, length, strings);
        return None;
      }
      result := result + [(name.value, Signed(words[k + 1]))];
    }
    return Some(result);
  }

  lemma {:induction false} EnumeratorsFail(words: seq<nat>, at: nat, n: nat, length: nat, strings: string)
    requires at + 2 * length <= |words| && n <= length && EnumeratorsAt(words, at, n, strings) == None
    ensures EnumeratorsAt(words, at, length, strings) == None
  {
    hide NameAt;
    if n < length { EnumeratorsFail(words, at, n, length - 1, strings); }
  }

  method ReadParameters(words: seq<nat>, at: nat, length: nat, strings: string)
    returns (parameters: Option<seq<ParameterRecord>>)
    requires at + 2 * length <= |words|
    ensures parameters == ParametersAt(words, at, length, strings)
  {
    hide NameAt;
    var result := [];
    for i := 0 to length
      invariant ParametersAt(words, at, i, strings) == Some(result)
    {
      var k := at + 2 * i;
      var name := GetName(strings, words[k]);
      if name == None {
        ParametersFail(words, at, i + 1, length, strings);
        return None;
      }
      result := result + [ParameterRecord(name.value, words[k + 1])];
    }
    return Some(result);
  }

  lemma {:induction false} ParametersFail(words: seq<nat>, at: nat, n: nat, length: nat, strings: string)
    requires at + 2 * length <= |words| && n <= length && ParametersAt(words, at, n, strings) == None
    ensures ParametersAt(words, at, length, strings) == None
  {
    hide NameAt;
    if n < length { ParametersFail(words, at, n, length - 1, strings); }
  }

  /** The next record. */
  method PullRecord(memory: MemoryRange, strings: string) returns (record: Option<Record>)
    requires memory.Valid()
    modifies memory
    ensures memory.Valid()
    ensures RecordEnd(memory.words, old(memory.start)) == None ==> record == None
    ensures RecordEnd(memory.words, old(memory.start)).Some? ==>
              && record == RecordAt(memory.words, old(memory.start), strings)
              && memory.start == RecordEnd(memory.words, old(memory.start)).value
    // a record that was written here is the one that is pulled
    ensures forall choices: Choices, r: Record :: Written(memory.words, old(memory.start), choices, r, strings) ==>
              record == Some(r) && memory.start == old(memory.start) + |RecordWords(choices, r)|
  {
    hide NameAt, MembersAt, EnumeratorsAt, ParametersAt, Written, RecordWords, RecordAt;
    var words := memory.words;
    forall choices: Choices, r: Record | Written(words, memory.start, choices, r, strings)
      ensures RecordEnd(words, memory.start) == Some(memory.start + |RecordWords(choices, r)|)
      ensures RecordAt(words, memory.start, strings) == Some(r)
    {
      RecordIsRead(words, memory.start, choices, r, strings);
    }
    var t := memory.Pull(3);
    if t == None {
      return None;
    }
    var info, third := words[t.value + 1], words[t.value + 2];
    var kind, length := KindBits(info), VectorLength(info);
    var more := memory.Pull(ExtraWords(kind, length));
    if more == None {
      return None;
    }
    record := DecodeRecord(words, t.value, strings);
  }

  method DecodeRecord(words: seq<nat>, at: nat, strings: string) returns (record: Option<Record>)
    requires at + 3 <= |words| && at + 3 + ExtraWords(KindBits(words[at + 1]), VectorLength(words[at + 1])) <= |words|
    ensures record == RecordAt(words, at, strings)
  {
    hide NameAt, MembersAt, EnumeratorsAt, ParametersAt;
    var info, third := words[at + 1], words[at + 2];
    var kind, length := KindBits(info), VectorLength(info);
    if kind == KIND_STRUCT || kind == KIND_UNION {
      var name := GetName(strings, words[at]);
      var members := ReadMembers(words, at + 3, length, KindFlag(info), strings);
      if name == None || members == None {
        return None;
      }
      return Some(StructRecord(if kind == KIND_STRUCT then STRUCT else UNION, name.value, third, members.value));
    } else if kind == KIND_ENUM {
      var name := GetName(strings, words[at]);
      var enumerators := ReadEnumerators(words, at + 3, length, strings);
      if name == None || enumerators == None {
        return None;
      }
      return Some(EnumRecord(name.value, third, enumerators.value));
    } else if kind == KIND_FUNC_PROTO {
      var parameters := ReadParameters(words, at + 3, length, strings);
      if parameters == None {
        return None;
      }
      return Some(PrototypeRecord(third, parameters.value));
    } else {
      record := DecodePlain(words, at, strings);
    }
  }

  /** Records without lists. */
  method DecodePlain(words: seq<nat>, at: nat, strings: string) returns (record: Option<Record>)
    requires at + 3 <= |words| && at + 3 + ExtraWords(KindBits(words[at + 1]), VectorLength(words[at + 1])) <= |words|
    requires KindBits(words[at + 1]) !in {KIND_STRUCT, KIND_UNION, KIND_ENUM, KIND_FUNC_PROTO}
    ensures record == RecordAt(words, at, strings)
  {
    hide NameAt, MembersAt, EnumeratorsAt, ParametersAt;
    var info, third := words[at + 1], words[at + 2];
    var kind := KindBits(info);
    if kind == KIND_PTR {
      return Some(PointerRecord(third));
    } else if kind == KIND_VOLATILE {
      return Some(QualifierRecord(VOLATILE, third));
    } else if kind == KIND_CONST {
      return Some(QualifierRecord(CONST, third));
    } else if kind == KIND_RESTRICT {
      return Some(QualifierRecord(RESTRICT, third));
    } else if kind == KIND_ARRAY {
      return Some(ArrayRecord(words[at + 5], words[at + 3]));
    } else if kind == KIND_DATASEC {
      return Some(SectionRecord);
    }
    var name := GetName(strings, words[at]);
    if name == None {
      return None;
    }
    if kind == KIND_INT {
      var data := words[at + 3];
      if data / 0x1_0000 % 0x100 != 0 {
        return None;
      }
      return Some(IntRecord(name.value, EncodingOf(data / 0x100_0000 % 16), data % 0x100, third));
    } else if kind == KIND_TYPEDEF {
      return Some(TypedefRecord(name.value, third));
    } else if kind == KIND_FWD {
      return Some(ForwardRecord(if KindFlag(info) then UNION else STRUCT, name.value));
    } else if kind == KIND_FUNC {
      return Some(FunctionRecord(name.value, third));
    } else if kind == KIND_VAR {
      return Some(VariableRecord(name.value, third));
    }
    // unknown kind
    return None;
  }
}

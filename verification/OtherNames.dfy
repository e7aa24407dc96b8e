/** What the names of members, methods, symbols and types without names tell (stg.cc). */
module OtherNames {
  import opened Wrappers
  import opened Reachability
  import opened Graph
  import opened Names
  import opened Declarators
  import opened Descriptions
  import opened TypeNames

  // ---- declarations ----

  /** What a declaration puts at the place of the declared name. */
  function PlaceOf(node: Node): seq<Lexeme> {
    match node
    case Member(name, _, _, bitsize) =>
      (if name == "" then [] else [Word(Text(name))]) + (if bitsize == 0 then [] else [BitSize(bitsize)])
    case ElfSymbol(symbolName, _, _, _, _, _, _, _, None) => [Word(Text(symbolName))]
    case ElfSymbol(_, _, _, _, _, _, _, _, Some(fullName)) => [Word(Text(fullName))]
    case _ => []
  }

  /** What a member or symbol is declared to be. */
  function DeclaredType(node: Node): Option<Id> {
    match node
    case Member(_, to, _, _) => Some(to)
    case ElfSymbol(_, _, _, _, _, _, _, to, _) => to
    case _ => None
  }

  /** A member or symbol is named by putting its own name where the name of its type has the place for it. */
  lemma DeclaredAtPlace(g: Graph, id: Id)
    requires WellFormed(g) && id in g && QualifiersApply(g) && Founded(g, id) && DeclaredType(g[id]).Some?
    ensures var to := DeclaredType(g[id]).value;
            && to in g && Founded(g, to)
            && Rendering(g, id).Print() == Rendering(g, to).left + PlaceOf(g[id]) + Rendering(g, to).right
  {
    hide WellFormed, QualifiersApply, Founded, Rendering;
    var to := DeclaredType(g[id]).value;
    var names := RenderingUnfolds(g, id);
    assert to in Needs(g, id) && to in g && Founded(g, to);
    NameGoesInPlace(g, id, names);
  }

  lemma NameGoesInPlace(g: Graph, id: Id, names: NameCache)
    requires WellFormed(g) && id in g && QualifiersApply(g) && AllSane(g, names) && Needs(g, id) <= names.Keys
    requires DeclaredType(g[id]).Some?
    ensures var to := DeclaredType(g[id]).value;
            to in names && Rendered(g, id, names).Print() == names[to].left + PlaceOf(g[id]) + names[to].right
  {
    hide WellFormed, QualifiersApply, AllSane;
    var to := names[DeclaredType(g[id]).value];
    match g[id]
    case Member(name, _, _, bitsize) =>
      var word, bits := [Word(Text(name))], [BitSize(bitsize)];
      assert (to.left + word) + (bits + to.right) == to.left + (word + bits) + to.right;
      assert to.left + (bits + to.right) == to.left + ([] + bits) + to.right;
    case _ =>
  }

  /** Read as a declaration, the name of a member or symbol gives its type, if that is made of types with names. */
  lemma DeclarationIsRead(g: Graph, id: Id)
    requires WellFormed(g) && id in g && QualifiersApply(g) && Founded(g, id) && DeclaredType(g[id]).Some?
    ensures var to := DeclaredType(g[id]).value;
            && to in g && Founded(g, to)
            && (TreeOf(g, to).Some? ==>
                  ParseDeclaration(Rendering(g, id).Print(), PlaceOf(g[id])) == Some((Read(TreeOf(g, to).value), [])))
  {
    hide WellFormed, QualifiersApply, Founded, Rendering, TreeOf, ParseDeclaration, Read, Describe;
    var to := DeclaredType(g[id]).value;
    DeclaredAtPlace(g, id);
    if TreeOf(g, to).Some? {
      RenderingIsDescribe(g, to);
      DeclarationParses(TreeOf(g, to).value, PlaceOf(g[id]));
    }
  }

  // ---- methods ----

  /** Methods have the same name exactly if both their names and their mangled names are the same. */
  lemma MethodNamesAreUnambiguous(g: Graph, a: Id, b: Id)
    requires WellFormed(g) && QualifiersApply(g) && a in g && b in g && Founded(g, a) && Founded(g, b)
    requires g[a].Method? && g[b].Method?
    ensures Rendering(g, a).Print() == Rendering(g, b).Print() <==>
            g[a].name == g[b].name && g[a].mangledName == g[b].mangledName
    ensures Rendering(g, a).Print() != [] && Rendering(g, a).Print()[0] == Word(Text(g[a].name))
  {
    hide WellFormed, QualifiersApply, Founded, Rendering;
    var names1 := RenderingUnfolds(g, a);
    var names2 := RenderingUnfolds(g, b);
    MethodWords(g, a, names1);
    MethodWords(g, b, names2);
  }

  lemma MethodWords(g: Graph, id: Id, names: NameCache)
    requires WellFormed(g) && id in g && QualifiersApply(g) && AllSane(g, names) && Needs(g, id) <= names.Keys
    requires g[id].Method?
    ensures var words := Rendered(g, id, names).Print();
            && |words| == (if g[id].name == g[id].mangledName then 1 else 4) && words[0] == Word(Text(g[id].name))
            && (|words| == 4 ==> words[1..] == [OpenBrace, Word(Text(g[id].mangledName)), CloseBrace])
  {
    hide WellFormed, QualifiersApply, AllSane;
  }

  // ---- braces ----

  /** How deep in braces the words end. */
  function Level(words: seq<Lexeme>): int {
    if words == [] then 0
    else
      var n := |words| - 1;
      Level(words[..n]) + match words[n] case OpenBrace => 1 case CloseBrace => -1 case _ => 0
  }

  /** Every brace has a partner. */
  predicate Nested(words: seq<Lexeme>) {
    Level(words) == 0 && forall k :: 0 <= k <= |words| ==> Level(words[..k]) >= 0
  }

  /** No semicolon stands outside of braces. */
  predicate Enclosed(words: seq<Lexeme>) {
    forall k :: 0 <= k < |words| && words[k].Semicolon? ==> Level(words[..k]) > 0
  }

  predicate Closed(words: seq<Lexeme>) {
    Nested(words) && Enclosed(words)
  }

  predicate IsFlat(words: seq<Lexeme>) {
    forall word :: word in words ==> !word.OpenBrace? && !word.CloseBrace? && !word.Semicolon?
  }

  lemma {:induction false} LevelOfSum(s: seq<Lexeme>, t: seq<Lexeme>)
    ensures Level(s + t) == Level(s) + Level(t)
  {
    if t == [] {
      assert s + t == s;
    } else {
      var n := |t| - 1;
      assert (s + t)[..|s| + n] == s + t[..n];
      LevelOfSum(s, t[..n]);
    }
  }

  lemma PrefixOfSum(s: seq<Lexeme>, t: seq<Lexeme>, k: nat)
    requires k <= |s + t|
    ensures Level((s + t)[..k]) == if k <= |s| then Level(s[..k]) else Level(s) + Level(t[..k - |s|])
  {
    hide Level;
    if k <= |s| {
      assert (s + t)[..k] == s[..k];
    } else {
      assert (s + t)[..k] == s + t[..k - |s|];
      LevelOfSum(s, t[..k - |s|]);
    }
  }

  lemma NestedSum(s: seq<Lexeme>, t: seq<Lexeme>)
    requires Nested(s) && Nested(t)
    ensures Nested(s + t)
  {
    hide Level;
    LevelOfSum(s, t);
    forall k | 0 <= k <= |s + t| ensures Level((s + t)[..k]) >= 0 { PrefixOfSum(s, t, k); }
  }

  lemma ClosedSum(s: seq<Lexeme>, t: seq<Lexeme>)
    requires Closed(s) && Closed(t)
    ensures Closed(s + t)
  {
    NoLevel();
    hide Level;
    NestedSum(s, t);
    forall k | 0 <= k < |s + t| && (s + t)[k].Semicolon? ensures Level((s + t)[..k]) > 0 {
      PrefixOfSum(s, t, k);
      if k < |s| {
        assert s[k].Semicolon?;
      } else {
        assert t[k - |s|].Semicolon?;
        assert t[..0] == [];
      }
    }
  }

  lemma NoLevel()
    ensures Level([]) == 0
  {
  }

  lemma {:induction false} FlatIsClosed(words: seq<Lexeme>)
    requires IsFlat(words)
    ensures Closed(words)
  {
    if words == [] {
      assert words[..0] == [];
    } else {
      var n := |words| - 1;
      FlatIsClosed(words[..n]);
      assert words[n] in words;
      forall k | 0 <= k <= |words| ensures Level(words[..k]) >= 0 {
        if k <= n { assert words[..n][..k] == words[..k]; } else { assert words[..k] == words; }
      }
    }
  }

  lemma SemicolonIsNested()
    ensures Nested([Semicolon])
  {
    assert [Semicolon][..0] == [] && [Semicolon][..1] == [Semicolon];
  }

  /** Anything nested can stand in braces. */
  lemma BracedIsClosed(start: Lexeme, inner: seq<Lexeme>)
    requires IsFlat([start]) && Nested(inner)
    ensures Closed([start, OpenBrace] + inner + [CloseBrace])
  {
    FlatIsClosed([start]);
    var words := [OpenBrace] + inner + [CloseBrace];
    forall k | 0 <= k < |words|
      ensures Level(words[..k]) >= 0 && (words[k].Semicolon? ==> Level(words[..k]) > 0)
    {
      LevelInBraces(inner, k);
    }
    LevelInBraces(inner, |words|);
    assert words[..|words|] == words;
    ClosedSum([start], words);
    assert [start] + words == [start, OpenBrace] + inner + [CloseBrace];
  }

  lemma LevelInBraces(inner: seq<Lexeme>, k: nat)
    requires Nested(inner) && k <= |inner| + 2
    ensures Level(([OpenBrace] + inner + [CloseBrace])[..k])
            == if k == 0 || k == |inner| + 2 then 0 else 1 + Level(inner[..k - 1])
    ensures 0 < k < |inner| + 2 ==> Level(inner[..k - 1]) >= 0
  {
    assert [OpenBrace][..0] == [] && Level([OpenBrace]) == 1;
    assert [CloseBrace][..0] == [] && Level([CloseBrace]) == -1;
    PrefixOfSum([OpenBrace] + inner, [CloseBrace], k);
    if k <= |inner| + 1 {
      PrefixOfSum([OpenBrace], inner, k);
      if k == 1 { assert inner[..0] == [] && [OpenBrace][..1] == [OpenBrace]; }
      if k == 0 { assert [OpenBrace][..k] == []; }
    } else {
      LevelOfSum([OpenBrace], inner);
      assert [CloseBrace][..k - |inner| - 1] == [CloseBrace];
    }
  }

  // ---- every name is closed ----

  predicate ClosedName(name: Name) {
    Closed(name.left) && Closed(name.right)
  }

  lemma PrintIsClosed(name: Name)
    requires ClosedName(name)
    ensures Closed(name.Print())
  {
    ClosedSum(name.left, name.right);
  }

  lemma PlainIsClosed(text: seq<Lexeme>)
    requires Closed(text)
    ensures ClosedName(Plain(text))
  {
    FlatIsClosed([]);
  }

  lemma AddIsClosed(name: Name, side: Side, precedence: Precedence, text: seq<Lexeme>)
    requires ClosedName(name) && Closed(text)
    ensures ClosedName(name.Add(side, precedence, text))
  {
    hide Closed;
    var bracket := Strength(precedence) < Strength(name.precedence);
    var open, close := if bracket then [Open] else [], if bracket then [Close] else [];
    FlatIsClosed(open);
    FlatIsClosed(close);
    FlatIsClosed([]);
    ClosedSum(name.left, open);
    ClosedSum(name.left + open, if side == LEFT then text else []);
    ClosedSum(if side == RIGHT then text else [], close);
    ClosedSum((if side == RIGHT then text else []) + close, name.right);
  }

  lemma QualifyIsClosed(name: Name, qualifiers: set<Qualifier>)
    requires ClosedName(name) && name.CanQualify(qualifiers)
    ensures ClosedName(name.Qualify(qualifiers))
  {
    hide Closed;
    FlatIsClosed(QualifierWords(qualifiers));
    ClosedSum(QualifierWords(qualifiers), name.left);
    ClosedSum(name.left, QualifierWords(qualifiers));
  }

  lemma {:induction false} ListsAreClosed(ids: seq<Id>, names: NameCache)
    requires forall id :: id in ids ==> id in names && ClosedName(names[id])
    ensures Closed(ListNames(ids, names)) && Nested(MemberNames(ids, names))
  {
    hide Closed, Nested;
    if ids == [] {
      FlatIsClosed([]);
      assert Nested([]) by { ClosedIsNested([]); }
    } else {
      var n := |ids| - 1;
      var last := names[ids[n]].Print();
      ListsAreClosed(ids[..n], names);
      PrintIsClosed(names[ids[n]]);
      FlatIsClosed([Comma]);
      FlatIsClosed([]);
      ClosedSum(ListNames(ids[..n], names), [Comma]);
      ClosedSum(if n == 0 then [] else ListNames(ids[..n], names) + [Comma], last);
      ClosedIsNested(last);
      NestedSum(MemberNames(ids[..n], names), last);
      SemicolonIsNested();
      NestedSum(MemberNames(ids[..n], names) + last, [Semicolon]);
    }
  }

  lemma ClosedIsNested(words: seq<Lexeme>)
    requires Closed(words)
    ensures Nested(words)
  {
  }

  lemma RenderedIsClosed(g: Graph, id: Id, names: NameCache)
    requires WellFormed(g) && id in g && QualifiersApply(g) && AllSane(g, names) && Needs(g, id) <= names.Keys
    requires forall n :: n in Needs(g, id) ==> ClosedName(names[n])
    ensures ClosedName(Rendered(g, id, names))
  {
    hide ListNames, MemberNames, QualifiersApply, WellFormed, AllSane, Name.Add, Name.Qualify, Name.Print,
         EnumeratorWords, Closed, Nested, ClosedName;
    match g[id]
    case PointerReference(kind, to) =>
      FlatIsClosed([Sign(kind)]);
      AddIsClosed(names[to], LEFT, INDIRECTION, [Sign(kind)]);
    case Array(number, to) =>
      FlatIsClosed([Dimension(number)]);
      AddIsClosed(names[to], RIGHT, ARRAY_FUNCTION, [Dimension(number)]);
    case Qualified(_, _) =>
      UnqualifiedName(g, id, names);
      QualifyIsClosed(names[Unqualified(g, id, {}).0], Unqualified(g, id, {}).1);
    case Member(name, to, _, bitsize) =>
      FlatIsClosed([Word(Text(name))]);
      FlatIsClosed([BitSize(bitsize)]);
      AddIsClosed(names[to], LEFT, ATOMIC, [Word(Text(name))]);
      AddIsClosed(if name != "" then names[to].Add(LEFT, ATOMIC, [Word(Text(name))]) else names[to], RIGHT, ATOMIC,
                  [BitSize(bitsize)]);
    case Method(mangledName, name, _, _, _) =>
      MethodIsClosed(name, mangledName);
    case StructUnion(kind, "", Some(d)) =>
      ListsAreClosed(d.members, names);
      BracedIsClosed(KindWord(kind), MemberNames(d.members, names));
      PlainIsClosed([KindWord(kind), OpenBrace] + MemberNames(d.members, names) + [CloseBrace]);
    case Enumeration("", Some(d)) =>
      FlatIsClosed(EnumeratorWords(d.enumerators)) by { EnumeratorsAreFlat(d.enumerators); }
      ClosedIsNested(EnumeratorWords(d.enumerators));
      BracedIsClosed(EnumWord, EnumeratorWords(d.enumerators));
      PlainIsClosed([EnumWord, OpenBrace] + EnumeratorWords(d.enumerators) + [CloseBrace]);
    case Function(to, parameters) =>
      assert forall t :: t in TypeIds(parameters) ==> t in Needs(g, id);
      ListsAreClosed(TypeIds(parameters), names);
      ParametersAreClosed(names[to], ListNames(TypeIds(parameters), names));
    case ElfSymbol(symbolName, _, _, _, _, _, _, Some(to), fullName) =>
      var word := [Word(Text(if fullName.Some? then fullName.value else symbolName))];
      FlatIsClosed(word);
      AddIsClosed(names[to], LEFT, ATOMIC, word);
    case _ =>
      FlatIsClosed(Rendered(g, id, names).left);
      PlainIsClosed(Rendered(g, id, names).left);
  }

  lemma EnumeratorsAreFlat(enumerators: seq<(string, int)>)
    ensures IsFlat(EnumeratorWords(enumerators))
  {
  }

  lemma MethodIsClosed(name: string, mangledName: string)
    ensures ClosedName(JustWord(name))
    ensures ClosedName(Plain([Word(Text(name)), OpenBrace, Word(Text(mangledName)), CloseBrace]))
  {
    hide Closed, Nested;
    FlatIsClosed([Word(Text(name))]);
    PlainIsClosed([Word(Text(name))]);
    FlatIsClosed([Word(Text(mangledName))]);
    ClosedIsNested([Word(Text(mangledName))]);
    BracedIsClosed(Word(Text(name)), [Word(Text(mangledName))]);
    assert [Word(Text(name)), OpenBrace] + [Word(Text(mangledName))] + [CloseBrace]
        == [Word(Text(name)), OpenBrace, Word(Text(mangledName)), CloseBrace];
    PlainIsClosed([Word(Text(name)), OpenBrace, Word(Text(mangledName)), CloseBrace]);
  }

  lemma ParametersAreClosed(name: Name, list: seq<Lexeme>)
    requires ClosedName(name) && Closed(list)
    ensures ClosedName(name.Add(RIGHT, ARRAY_FUNCTION, [Open] + list + [Close]))
  {
    hide Closed, Name.Add;
    FlatIsClosed([Open]);
    FlatIsClosed([Close]);
    ClosedSum([Open], list);
    ClosedSum([Open] + list, [Close]);
    AddIsClosed(name, RIGHT, ARRAY_FUNCTION, [Open] + list + [Close]);
  }

  /** Braces in a name come in pairs, and its semicolons stand inside them. */
  lemma {:induction false} RenderingIsClosed(g: Graph, id: Id)
    requires WellFormed(g) && id in g && QualifiersApply(g) && Founded(g, id)
    ensures ClosedName(Rendering(g, id))
    decreases |ReachSet(NameEdges(g), id)|
  {
    hide Rendered, Needs, QualifiersApply, WellFormed, Founded, ClosedName;
    NeedsInGraph(g, id);
    forall n | n in Needs(g, id)
      ensures |ReachSet(NameEdges(g), n)| < |ReachSet(NameEdges(g), id)| && Founded(g, n)
      ensures ClosedName(Rendering(g, n))
    {
      NeededIsFounded(g, id, n);
      RenderingIsClosed(g, n);
    }
    var names := map n | n in Needs(g, id) :: Rendering(g, n);
    RenderedIsClosed(g, id, names);
    RenderedIsRendering(g, id, names);
  }

  // ---- reading a list of members ----

  /** The first semicolon from here on that is not in braces. */
  function TopSemicolon(words: seq<Lexeme>, k: nat): (r: Option<nat>)
    ensures r.Some? ==> k <= r.value < |words|
    decreases |words| - k
  {
    if k >= |words| then None
    else if words[k].Semicolon? && Level(words[..k]) == 0 then Some(k)
    else TopSemicolon(words, k + 1)
  }

  /** What the semicolons outside of braces end. */
  function Pieces(words: seq<Lexeme>): Option<seq<seq<Lexeme>>> {
    if words == [] then Some([])
    else
      match TopSemicolon(words, 0)
      case None => None
      case Some(end) =>
        match Pieces(words[end + 1..])
        case None => None
        case Some(more) => Some([words[..end]] + more)
  }

  lemma {:induction false} ClosedEnds(piece: seq<Lexeme>, rest: seq<Lexeme>, k: nat)
    requires Closed(piece) && k <= |piece|
    ensures TopSemicolon(piece + [Semicolon] + rest, k) == Some(|piece|)
    decreases |piece| - k
  {
    hide Level;
    var words := piece + [Semicolon] + rest;
    assert words[..k] == piece[..k];
    if k < |piece| {
      assert words[k] == piece[k];
      ClosedEnds(piece, rest, k + 1);
    } else {
      assert piece[..k] == piece;
    }
  }

  function Ended(pieces: seq<seq<Lexeme>>): seq<Lexeme> {
    if pieces == [] then [] else pieces[0] + [Semicolon] + Ended(pieces[1..])
  }

  lemma {:induction false} EndedAppend(pieces: seq<seq<Lexeme>>, last: seq<Lexeme>)
    ensures Ended(pieces + [last]) == Ended(pieces) + last + [Semicolon]
  {
    if pieces == [] {
      assert pieces + [last] == [last];
    } else {
      assert (pieces + [last])[1..] == pieces[1..] + [last];
      EndedAppend(pieces[1..], last);
    }
  }

  lemma {:induction false} PiecesAreRead(pieces: seq<seq<Lexeme>>)
    requires forall k :: 0 <= k < |pieces| ==> Closed(pieces[k])
    ensures Pieces(Ended(pieces)) == Some(pieces)
  {
    hide Closed, TopSemicolon;
    if pieces != [] {
      var first, rest := pieces[0], Ended(pieces[1..]);
      var words := first + [Semicolon] + rest;
      ClosedEnds(first, rest, 0);
      PiecesAreRead(pieces[1..]);
      assert words[..|first|] == first && words[|first| + 1..] == rest;
      assert [first] + pieces[1..] == pieces;
    }
  }

  function Prints(ids: seq<Id>, names: NameCache): seq<seq<Lexeme>>
    requires forall id :: id in ids ==> id in names
  {
    seq(|ids|, k requires 0 <= k < |ids| => names[ids[k]].Print())
  }

  lemma {:induction false} MembersAreEnded(ids: seq<Id>, names: NameCache)
    requires forall id :: id in ids ==> id in names
    ensures MemberNames(ids, names) == Ended(Prints(ids, names))
  {
    if ids != [] {
      var n := |ids| - 1;
      MembersAreEnded(ids[..n], names);
      EndedAppend(Prints(ids[..n], names), names[ids[n]].Print());
      assert Prints(ids, names) == Prints(ids[..n], names) + [names[ids[n]].Print()];
    }
  }

  /** The name of a struct or union without a name tells the names of its members, in order. */
  lemma MembersAreTold(g: Graph, id: Id)
    requires WellFormed(g) && id in g && QualifiersApply(g) && Founded(g, id)
    requires g[id].StructUnion? && g[id].name == "" && g[id].structDefinition.Some?
    ensures var words, members := Rendering(g, id).Print(), g[id].structDefinition.value.members;
            && |words| >= 3 && words[..2] == [KindWord(g[id].structKind), OpenBrace]
            && words[|words| - 1] == CloseBrace
            && (forall m :: m in members ==> m in g && Founded(g, m))
            && Pieces(words[2..|words| - 1])
               == Some(seq(|members|, k requires 0 <= k < |members| => Rendering(g, members[k]).Print()))
  {
    hide WellFormed, QualifiersApply, Founded, Rendering, Name.Print, Closed, Pieces, MemberNames;
    var members := g[id].structDefinition.value.members;
    var names := RenderingUnfolds(g, id);
    assert forall m :: m in members ==> m in Needs(g, id);
    forall k | 0 <= k < |members| ensures Closed(Prints(members, names)[k]) {
      RenderingIsClosed(g, members[k]);
      PrintIsClosed(names[members[k]]);
    }
    MembersAreEnded(members, names);
    PiecesAreRead(Prints(members, names));
    var inner := MemberNames(members, names);
    PlainPrints([KindWord(g[id].structKind), OpenBrace] + inner + [CloseBrace]);
    var words := Rendering(g, id).Print();
    assert words == [KindWord(g[id].structKind), OpenBrace] + inner + [CloseBrace];
    assert words[2..|words| - 1] == inner;
    assert Prints(members, names) == seq(|members|, k requires 0 <= k < |members| => Rendering(g, members[k]).Print());
  }

  lemma PlainPrints(text: seq<Lexeme>)
    ensures Plain(text).Print() == text
  {
  }

  /** The name of an enumeration without a name tells its enumerators, in order. */
  lemma EnumeratorsAreTold(g: Graph, id: Id)
    requires WellFormed(g) && id in g && QualifiersApply(g) && Founded(g, id)
    requires g[id].Enumeration? && g[id].name == "" && g[id].enumDefinition.Some?
    ensures var words, enumerators := Rendering(g, id).Print(), g[id].enumDefinition.value.enumerators;
            && |words| == |enumerators| + 3 && words[..2] == [EnumWord, OpenBrace]
            && words[|words| - 1] == CloseBrace
            && forall k :: 0 <= k < |enumerators| ==>
                 words[k + 2] == Lexeme.Enumerator(enumerators[k].0, enumerators[k].1)
  {
    hide WellFormed, QualifiersApply, Founded, Rendering, Name.Print;
    var inner := EnumeratorWords(g[id].enumDefinition.value.enumerators);
    var names := RenderingUnfolds(g, id);
    PlainPrints([EnumWord, OpenBrace] + inner + [CloseBrace]);
    var words := Rendering(g, id).Print();
    assert words == [EnumWord, OpenBrace] + inner + [CloseBrace];
    forall k | 0 <= k < |inner| ensures words[k + 2] == inner[k] { }
  }

  /** Only the keyword is left of types that have neither a name nor a definition. */
  lemma DeclarationsSayTheirKind(g: Graph, id: Id)
    requires WellFormed(g) && id in g && QualifiersApply(g) && Founded(g, id)
    ensures g[id].StructUnion? && g[id].name == "" && g[id].structDefinition == None ==>
              Rendering(g, id).Print() == [KindWord(g[id].structKind)]
    ensures g[id].Enumeration? && g[id].name == "" && g[id].enumDefinition == None ==>
              Rendering(g, id).Print() == [EnumWord]
  {
    hide WellFormed, QualifiersApply, Founded, Rendering;
    var names := RenderingUnfolds(g, id);
  }
}

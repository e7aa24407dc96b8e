/** The names of type nodes are those of the types they stand for, and never show a placeholder. */
module TypeNames {
  import opened Wrappers
  import opened Reachability
  import opened Graph
  import opened Names
  import opened Declarators
  import opened Descriptions

  // ---- placeholders ----

  predicate NoHole(words: seq<Lexeme>) {
    Hole !in words
  }

  lemma {:induction false} ListsHaveNoHole(ids: seq<Id>, names: NameCache)
    requires forall id :: id in ids ==> id in names && NoHole(names[id].Print())
    ensures NoHole(ListNames(ids, names)) && NoHole(MemberNames(ids, names))
  {
    if ids != [] { ListsHaveNoHole(ids[..|ids| - 1], names); }
  }

  lemma AddHasNoHole(name: Name, side: Side, precedence: Precedence, text: seq<Lexeme>)
    requires NoHole(name.Print()) && NoHole(text)
    ensures NoHole(name.Add(side, precedence, text).Print())
  {
  }

  lemma QualifyHasNoHole(name: Name, qualifiers: set<Qualifier>)
    requires NoHole(name.Print()) && name.CanQualify(qualifiers)
    ensures NoHole(name.Qualify(qualifiers).Print())
  {
  }

  lemma PlainHasNoHole(text: seq<Lexeme>)
    requires NoHole(text)
    ensures NoHole(Plain(text).Print())
  {
  }

  lemma RenderedHasNoHole(g: Graph, id: Id, names: NameCache)
    requires WellFormed(g) && id in g && QualifiersApply(g) && AllSane(g, names) && Needs(g, id) <= names.Keys
    requires forall n :: n in Needs(g, id) ==> NoHole(names[n].Print())
    ensures NoHole(Rendered(g, id, names).Print())
  {
    hide ListNames, MemberNames, QualifiersApply, WellFormed, AllSane, Name.Add, Name.Qualify, Name.Print,
         EnumeratorWords;
    match g[id]
    case PointerReference(kind, to) => AddHasNoHole(names[to], LEFT, INDIRECTION, [Sign(kind)]);
    case Array(number, to) => AddHasNoHole(names[to], RIGHT, ARRAY_FUNCTION, [Dimension(number)]);
    case Qualified(_, _) =>
      UnqualifiedName(g, id, names);
      QualifyHasNoHole(names[Unqualified(g, id, {}).0], Unqualified(g, id, {}).1);
    case Member(name, to, _, bitsize) =>
      AddHasNoHole(names[to], LEFT, ATOMIC, [Word(Text(name))]);
      AddHasNoHole(if name != "" then names[to].Add(LEFT, ATOMIC, [Word(Text(name))]) else names[to], RIGHT, ATOMIC,
                   [BitSize(bitsize)]);
    case StructUnion(kind, "", Some(d)) =>
      ListsHaveNoHole(d.members, names);
      PlainHasNoHole([KindWord(kind), OpenBrace] + MemberNames(d.members, names) + [CloseBrace]);
    case Enumeration("", Some(d)) =>
      EnumeratorsHaveNoHole(d.enumerators);
      PlainHasNoHole([EnumWord, OpenBrace] + EnumeratorWords(d.enumerators) + [CloseBrace]);
    case Function(to, parameters) =>
      assert forall t :: t in TypeIds(parameters) ==> t in Needs(g, id);
      ListsHaveNoHole(TypeIds(parameters), names);
      AddHasNoHole(names[to], RIGHT, ARRAY_FUNCTION, [Open] + ListNames(TypeIds(parameters), names) + [Close]);
    case ElfSymbol(symbolName, _, _, _, _, _, _, Some(to), fullName) =>
      AddHasNoHole(names[to], LEFT, ATOMIC, [Word(Text(if fullName.Some? then fullName.value else symbolName))]);
    case _ => PlainHasNoHole(Rendered(g, id, names).left);
  }

  lemma EnumeratorsHaveNoHole(enumerators: seq<(string, int)>)
    ensures NoHole(EnumeratorWords(enumerators))
  {
  }

  /** A name never shows the placeholder that stands in the cache while it is being made. */
  lemma {:induction false} RenderingHasNoHole(g: Graph, id: Id)
    requires WellFormed(g) && id in g && QualifiersApply(g) && Founded(g, id)
    ensures NoHole(Rendering(g, id).Print())
    decreases |ReachSet(NameEdges(g), id)|
  {
    hide Rendered, Needs, QualifiersApply, WellFormed, Founded, NoHole, Name.Print;
    NeedsInGraph(g, id);
    forall n | n in Needs(g, id)
      ensures |ReachSet(NameEdges(g), n)| < |ReachSet(NameEdges(g), id)| && Founded(g, n)
      ensures NoHole(Rendering(g, n).Print())
    {
      NeededIsFounded(g, id, n);
      RenderingHasNoHole(g, n);
    }
    var names := map n | n in Needs(g, id) :: Rendering(g, n);
    RenderedHasNoHole(g, id, names);
    RenderedIsRendering(g, id, names);
  }

  // ---- types ----

  /** How far the names of the types in a tree are from their ends. */
  ghost function Depth(g: Graph, id: Id): nat
    requires WellFormed(g) && id in g
  {
    |ReachSet(NameEdges(g), Unqualified(g, id, {}).0)|
  }

  lemma UnderSameDepth(g: Graph, id: Id)
    requires WellFormed(g) && id in g && g[id].Qualified?
    ensures g[id].qualifiedTypeId in g
    ensures Unqualified(g, id, {}).0 == Unqualified(g, g[id].qualifiedTypeId, {}).0
    ensures |ReachSet(QualifierEdges(g), g[id].qualifiedTypeId)| < |ReachSet(QualifierEdges(g), id)|
  {
    var under := g[id].qualifiedTypeId;
    assert under in References(g[id]);
    ReachSetShrinks(QualifierEdges(g), id, under);
    SameBare(g, under, {}, {g[id].qualifier});
    var none: set<Qualifier> := {};
    assert none + {g[id].qualifier} == {g[id].qualifier};
  }

  /** What is under a qualifier is founded, too. */
  lemma UnderIsFounded(g: Graph, id: Id)
    requires WellFormed(g) && id in g && Founded(g, id) && g[id].Qualified?
    ensures g[id].qualifiedTypeId in g && Founded(g, g[id].qualifiedTypeId)
  {
    hide WellFormed, Reaches, Unqualified;
    UnderSameDepth(g, id);
    var under, end := g[id].qualifiedTypeId, Unqualified(g, id, {}).0;
    var edges := NameEdges(g);
    assert end in Needs(g, id);
    if g[under].Qualified? {
      assert (id, end) in edges && (under, end) in edges;
      ReachesSelf(edges, under);
      forall a: Id, b: Id | Reaches(edges, under, a) && (a, b) in edges ensures !Reaches(edges, b, a) {
        if a == under {
          assert Needs(g, under) == {end} && b == end;
          if Reaches(edges, end, under) { ReachesStep(edges, id, end, under); }
        } else {
          var m := FirstStep(edges, under, a);
          assert m == end;
          ReachesStep(edges, id, end, a);
        }
      }
    } else {
      NotQualifiedIsBare(g, under);
      NeededIsFounded(g, id, end);
    }
  }

  lemma {:induction false} SameBare(g: Graph, id: Id, q1: set<Qualifier>, q2: set<Qualifier>)
    requires WellFormed(g) && id in g
    ensures Unqualified(g, id, q1).0 == Unqualified(g, id, q2).0
    decreases |ReachSet(QualifierEdges(g), id)|
  {
    if g[id].Qualified? {
      var under := g[id].qualifiedTypeId;
      assert under in References(g[id]);
      ReachSetShrinks(QualifierEdges(g), id, under);
      SameBare(g, under, q1 + {g[id].qualifier}, q2 + {g[id].qualifier});
    }
  }

  lemma NeededIsLessDeep(g: Graph, id: Id, to: Id)
    requires WellFormed(g) && id in g && Founded(g, id) && !g[id].Qualified? && to in Needs(g, id)
    ensures to in g && Founded(g, to) && Depth(g, to) < Depth(g, id)
  {
    hide WellFormed, Founded;
    NeededIsFounded(g, id, to);
    NotQualifiedIsBare(g, id);
    if g[to].Qualified? {
      assert Unqualified(g, to, {}).0 in Needs(g, to);
      NeededIsFounded(g, to, Unqualified(g, to, {}).0);
    } else {
      NotQualifiedIsBare(g, to);
    }
  }

  lemma NotQualifiedIsBare(g: Graph, id: Id)
    requires WellFormed(g) && id in g && !g[id].Qualified?
    ensures Unqualified(g, id, {}).0 == id
  {
  }

  /** What a type with a name of its own is called. */
  function StemOf(node: Node): Option<Stem> {
    match node
    case Void => Some(Text("void"))
    case Variadic => Some(Text("..."))
    case Typedef(name, _) => Some(Text(name))
    case Integer(name, _, _, _) => Some(Text(name))
    case StructUnion(kind, name, _) => if name != "" then Some(Tag(kind, name)) else None
    case Enumeration(name, _) => if name != "" then Some(EnumTag(name)) else None
    case _ => None
  }

  /** The type that a node stands for, if it is made of types with names. */
  ghost function TreeOf(g: Graph, id: Id): Option<Type>
    requires WellFormed(g) && id in g && Founded(g, id)
    decreases Depth(g, id), |ReachSet(QualifierEdges(g), id)|, 1, 0
  {
    match g[id]
    case PointerReference(kind, to) =>
      NeededIsLessDeep(g, id, to);
      (match TreeOf(g, to)
       case Some(t) => Some(PointerTo(kind, t))
       case None => None)
    case Array(number, to) =>
      NeededIsLessDeep(g, id, to);
      (match TreeOf(g, to)
       case Some(t) => Some(ArrayOf(number, t))
       case None => None)
    case Function(to, parameters) =>
      NeededIsLessDeep(g, id, to);
      (match (TreeOf(g, to), TreesOf(g, id, |parameters|))
       case (Some(t), Some(ts)) => Some(FunctionOf(t, ts))
       case _ => None)
    case Qualified(qualifier, under) =>
      UnderSameDepth(g, id);
      UnderIsFounded(g, id);
      (match TreeOf(g, under)
       case Some(t) => Some(QualifiedBy(qualifier, t))
       case None => None)
    case _ =>
      match StemOf(g[id])
      case Some(stem) => Some(Basic(stem))
      case None => None
  }

  /** The types of the first n parameters of a function. */
  ghost function TreesOf(g: Graph, id: Id, n: nat): (r: Option<seq<Type>>)
    requires WellFormed(g) && id in g && Founded(g, id) && g[id].Function? && n <= |g[id].parameters|
    ensures r.Some? ==> |r.value| == n
    decreases Depth(g, id), |ReachSet(QualifierEdges(g), id)|, 0, n
  {
    if n == 0 then Some([])
    else
      assert g[id].parameters[n - 1] in g[id].parameters;
      NeededIsLessDeep(g, id, g[id].parameters[n - 1].typeId);
      match (TreesOf(g, id, n - 1), TreeOf(g, g[id].parameters[n - 1].typeId))
      case (Some(ts), Some(t)) => Some(ts + [t])
      case _ => None
  }

  // ---- the name of a type node ----

  lemma {:induction false} StripFollowsChain(g: Graph, id: Id, qualifiers: set<Qualifier>)
    requires WellFormed(g) && id in g && Founded(g, id) && TreeOf(g, id).Some?
    ensures var (under, collected) := Unqualified(g, id, qualifiers);
            && Founded(g, under) && TreeOf(g, under).Some?
            && Strip(TreeOf(g, id).value, qualifiers) == (TreeOf(g, under).value, collected)
    decreases |ReachSet(QualifierEdges(g), id)|
  {
    hide WellFormed, Founded;
    if g[id].Qualified? {
      UnderSameDepth(g, id);
      UnderIsFounded(g, id);
      ChainStep(g, id, qualifiers);
      StripFollowsChain(g, g[id].qualifiedTypeId, qualifiers + {g[id].qualifier});
    } else {
      ChainEnd(g, id, qualifiers);
      KindOfTree(g, id);
    }
  }

  lemma ChainStep(g: Graph, id: Id, qualifiers: set<Qualifier>)
    requires WellFormed(g) && id in g && g[id].Qualified? && g[id].qualifiedTypeId in g
    ensures Unqualified(g, id, qualifiers) == Unqualified(g, g[id].qualifiedTypeId, qualifiers + {g[id].qualifier})
  {
  }

  lemma ChainEnd(g: Graph, id: Id, qualifiers: set<Qualifier>)
    requires WellFormed(g) && id in g && !g[id].Qualified?
    ensures Unqualified(g, id, qualifiers) == (id, if g[id].Array? || g[id].Function? then {} else qualifiers)
  {
  }

  lemma KindOfTree(g: Graph, id: Id)
    requires WellFormed(g) && id in g && Founded(g, id) && TreeOf(g, id).Some? && !g[id].Qualified?
    ensures var t := TreeOf(g, id).value;
            !t.QualifiedBy? && (t.ArrayOf? <==> g[id].Array?) && (t.FunctionOf? <==> g[id].Function?)
  {
    hide WellFormed, Founded;
  }

  lemma {:induction false} BareIsCloser(g: Graph, id: Id)
    requires WellFormed(g) && id in g && g[id].Qualified?
    ensures |ReachSet(QualifierEdges(g), Unqualified(g, id, {}).0)| < |ReachSet(QualifierEdges(g), id)|
    ensures Depth(g, Unqualified(g, id, {}).0) == Depth(g, id) && Unqualified(g, id, {}).0 in Needs(g, id)
    decreases |ReachSet(QualifierEdges(g), id)|
  {
    hide WellFormed, ReachSet;
    UnderSameDepth(g, id);
    var under := g[id].qualifiedTypeId;
    NotQualifiedIsBare(g, Unqualified(g, id, {}).0);
    if g[under].Qualified? {
      BareIsCloser(g, under);
    } else {
      NotQualifiedIsBare(g, under);
    }
  }

  lemma {:induction false} TreesOfParameters(g: Graph, id: Id, n: nat, k: nat)
    requires WellFormed(g) && id in g && Founded(g, id) && g[id].Function? && k < n <= |g[id].parameters|
    requires TreesOf(g, id, n).Some?
    ensures var to := g[id].parameters[k].typeId;
            to in g && Founded(g, to) && Depth(g, to) < Depth(g, id) && to in Needs(g, id)
            && TreeOf(g, to) == Some(TreesOf(g, id, n).value[k])
  {
    hide WellFormed, Founded, TreeOf, Depth, ReachSet, QualifierEdges;
    if k == n - 1 {
      assert g[id].parameters[k] in g[id].parameters;
      NeededIsLessDeep(g, id, g[id].parameters[k].typeId);
    } else {
      TreesOfParameters(g, id, n - 1, k);
    }
  }

  lemma {:induction false} ParametersAreNamed(ids: seq<Id>, names: NameCache, ts: seq<Type>)
    requires |ids| == |ts| && forall k :: 0 <= k < |ids| ==> ids[k] in names && names[ids[k]] == Describe(ts[k])
    ensures ListNames(ids, names) == ParameterNames(ts)
  {
    if ids != [] { ParametersAreNamed(ids[..|ids| - 1], names, ts[..|ts| - 1]); }
  }

  lemma RenderingUnfolds(g: Graph, id: Id) returns (names: NameCache)
    requires WellFormed(g) && id in g && QualifiersApply(g) && Founded(g, id)
    ensures names.Keys == Needs(g, id) && Needs(g, id) <= g.Keys && AllSane(g, names)
    ensures (forall n :: n in Needs(g, id) ==> Founded(g, n) && names[n] == Rendering(g, n))
    ensures Rendering(g, id) == Rendered(g, id, names)
  {
    hide Rendered, Needs, QualifiersApply, WellFormed, Founded;
    NeedsInGraph(g, id);
    forall n | n in Needs(g, id) ensures Founded(g, n) { NeededIsFounded(g, id, n); }
    names := map n | n in Needs(g, id) :: Rendering(g, n);
    RenderedIsRendering(g, id, names);
  }

  /** The name of a node that stands for a type is the name of that type. */
  lemma {:induction false} RenderingIsDescribe(g: Graph, id: Id)
    requires WellFormed(g) && id in g && QualifiersApply(g) && Founded(g, id) && TreeOf(g, id).Some?
    ensures Rendering(g, id) == Describe(TreeOf(g, id).value)
    decreases Depth(g, id), |ReachSet(QualifierEdges(g), id)|
  {
    hide WellFormed, QualifiersApply, Founded, ListNames, ParameterNames, Name.Add, Name.Qualify, Rendering, Depth,
         ReachSet, Strip;
    var names := RenderingUnfolds(g, id);
    match g[id]
    case PointerReference(_, to) =>
      NeededIsLessDeep(g, id, to);
      RenderingIsDescribe(g, to);
    case Array(_, to) =>
      NeededIsLessDeep(g, id, to);
      RenderingIsDescribe(g, to);
    case Function(to, parameters) =>
      NeededIsLessDeep(g, id, to);
      RenderingIsDescribe(g, to);
      var ts := TreesOf(g, id, |parameters|).value;
      forall k | 0 <= k < |parameters|
        ensures TypeIds(parameters)[k] in names && names[TypeIds(parameters)[k]] == Describe(ts[k])
      {
        TreesOfParameters(g, id, |parameters|, k);
        RenderingIsDescribe(g, parameters[k].typeId);
      }
      ParametersAreNamed(TypeIds(parameters), names, ts);
    case Qualified(qualifier, under) =>
      QualifiedIsDescribe(g, id, names);
    case _ =>
  }

  lemma QualifiedIsDescribe(g: Graph, id: Id, names: NameCache)
    requires WellFormed(g) && id in g && QualifiersApply(g) && Founded(g, id) && TreeOf(g, id).Some?
    requires g[id].Qualified?
    requires names.Keys == Needs(g, id) && Needs(g, id) <= g.Keys && AllSane(g, names)
    requires forall n :: n in Needs(g, id) ==> Founded(g, n) && names[n] == Rendering(g, n)
    ensures Rendered(g, id, names) == Describe(TreeOf(g, id).value)
    decreases Depth(g, id), |ReachSet(QualifierEdges(g), id)|, 0
  {
    hide WellFormed, QualifiersApply, Founded, Name.Qualify, Rendering, Depth, ReachSet, Strip, TreeOf, Needs, AllSane;
    var under, qualifiers := StripsToBare(g, id);
    UnqualifiedName(g, id, names);
    BareIsCloser(g, id);
    RenderingIsDescribe(g, under);
  }

  /** A qualified type comes down to what is under all its qualifiers, and those qualifiers. */
  lemma StripsToBare(g: Graph, id: Id) returns (under: Id, qualifiers: set<Qualifier>)
    requires WellFormed(g) && id in g && Founded(g, id) && g[id].Qualified? && TreeOf(g, id).Some?
    ensures (under, qualifiers) == Unqualified(g, id, {})
    ensures Founded(g, under) && TreeOf(g, under).Some?
    ensures Describe(TreeOf(g, under).value).CanQualify(qualifiers)
    ensures Describe(TreeOf(g, id).value) == Describe(TreeOf(g, under).value).Qualify(qualifiers)
  {
    hide WellFormed, Founded, Depth, ReachSet, Strip, Name.Qualify;
    var none: set<Qualifier> := {};
    var q := g[id].qualifier;
    assert none + {q} == {q};
    UnderSameDepth(g, id);
    UnderIsFounded(g, id);
    ChainStep(g, id, {});
    StripFollowsChain(g, g[id].qualifiedTypeId, {q});
    under, qualifiers := Unqualified(g, id, {}).0, Unqualified(g, id, {}).1;
    StripKeepsPrecedence(TreeOf(g, g[id].qualifiedTypeId).value, {q});
  }

  /** Type nodes have the same name exactly if the types they stand for read the same. */
  lemma NodeNamesAreUnambiguous(g: Graph, a: Id, b: Id)
    requires WellFormed(g) && QualifiersApply(g) && a in g && b in g && Founded(g, a) && Founded(g, b)
    requires TreeOf(g, a).Some? && TreeOf(g, b).Some?
    ensures Rendering(g, a).Print() == Rendering(g, b).Print() <==> Read(TreeOf(g, a).value) == Read(TreeOf(g, b).value)
    ensures ParseType(Rendering(g, a).Print()) == Some((Read(TreeOf(g, a).value), []))
  {
    hide WellFormed, QualifiersApply, Founded, Rendering, Describe, TreeOf, Read, ParseType;
    RenderingIsDescribe(g, a);
    RenderingIsDescribe(g, b);
    NamesAreUnambiguous(TreeOf(g, a).value, TreeOf(g, b).value);
    DescribeParses(TreeOf(g, a).value);
  }
}

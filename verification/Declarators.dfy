/** The names of types are unambiguous. They follow the declarator grammar of sections 6.7.6 and 6.7.7 of
    ISO C11, extended by references: a parser for that grammar recovers the type from its name. */
module Declarators {
  import opened Wrappers
  import opened Graph
  import opened Names

  /** Types as trees. Basic types, typedefs and named structs, unions and enums are all just words. */
  datatype Type =
    | Basic(stem: Stem)
    | PointerTo(kind: PointerKind, pointee: Type)
    | ArrayOf(number: nat, element: Type)
    | FunctionOf(result: Type, parameters: seq<Type>)
    | QualifiedBy(qualifier: Qualifier, qualified: Type)

  // ---- naming a type ----

  /** The end of a chain of qualifiers. Qualifiers on arrays and functions are discarded. */
  function Strip(t: Type, qualifiers: set<Qualifier>): (r: (Type, set<Qualifier>))
    ensures !r.0.QualifiedBy? && (r.0 == t || r.0 < t)
    ensures r.1 != {} ==> !r.0.ArrayOf? && !r.0.FunctionOf?
  {
    match t
    case QualifiedBy(q, under) => Strip(under, qualifiers + {q})
    case ArrayOf(_, _) => (t, {})
    case FunctionOf(_, _) => (t, {})
    case _ => (t, qualifiers)
  }

  function SignPrecedence(t: Type): Precedence {
    match t
    case Basic(_) => NIL
    case PointerTo(_, _) => INDIRECTION
    case ArrayOf(_, _) => ARRAY_FUNCTION
    case FunctionOf(_, _) => ARRAY_FUNCTION
    case QualifiedBy(_, under) => SignPrecedence(under)
  }

  lemma {:induction false} StripKeepsPrecedence(t: Type, qualifiers: set<Qualifier>)
    ensures SignPrecedence(Strip(t, qualifiers).0) == SignPrecedence(t)
  {
    if t.QualifiedBy? { StripKeepsPrecedence(t.qualified, qualifiers + {t.qualifier}); }
  }

  /** The name of a type, as MakeDescription makes it. */
  function Describe(t: Type): (name: Name)
    ensures name.precedence == SignPrecedence(t)
  {
    match t
    case Basic(stem) => Plain([Word(stem)])
    case PointerTo(kind, pointee) => Describe(pointee).Add(LEFT, INDIRECTION, [Sign(kind)])
    case ArrayOf(number, element) => Describe(element).Add(RIGHT, ARRAY_FUNCTION, [Dimension(number)])
    case FunctionOf(result, parameters) =>
      Describe(result).Add(RIGHT, ARRAY_FUNCTION, [Open] + ParameterNames(parameters) + [Close])
    case QualifiedBy(qualifier, under) =>
      var (bare, qualifiers) := Strip(under, {qualifier});
      StripKeepsPrecedence(under, {qualifier});
      Describe(bare).Qualify(qualifiers)
  }

  function ParameterNames(parameters: seq<Type>): seq<Lexeme> {
    if parameters == [] then []
    else
      var n := |parameters| - 1;
      (if n == 0 then [] else ParameterNames(parameters[..n]) + [Comma]) + Describe(parameters[n]).Print()
  }

  // ---- types up to what their names can tell ----

  /** A type read from the inside out: a basic type, and what is built on top of it, step by step. Chains
      of qualifiers are merged into sets. */
  datatype Reading = Reading(qualifiers: set<Qualifier>, stem: Stem, layers: seq<Layer>)

  datatype Layer =
    | PointerLayer(kind: PointerKind, qualifiers: set<Qualifier>)
    | ArrayLayer(number: nat)
    | FunctionLayer(parameters: seq<Reading>)

  function Read(t: Type): Reading {
    match t
    case Basic(stem) => Reading({}, stem, [])
    case PointerTo(kind, pointee) => Read(pointee).(layers := Read(pointee).layers + [PointerLayer(kind, {})])
    case ArrayOf(number, element) => Read(element).(layers := Read(element).layers + [ArrayLayer(number)])
    case FunctionOf(result, parameters) =>
      Read(result).(layers := Read(result).layers
                      + [FunctionLayer(seq(|parameters|, k requires 0 <= k < |parameters| => Read(parameters[k])))])
    case QualifiedBy(qualifier, under) => Qualifying(Read(under), {qualifier})
  }

  /** Qualifiers merge with those of a basic type or a pointer, and are dropped on arrays and functions. */
  function Qualifying(r: Reading, qualifiers: set<Qualifier>): Reading {
    if r.layers == [] then r.(qualifiers := r.qualifiers + qualifiers)
    else
      var n := |r.layers| - 1;
      match r.layers[n]
      case PointerLayer(kind, q) => r.(layers := r.layers[..n] + [PointerLayer(kind, q + qualifiers)])
      case _ => r
  }

  // ---- every reading is that of some type ----

  function Wrapped(t: Type, qualifiers: set<Qualifier>): Type {
    var c := if CONST in qualifiers then QualifiedBy(CONST, t) else t;
    var v := if VOLATILE in qualifiers then QualifiedBy(VOLATILE, c) else c;
    if RESTRICT in qualifiers then QualifiedBy(RESTRICT, v) else v
  }

  /** A type with this reading, with qualifiers in a fixed order. */
  function Rebuilt(r: Reading): Type {
    RebuiltLayers(Wrapped(Basic(r.stem), r.qualifiers), r.layers)
  }

  function RebuiltLayers(t: Type, layers: seq<Layer>): Type
    decreases layers
  {
    if layers == [] then t
    else
      var n := |layers| - 1;
      var inner := RebuiltLayers(t, layers[..n]);
      match layers[n]
      case PointerLayer(kind, qualifiers) => Wrapped(PointerTo(kind, inner), qualifiers)
      case ArrayLayer(number) => ArrayOf(number, inner)
      case FunctionLayer(parameters) =>
        FunctionOf(inner, seq(|parameters|, k requires 0 <= k < |parameters| => Rebuilt(parameters[k])))
  }

  /** Qualifiers do not get in the way of what they do not apply to. */
  lemma WrappedReads(t: Type, qualifiers: set<Qualifier>)
    requires t.Basic? || t.PointerTo?
    ensures Read(Wrapped(t, qualifiers)) == Qualifying(Read(t), qualifiers)
  {
    hide Qualifying;
    var r := Read(t);
    QualifyingNone(r);
    var c: set<Qualifier> := if CONST in qualifiers then {CONST} else {};
    var v := if VOLATILE in qualifiers then c + {VOLATILE} else c;
    var all := if RESTRICT in qualifiers then v + {RESTRICT} else v;
    QualifyingTwice(r, c, {VOLATILE});
    QualifyingTwice(r, v, {RESTRICT});
    forall q ensures q in qualifiers <==> q in all {
      match q case CONST => case VOLATILE => case RESTRICT =>
    }
    assert all == qualifiers;
    var inner := if CONST in qualifiers then QualifiedBy(CONST, t) else t;
    assert Read(inner) == Qualifying(r, c);
    var middle := if VOLATILE in qualifiers then QualifiedBy(VOLATILE, inner) else inner;
    assert Read(middle) == Qualifying(r, v);
  }

  lemma QualifyingNone(r: Reading)
    ensures Qualifying(r, {}) == r
  {
    if r.layers != [] && r.layers[|r.layers| - 1].PointerLayer? {
      assert r.layers[|r.layers| - 1].qualifiers + {} == r.layers[|r.layers| - 1].qualifiers;
    }
  }

  lemma QualifyingTwice(r: Reading, q1: set<Qualifier>, q2: set<Qualifier>)
    ensures Qualifying(Qualifying(r, q1), q2) == Qualifying(r, q1 + q2)
  {
    assert r.qualifiers + q1 + q2 == r.qualifiers + (q1 + q2);
    if r.layers != [] && r.layers[|r.layers| - 1].PointerLayer? {
      var q := r.layers[|r.layers| - 1].qualifiers;
      assert q + q1 + q2 == q + (q1 + q2);
    }
  }

  lemma {:induction false} RebuiltReads(r: Reading)
    ensures Read(Rebuilt(r)) == r
    decreases r
  {
    hide Wrapped, RebuiltLayers;
    WrappedReads(Basic(r.stem), r.qualifiers);
    assert {} + r.qualifiers == r.qualifiers;
    RebuiltLayersRead(Wrapped(Basic(r.stem), r.qualifiers), r.layers);
  }

  lemma {:induction false} RebuiltLayersRead(t: Type, layers: seq<Layer>)
    ensures Read(RebuiltLayers(t, layers)) == Read(t).(layers := Read(t).layers + layers)
    decreases layers
  {
    hide Wrapped;
    if layers != [] {
      var n := |layers| - 1;
      RebuiltLayersRead(t, layers[..n]);
      assert Read(t).layers + layers == Read(t).layers + layers[..n] + [layers[n]];
      match layers[n]
      case PointerLayer(kind, qualifiers) =>
        WrappedReads(PointerTo(kind, RebuiltLayers(t, layers[..n])), qualifiers);
        assert {} + qualifiers == qualifiers;
      case ArrayLayer(number) =>
      case FunctionLayer(parameters) =>
        forall k | 0 <= k < |parameters| ensures Read(Rebuilt(parameters[k])) == parameters[k] {
          RebuiltReads(parameters[k]);
        }
        var types := seq(|parameters|, k requires 0 <= k < |parameters| => Rebuilt(parameters[k]));
        assert seq(|types|, k requires 0 <= k < |types| => Read(types[k])) == parameters;
    }
  }

  predicate HasNoQualifiers(t: Type) {
    match t
    case Basic(_) => true
    case PointerTo(_, pointee) => HasNoQualifiers(pointee)
    case ArrayOf(_, element) => HasNoQualifiers(element)
    case FunctionOf(result, parameters) =>
      HasNoQualifiers(result) && forall k :: 0 <= k < |parameters| ==> HasNoQualifiers(parameters[k])
    case QualifiedBy(_, _) => false
  }

  /** Without qualifiers the reading says it all. */
  lemma {:induction false} UnqualifiedIsRebuilt(t: Type)
    requires HasNoQualifiers(t)
    ensures Rebuilt(Read(t)) == t && forall k :: 0 <= k < |Read(t).layers| && Read(t).layers[k].PointerLayer? ==>
              Read(t).layers[k].qualifiers == {}
    decreases t
  {
    match t
    case Basic(_) =>
    case PointerTo(kind, pointee) =>
      UnqualifiedIsRebuilt(pointee);
      assert Read(t).layers[..|Read(t).layers| - 1] == Read(pointee).layers;
    case ArrayOf(_, element) =>
      UnqualifiedIsRebuilt(element);
      assert Read(t).layers[..|Read(t).layers| - 1] == Read(element).layers;
    case FunctionOf(result, parameters) =>
      UnqualifiedIsRebuilt(result);
      forall k | 0 <= k < |parameters| ensures Rebuilt(Read(parameters[k])) == parameters[k] {
        UnqualifiedIsRebuilt(parameters[k]);
      }
      FunctionIsRebuilt(result, parameters);
  }

  lemma FunctionIsRebuilt(result: Type, parameters: seq<Type>)
    requires Rebuilt(Read(result)) == result
    requires forall k :: 0 <= k < |parameters| ==> Rebuilt(Read(parameters[k])) == parameters[k]
    requires forall k :: 0 <= k < |Read(result).layers| && Read(result).layers[k].PointerLayer? ==>
               Read(result).layers[k].qualifiers == {}
    ensures var t := FunctionOf(result, parameters);
            && Rebuilt(Read(t)) == t
            && forall k :: 0 <= k < |Read(t).layers| && Read(t).layers[k].PointerLayer? ==>
                 Read(t).layers[k].qualifiers == {}
  {
    hide Wrapped;
    var layers, t := Read(result).layers, FunctionOf(result, parameters);
    var readings := seq(|parameters|, k requires 0 <= k < |parameters| => Read(parameters[k]));
    assert Read(t).layers == layers + [FunctionLayer(readings)];
    assert Read(t).layers[..|layers|] == layers && Read(t).layers[|layers|] == FunctionLayer(readings);
    assert seq(|readings|, k requires 0 <= k < |readings| => Rebuilt(readings[k])) == parameters;
  }

  // ---- the name of a reading ----

  function LayerWords(layer: Layer): seq<Lexeme> {
    match layer
    case PointerLayer(kind, qualifiers) => [Sign(kind)] + QualifierWords(qualifiers)
    case ArrayLayer(number) => [Dimension(number)]
    case FunctionLayer(parameters) => [Open] + ListWords(parameters) + [Close]
  }

  /** What is written around and after a declarator of this precedence for further layers, with this at the place of
      the declared name. */
  function Declarator(bracket: bool, layers: seq<Layer>, place: seq<Lexeme>): seq<Lexeme>
    decreases layers
  {
    if layers == [] then place
    else if layers[0].PointerLayer? then
      var inside := LayerWords(layers[0]) + Declarator(false, layers[1..], place);
      if bracket then [Open] + inside + [Close] else inside
    else Declarator(true, layers[1..], place) + LayerWords(layers[0])
  }

  /** A declaration of a type, with this at the place of the declared name. */
  function Declaration(r: Reading, place: seq<Lexeme>): seq<Lexeme> {
    QualifierWords(r.qualifiers) + [Word(r.stem)] + Declarator(false, r.layers, place)
  }

  function Words(r: Reading): seq<Lexeme> {
    Declaration(r, [])
  }

  function ListWords(parameters: seq<Reading>): seq<Lexeme> {
    if parameters == [] then []
    else
      var n := |parameters| - 1;
      (if n == 0 then [] else ListWords(parameters[..n]) + [Comma]) + Words(parameters[n])
  }

  // ---- reading a name ----

  function ParseQualifiers(words: seq<Lexeme>): (r: (set<Qualifier>, seq<Lexeme>))
    ensures |r.1| <= |words|
  {
    if words != [] && words[0].QualifierWord? then
      var (qualifiers, rest) := ParseQualifiers(words[1..]);
      (qualifiers + {words[0].qualifier}, rest)
    else ({}, words)
  }

  /** type-name: a declaration without a name. */
  function ParseType(words: seq<Lexeme>): (r: Option<(Reading, seq<Lexeme>)>)
    ensures r.Some? ==> |r.value.1| < |words|
    decreases |words|, 5
  {
    ParseDeclaration(words, [])
  }

  /** A declaration: qualifiers, a basic type, and a declarator. */
  function ParseDeclaration(words: seq<Lexeme>, place: seq<Lexeme>): (r: Option<(Reading, seq<Lexeme>)>)
    ensures r.Some? ==> |r.value.1| < |words|
    decreases |words|, 4
  {
    var (qualifiers, rest) := ParseQualifiers(words);
    if rest != [] && rest[0].Word? then
      match ParseDeclarator(rest[1..], place)
      case Some((layers, rest')) => Some((Reading(qualifiers, rest[0].stem, layers), rest'))
      case None => None
    else None
  }

  predicate StartsWithSign(words: seq<Lexeme>) {
    words != [] && words[0].Sign?
  }

  /** declarator: pointers, then a declarator in parentheses or the place of the name, then arrays and functions. */
  function ParseDeclarator(words: seq<Lexeme>, place: seq<Lexeme>): (r: Option<(seq<Layer>, seq<Lexeme>)>)
    ensures r.Some? ==> |r.value.1| <= |words|
    decreases |words|, 3
  {
    if StartsWithSign(words) then
      var (qualifiers, rest) := ParseQualifiers(words[1..]);
      match ParseDeclarator(rest, place)
      case Some((layers, rest')) => Some(([PointerLayer(words[0].kind, qualifiers)] + layers, rest'))
      case None => None
    else ParseDirect(words, place)
  }

  function ParseDirect(words: seq<Lexeme>, place: seq<Lexeme>): (r: Option<(seq<Layer>, seq<Lexeme>)>)
    ensures r.Some? ==> |r.value.1| <= |words|
    decreases |words|, 2
  {
    if words != [] && words[0] == Open && StartsWithSign(words[1..]) then
      match ParseDeclarator(words[1..], place)
      case Some((inner, rest)) =>
        if rest != [] && rest[0] == Close then
          match ParseSuffixes(rest[1..])
          case Some((outer, rest')) => Some((outer + inner, rest'))
          case None => None
        else None
      case None => None
    else if place <= words then ParseSuffixes(words[|place|..])
    else None
  }

  /** Arrays and functions. The last one is the innermost. */
  function ParseSuffixes(words: seq<Lexeme>): (r: Option<(seq<Layer>, seq<Lexeme>)>)
    ensures r.Some? ==> |r.value.1| <= |words|
    decreases |words|, 1
  {
    if words != [] && words[0].Dimension? then
      match ParseSuffixes(words[1..])
      case Some((layers, rest)) => Some((layers + [ArrayLayer(words[0].number)], rest))
      case None => None
    else if words != [] && words[0] == Open then
      match ParseList(words[1..])
      case Some((parameters, rest)) =>
        if rest != [] && rest[0] == Close then
          match ParseSuffixes(rest[1..])
          case Some((layers, rest')) => Some((layers + [FunctionLayer(parameters)], rest'))
          case None => None
        else None
      case None => None
    else Some(([], words))
  }

  /** parameter-type-list, possibly empty. */
  function ParseList(words: seq<Lexeme>): (r: Option<(seq<Reading>, seq<Lexeme>)>)
    ensures r.Some? ==> |r.value.1| <= |words|
    decreases |words|, 7
  {
    if words != [] && words[0] == Close then Some(([], words)) else ParseMore(words)
  }

  function ParseMore(words: seq<Lexeme>): (r: Option<(seq<Reading>, seq<Lexeme>)>)
    ensures r.Some? ==> |r.value.1| <= |words|
    decreases |words|, 6
  {
    match ParseType(words)
    case Some((t, rest)) =>
      if rest != [] && rest[0] == Comma then
        match ParseMore(rest[1..])
        case Some((more, rest')) => Some(([t] + more, rest'))
        case None => None
      else Some(([t], rest))
    case None => None
  }

  // ---- the name of a type is the name of its reading ----

  /** One more layer on a name. */
  function AddLayer(name: Name, layer: Layer): Name
    requires name.precedence != ATOMIC
  {
    match layer
    case PointerLayer(kind, qualifiers) => name.Add(LEFT, INDIRECTION, [Sign(kind)]).Qualify(qualifiers)
    case _ => name.Add(RIGHT, ARRAY_FUNCTION, LayerWords(layer))
  }

  function AddLayers(name: Name, layers: seq<Layer>): (r: Name)
    requires name.precedence != ATOMIC
    ensures r.precedence == if layers == [] then name.precedence
                            else if layers[|layers| - 1].PointerLayer? then INDIRECTION else ARRAY_FUNCTION
  {
    if layers == [] then name
    else
      var n := |layers| - 1;
      AddLayer(AddLayers(name, layers[..n]), layers[n])
  }

  function Stem(r: Reading): Name {
    Plain(QualifierWords(r.qualifiers) + [Word(r.stem)])
  }

  function NameOf(r: Reading): Name {
    AddLayers(Stem(r), r.layers)
  }

  /** Layers can be added from the inside, too: each goes around the place where the name would stand. */
  lemma {:induction false} LayersSurround(name: Name, layers: seq<Layer>, place: seq<Lexeme>)
    requires name.precedence != ATOMIC
    ensures AddLayers(name, layers).left + place + AddLayers(name, layers).right
            == name.left + Declarator(name.precedence == ARRAY_FUNCTION, layers, place) + name.right
    decreases |layers|
  {
    hide AddLayer, LeftOf, RightOf;
    if layers != [] {
      DeclaratorSurrounds(name.precedence == ARRAY_FUNCTION, layers, place);
      LayersFromInside(name, layers);
      LayersSurround(AddLayer(name, layers[0]), layers[1..], place);
      LayerSurrounds(name, layers[0], Declarator(!layers[0].PointerLayer?, layers[1..], place));
    }
  }

  lemma {:induction false} LayersFromInside(name: Name, layers: seq<Layer>)
    requires name.precedence != ATOMIC && layers != []
    ensures AddLayer(name, layers[0]).precedence != ATOMIC
    ensures AddLayers(name, layers) == AddLayers(AddLayer(name, layers[0]), layers[1..])
    decreases |layers|
  {
    var n := |layers| - 1;
    if n > 0 {
      LayersFromInside(name, layers[..n]);
      assert layers[..n][1..] == layers[1..][..n - 1];
    }
  }

  /** What a layer adds before and after the place where the name would stand. */
  function LeftOf(bracket: bool, layer: Layer): seq<Lexeme> {
    if !layer.PointerLayer? then [] else if bracket then [Open] + LayerWords(layer) else LayerWords(layer)
  }

  function RightOf(bracket: bool, layer: Layer): seq<Lexeme> {
    if !layer.PointerLayer? then LayerWords(layer) else if bracket then [Close] else []
  }

  lemma LayerAdds(name: Name, layer: Layer)
    requires name.precedence != ATOMIC
    ensures var r, bracket := AddLayer(name, layer), name.precedence == ARRAY_FUNCTION;
            && r.precedence == (if layer.PointerLayer? then INDIRECTION else ARRAY_FUNCTION)
            && r.left == name.left + LeftOf(bracket, layer) && r.right == RightOf(bracket, layer) + name.right
  {
    hide LayerWords, QualifierWords;
    if layer.PointerLayer? { PointerAdds(name, layer); }
  }

  lemma PointerAdds(name: Name, layer: Layer)
    requires name.precedence != ATOMIC && layer.PointerLayer?
    ensures var r, bracket := AddLayer(name, layer), name.precedence == ARRAY_FUNCTION;
            && r.precedence == INDIRECTION
            && r.left == name.left + LeftOf(bracket, layer) && r.right == RightOf(bracket, layer) + name.right
  {
    assert QualifierWords({}) == [];
    hide QualifierWords;
    var open := if name.precedence == ARRAY_FUNCTION then [Open] else [];
    var sign, words := [Sign(layer.kind)], QualifierWords(layer.qualifiers);
    assert name.left + (open + (sign + words)) == name.left + open + sign + words;
  }

  lemma LayerSurrounds(name: Name, layer: Layer, inside: seq<Lexeme>)
    requires name.precedence != ATOMIC
    ensures var r, bracket := AddLayer(name, layer), name.precedence == ARRAY_FUNCTION;
            && r.precedence == (if layer.PointerLayer? then INDIRECTION else ARRAY_FUNCTION)
            && r.left + inside + r.right == name.left + (LeftOf(bracket, layer) + inside + RightOf(bracket, layer))
                + name.right
  {
    hide AddLayer, LeftOf, RightOf;
    LayerAdds(name, layer);
  }

  lemma DeclaratorSurrounds(bracket: bool, layers: seq<Layer>, place: seq<Lexeme>)
    requires layers != []
    ensures Declarator(bracket, layers, place) ==
            LeftOf(bracket, layers[0]) + Declarator(!layers[0].PointerLayer?, layers[1..], place)
            + RightOf(bracket, layers[0])
  {
    hide LayerWords;
  }

  lemma NameOfIsWords(r: Reading)
    ensures NameOf(r).Print() == Words(r)
  {
    NameOfSurrounds(r, []);
    assert NameOf(r).left + [] == NameOf(r).left;
  }

  lemma NameOfSurrounds(r: Reading, place: seq<Lexeme>)
    ensures NameOf(r).left + place + NameOf(r).right == Declaration(r, place)
  {
    hide QualifierWords, Declarator;
    LayersSurround(Stem(r), r.layers, place);
    assert Declaration(r, place) + [] == Declaration(r, place);
  }

  lemma {:induction false} StripReads(t: Type, qualifiers: set<Qualifier>)
    ensures var (bare, collected) := Strip(t, qualifiers);
            Qualifying(Read(t), qualifiers) == Qualifying(Read(bare), collected)
  {
    if t.QualifiedBy? {
      StripReads(t.qualified, qualifiers + {t.qualifier});
      QualifyingTwice(Read(t.qualified), {t.qualifier}, qualifiers);
      assert {t.qualifier} + qualifiers == qualifiers + {t.qualifier};
    }
  }

  /** A bare type has no qualifiers of its own. */
  lemma QualifyName(t: Type, qualifiers: set<Qualifier>)
    requires !t.QualifiedBy? && NameOf(Read(t)).CanQualify(qualifiers)
    ensures NameOf(Qualifying(Read(t), qualifiers)) == NameOf(Read(t)).Qualify(qualifiers)
  {
  }

  /** The name that is given to a type is that of its reading. */
  lemma {:induction false} DescribeIsNameOf(t: Type)
    ensures Describe(t) == NameOf(Read(t))
    decreases t
  {
    hide NameOf, Qualifying, Strip, ParameterNames, ListWords, QualifierWords;
    match t
    case Basic(stem) =>
      NameOfBasic(stem);
    case PointerTo(kind, pointee) =>
      DescribeIsNameOf(pointee);
      LastLayer(Read(pointee), PointerLayer(kind, {}));
    case ArrayOf(number, element) =>
      DescribeIsNameOf(element);
      LastLayer(Read(element), ArrayLayer(number));
    case FunctionOf(result, parameters) =>
      DescribeIsNameOf(result);
      var readings := seq(|parameters|, k requires 0 <= k < |parameters| => Read(parameters[k]));
      forall k | 0 <= k < |parameters| ensures Describe(parameters[k]) == NameOf(readings[k]) {
        DescribeIsNameOf(parameters[k]);
      }
      ParameterNamesAreWords(parameters, readings);
      LastLayer(Read(result), FunctionLayer(readings));
    case QualifiedBy(qualifier, under) =>
      var (bare, qualifiers) := Strip(under, {qualifier});
      StripReads(under, {qualifier});
      StripKeepsPrecedence(under, {qualifier});
      DescribeIsNameOf(bare);
      QualifyName(bare, qualifiers);
  }

  lemma NameOfBasic(stem: Stem)
    ensures NameOf(Reading({}, stem, [])) == Plain([Word(stem)])
  {
  }

  lemma LastLayer(r: Reading, layer: Layer)
    ensures NameOf(r).precedence != ATOMIC
    ensures NameOf(r.(layers := r.layers + [layer])) == AddLayer(NameOf(r), layer)
  {
  }

  lemma {:induction false} ParameterNamesAreWords(parameters: seq<Type>, readings: seq<Reading>)
    requires |parameters| == |readings|
    requires forall k :: 0 <= k < |parameters| ==>
               readings[k] == Read(parameters[k]) && Describe(parameters[k]) == NameOf(readings[k])
    ensures ParameterNames(parameters) == ListWords(readings)
    decreases |parameters|
  {
    hide Words, NameOf, Read, Describe, Name.Print;
    if parameters != [] {
      var n := |parameters| - 1;
      NameOfIsWords(readings[n]);
      ParameterNamesAreWords(parameters[..n], readings[..n]);
    }
  }

  // ---- round trip ----

  /** What can follow a type-name. */
  predicate Ends(rest: seq<Lexeme>) {
    rest == [] || rest[0] == Comma || rest[0] == Close
  }

  predicate StartsWithQualifier(words: seq<Lexeme>) {
    words != [] && words[0].QualifierWord?
  }

  ghost predicate RoundTrips(r: Reading) {
    forall rest :: Ends(rest) ==> ParseType(Words(r) + rest) == Some((r, rest))
  }

  ghost predicate AllRoundTrip(readings: seq<Reading>) {
    forall k :: 0 <= k < |readings| ==> RoundTrips(readings[k])
  }

  ghost predicate ParametersRoundTrip(layers: seq<Layer>) {
    forall k :: 0 <= k < |layers| && layers[k].FunctionLayer? ==> AllRoundTrip(layers[k].parameters)
  }

  lemma OneQualifierParsed(q: Qualifier, words: seq<Lexeme>)
    ensures ParseQualifiers([QualifierWord(q)] + words) == (ParseQualifiers(words).0 + {q}, ParseQualifiers(words).1)
  {
  }

  lemma QualifiersParsed(qualifiers: set<Qualifier>, more: seq<Lexeme>)
    requires !StartsWithQualifier(more)
    ensures ParseQualifiers(QualifierWords(qualifiers) + more) == (qualifiers, more)
  {
    hide ParseQualifiers;
    assert ParseQualifiers(more) == ({}, more) by { NoQualifierParsed(more); }
    var r := if RESTRICT in qualifiers then [QualifierWord(RESTRICT)] + more else more;
    var v := if VOLATILE in qualifiers then [QualifierWord(VOLATILE)] + r else r;
    var c := if CONST in qualifiers then [QualifierWord(CONST)] + v else v;
    OneQualifierParsed(RESTRICT, more);
    OneQualifierParsed(VOLATILE, r);
    OneQualifierParsed(CONST, v);
    assert QualifierWords(qualifiers) + more == c;
    var parsed := ParseQualifiers(c);
    forall q ensures q in parsed.0 <==> q in qualifiers {
      match q case CONST => case VOLATILE => case RESTRICT =>
    }
    assert parsed.0 == qualifiers && parsed.1 == more;
  }

  lemma NoQualifierParsed(words: seq<Lexeme>)
    requires !StartsWithQualifier(words)
    ensures ParseQualifiers(words) == ({}, words)
  {
  }

  // ---- lists of parameters ----

  lemma {:induction false} ListFromFront(readings: seq<Reading>)
    requires readings != []
    ensures ListWords(readings) == Words(readings[0]) + if |readings| == 1 then []
              else [Comma] + ListWords(readings[1..])
    decreases |readings|
  {
    hide Words;
    var n := |readings| - 1;
    if n > 0 {
      var first, last := Words(readings[0]), [Comma] + Words(readings[n]);
      ListFromFront(readings[..n]);
      assert readings[1..][..n - 1] == readings[..n][1..];
      assert ListWords(readings) == ListWords(readings[..n]) + last;
      if n > 1 {
        var middle := ListWords(readings[..n][1..]);
        assert ListWords(readings[1..]) == middle + last;
        assert first + ([Comma] + middle) + last == first + ([Comma] + (middle + last));
      }
    }
  }

  lemma {:induction false} ListParsed(readings: seq<Reading>, rest: seq<Lexeme>)
    requires AllRoundTrip(readings) && readings != [] && rest != [] && rest[0] == Close
    ensures ParseMore(ListWords(readings) + rest) == Some((readings, rest))
    decreases |readings|
  {
    hide Words, ParseType, ParseMore, ListWords;
    ListFromFront(readings);
    if |readings| == 1 {
      assert ListWords(readings) + rest == Words(readings[0]) + rest;
      assert readings == [readings[0]];
      LastParsed(readings[0], Words(readings[0]) + rest, rest);
    } else {
      var more := ListWords(readings[1..]) + rest;
      assert ListWords(readings) + rest == Words(readings[0]) + ([Comma] + more);
      ListParsed(readings[1..], rest);
      assert Ends([Comma] + more);
      assert readings == [readings[0]] + readings[1..];
      NextParsed(readings[0], Words(readings[0]) + ([Comma] + more), more);
    }
  }

  lemma LastParsed(t: Reading, words: seq<Lexeme>, rest: seq<Lexeme>)
    requires ParseType(words) == Some((t, rest)) && rest != [] && rest[0] == Close
    ensures ParseMore(words) == Some(([t], rest))
  {
    hide ParseType;
  }

  lemma NextParsed(t: Reading, words: seq<Lexeme>, more: seq<Lexeme>)
    requires ParseType(words) == Some((t, [Comma] + more)) && ParseMore(more).Some?
    ensures ParseMore(words) == Some(([t] + ParseMore(more).value.0, ParseMore(more).value.1))
  {
  }

  lemma ListHead(readings: seq<Reading>)
    ensures readings != [] ==>
              ListWords(readings) != [] && (ListWords(readings)[0].Word? || ListWords(readings)[0].QualifierWord?)
  {
    hide ListWords;
    if readings != [] {
      ListFromFront(readings);
      assert Words(readings[0]) == Declaration(readings[0], []);
    }
  }

  lemma ParametersParsed(readings: seq<Reading>, rest: seq<Lexeme>)
    requires AllRoundTrip(readings) && rest != [] && rest[0] == Close
    ensures ParseList(ListWords(readings) + rest) == Some((readings, rest))
    ensures !StartsWithSign(ListWords(readings) + rest)
  {
    hide ListWords, ParseMore;
    ListHead(readings);
    if readings == [] {
      assert ListWords(readings) + rest == rest by { NoListWords(); }
    } else {
      ListParsed(readings, rest);
      assert (ListWords(readings) + rest)[0] == ListWords(readings)[0];
    }
  }

  lemma NoListWords()
    ensures ListWords([]) == []
  {
  }

  // ---- arrays and functions ----

  predicate AllSuffixes(layers: seq<Layer>) {
    forall k :: 0 <= k < |layers| ==> !layers[k].PointerLayer?
  }

  function SuffixWords(layers: seq<Layer>): seq<Lexeme> {
    if layers == [] then []
    else LayerWords(layers[|layers| - 1]) + SuffixWords(layers[..|layers| - 1])
  }

  lemma {:induction false} SuffixesParsed(layers: seq<Layer>, rest: seq<Lexeme>)
    requires AllSuffixes(layers) && ParametersRoundTrip(layers) && Ends(rest)
    ensures ParseSuffixes(SuffixWords(layers) + rest) == Some((layers, rest))
    ensures ParseDirect(SuffixWords(layers) + rest, []) == Some((layers, rest))
    ensures !StartsWithSign(SuffixWords(layers) + rest) && !StartsWithQualifier(SuffixWords(layers) + rest)
    decreases |layers|
  {
    hide ParseSuffixes, ParseDirect, LayerWords, ParametersRoundTrip;
    if layers == [] {
      NoSuffix(rest);
      assert SuffixWords(layers) + rest == rest;
    } else {
      var n := |layers| - 1;
      var more := SuffixWords(layers[..n]) + rest;
      assert AllSuffixes(layers[..n]);
      FewerRoundTrip(layers, n);
      SuffixesParsed(layers[..n], rest);
      assert layers == layers[..n] + [layers[n]];
      assert SuffixWords(layers) + rest == LayerWords(layers[n]) + more;
      SuffixParsed(layers[n], layers[..n], more, rest);
    }
  }

  lemma NoSuffix(rest: seq<Lexeme>)
    requires Ends(rest)
    ensures ParseSuffixes(rest) == Some(([], rest)) && ParseDirect(rest, []) == Some(([], rest))
    ensures !StartsWithSign(rest) && !StartsWithQualifier(rest)
  {
  }

  lemma FewerRoundTrip(layers: seq<Layer>, n: nat)
    requires ParametersRoundTrip(layers) && n <= |layers|
    ensures ParametersRoundTrip(layers[..n]) && ParametersRoundTrip(layers[n..])
    ensures n < |layers| && layers[n].FunctionLayer? ==> AllRoundTrip(layers[n].parameters)
  {
    hide AllRoundTrip;
  }

  lemma SuffixParsed(layer: Layer, layers: seq<Layer>, more: seq<Lexeme>, rest: seq<Lexeme>)
    requires !layer.PointerLayer? && (layer.FunctionLayer? ==> AllRoundTrip(layer.parameters))
    requires ParseSuffixes(more) == Some((layers, rest))
    ensures ParseSuffixes(LayerWords(layer) + more) == Some((layers + [layer], rest))
    ensures ParseDirect(LayerWords(layer) + more, []) == Some((layers + [layer], rest))
    ensures !StartsWithSign(LayerWords(layer) + more) && !StartsWithQualifier(LayerWords(layer) + more)
  {
    hide ParseList, ListWords, AllRoundTrip, ParseDirect, ParseSuffixes, QualifierWords;
    var words := LayerWords(layer) + more;
    if layer.ArrayLayer? {
      assert words[1..] == more;
      DimensionParsed(words, layers, rest);
    } else {
      var closing := [Close] + more;
      ParametersParsed(layer.parameters, closing);
      assert words[1..] == ListWords(layer.parameters) + closing && closing[1..] == more;
      FunctionParsed(words, layer.parameters, closing, layers, rest);
    }
    SuffixesAreDirect(words);
  }

  lemma DimensionParsed(words: seq<Lexeme>, layers: seq<Layer>, rest: seq<Lexeme>)
    requires words != [] && words[0].Dimension? && ParseSuffixes(words[1..]) == Some((layers, rest))
    ensures ParseSuffixes(words) == Some((layers + [ArrayLayer(words[0].number)], rest))
  {
    hide ParseList;
  }

  lemma FunctionParsed(
      words: seq<Lexeme>, parameters: seq<Reading>, closing: seq<Lexeme>, layers: seq<Layer>, rest: seq<Lexeme>)
    requires words != [] && words[0] == Open && ParseList(words[1..]) == Some((parameters, closing))
    requires closing != [] && closing[0] == Close && ParseSuffixes(closing[1..]) == Some((layers, rest))
    ensures ParseSuffixes(words) == Some((layers + [FunctionLayer(parameters)], rest))
  {
    hide ParseList;
  }

  lemma SuffixesAreDirect(words: seq<Lexeme>)
    requires words != [] && !(words[0] == Open && StartsWithSign(words[1..]))
    ensures ParseDirect(words, []) == ParseSuffixes(words)
  {
  }

  // ---- declarators ----

  /** What can stand at the place of a name. */
  predicate IsPlace(place: seq<Lexeme>) {
    place == [] || (place[0].Word? || place[0].BitSize?)
  }

  lemma PlaceParsed(place: seq<Lexeme>, suffixes: seq<Lexeme>)
    requires IsPlace(place) && !StartsWithSign(suffixes) && !StartsWithQualifier(suffixes)
    requires ParseDirect(suffixes, []) == ParseSuffixes(suffixes)
    ensures ParseDirect(place + suffixes, place) == ParseSuffixes(suffixes)
    ensures !StartsWithSign(place + suffixes) && !StartsWithQualifier(place + suffixes)
  {
    hide ParseSuffixes;
    assert (place + suffixes)[|place|..] == suffixes;
    if place == [] { assert place + suffixes == suffixes; }
  }

  /** Inside a run of arrays and functions, of which those in `outer` have been passed already. */
  lemma {:induction false} DirectParsed(
      layers: seq<Layer>, outer: seq<Layer>, place: seq<Lexeme>, rest: seq<Lexeme>)
    requires AllSuffixes(outer) && ParametersRoundTrip(outer) && ParametersRoundTrip(layers)
    requires Ends(rest) && IsPlace(place)
    ensures var words := Declarator(true, layers, place) + (SuffixWords(outer) + rest);
            && ParseDirect(words, place) == Some((outer + layers, rest))
            && !StartsWithSign(words) && !StartsWithQualifier(words)
    decreases |layers|, 1
  {
    hide ParseDirect, LayerWords, ParametersRoundTrip, SuffixWords;
    var suffixes := SuffixWords(outer) + rest;
    if layers == [] {
      SuffixesParsed(outer, rest);
      PlaceParsed(place, suffixes);
      assert outer + layers == outer;
    } else if layers[0].PointerLayer? {
      var closing := [Close] + suffixes;
      SuffixesParsed(outer, rest);
      DeclaratorParsed(layers, place, closing);
      assert Declarator(true, layers, place) + suffixes == [Open] + (Declarator(false, layers, place) + closing);
      GroupParsed(Declarator(false, layers, place) + closing, place, layers, outer, suffixes, rest);
    } else {
      var more := outer + [layers[0]];
      assert more[..|outer|] == outer;
      MoreRoundTrip(outer, layers);
      DirectParsed(layers[1..], more, place, rest);
      assert SuffixWords(more) == LayerWords(layers[0]) + SuffixWords(outer) by { OneMoreSuffix(outer, layers[0]); }
      assert Declarator(true, layers, place) + suffixes
          == Declarator(true, layers[1..], place) + (SuffixWords(more) + rest);
      assert more + layers[1..] == outer + layers;
    }
  }

  lemma OneMoreSuffix(layers: seq<Layer>, layer: Layer)
    ensures SuffixWords(layers + [layer]) == LayerWords(layer) + SuffixWords(layers)
  {
  }

  lemma MoreRoundTrip(outer: seq<Layer>, layers: seq<Layer>)
    requires ParametersRoundTrip(outer) && ParametersRoundTrip(layers) && layers != []
    ensures ParametersRoundTrip(outer + [layers[0]]) && ParametersRoundTrip([layers[0]])
    ensures ParametersRoundTrip(layers[1..])
  {
    hide AllRoundTrip;
  }

  lemma GroupParsed(
      inside: seq<Lexeme>, place: seq<Lexeme>, layers: seq<Layer>, outer: seq<Layer>, suffixes: seq<Lexeme>,
      rest: seq<Lexeme>)
    requires StartsWithSign(inside) && ParseDeclarator(inside, place) == Some((layers, [Close] + suffixes))
    requires ParseSuffixes(suffixes) == Some((outer, rest))
    ensures ParseDirect([Open] + inside, place) == Some((outer + layers, rest))
  {
  }

  lemma {:induction false} DeclaratorParsed(layers: seq<Layer>, place: seq<Lexeme>, rest: seq<Lexeme>)
    requires ParametersRoundTrip(layers) && Ends(rest) && IsPlace(place)
    ensures var words := Declarator(false, layers, place) + rest;
            && ParseDeclarator(words, place) == Some((layers, rest))
            && !StartsWithQualifier(words)
            && (layers != [] && layers[0].PointerLayer? ==> StartsWithSign(words))
    decreases |layers|, 0
  {
    hide ParseDeclarator, LayerWords, ParametersRoundTrip, SuffixWords;
    if layers == [] {
      NoSuffix(rest);
      PlaceParsed(place, rest);
      DirectIsDeclarator(place + rest, place);
    } else if layers[0].PointerLayer? {
      var more := Declarator(false, layers[1..], place) + rest;
      MoreRoundTrip([], layers) by { NoParameters(); }
      DeclaratorParsed(layers[1..], place, rest);
      assert Declarator(false, layers, place) + rest == LayerWords(layers[0]) + more;
      PointerParsed(layers[0], more, place);
      assert layers == [layers[0]] + layers[1..];
    } else {
      MoreRoundTrip([], layers) by { NoParameters(); }
      DirectParsed(layers[1..], [layers[0]], place, rest);
      OneSuffix(layers[0]);
      assert Declarator(false, layers, place) + rest
          == Declarator(true, layers[1..], place) + (SuffixWords([layers[0]]) + rest);
      DirectIsDeclarator(Declarator(false, layers, place) + rest, place);
      assert layers == [layers[0]] + layers[1..];
    }
  }

  lemma NoParameters()
    ensures ParametersRoundTrip([])
  {
  }

  lemma OneSuffix(layer: Layer)
    ensures SuffixWords([layer]) == LayerWords(layer)
  {
  }

  lemma DirectIsDeclarator(words: seq<Lexeme>, place: seq<Lexeme>)
    requires !StartsWithSign(words)
    ensures ParseDeclarator(words, place) == ParseDirect(words, place)
  {
  }

  lemma PointerParsed(layer: Layer, more: seq<Lexeme>, place: seq<Lexeme>)
    requires layer.PointerLayer? && !StartsWithQualifier(more) && ParseDeclarator(more, place).Some?
    ensures var words := LayerWords(layer) + more;
            && StartsWithSign(words) && !StartsWithQualifier(words)
            && ParseDeclarator(words, place)
               == Some(([layer] + ParseDeclarator(more, place).value.0, ParseDeclarator(more, place).value.1))
  {
    hide ParseDirect, QualifierWords, ParseDeclarator, ParseQualifiers;
    QualifiersParsed(layer.qualifiers, more);
    assert LayerWords(layer) + more == [Sign(layer.kind)] + (QualifierWords(layer.qualifiers) + more);
    SignParsed(layer, QualifierWords(layer.qualifiers) + more, more, place);
  }

  lemma SignParsed(layer: Layer, words: seq<Lexeme>, more: seq<Lexeme>, place: seq<Lexeme>)
    requires layer.PointerLayer? && ParseQualifiers(words) == (layer.qualifiers, more)
    requires ParseDeclarator(more, place).Some?
    ensures ParseDeclarator([Sign(layer.kind)] + words, place) ==
            Some(([layer] + ParseDeclarator(more, place).value.0, ParseDeclarator(more, place).value.1))
  {
  }

  /** A name is read as the reading it was made from. */
  lemma {:induction false} ReadingRoundTrips(r: Reading)
    ensures RoundTrips(r)
    decreases r, 1
  {
    ParametersAreRead(r);
    forall rest | Ends(rest) ensures ParseType(Words(r) + rest) == Some((r, rest)) {
      WordsParsed(r, rest);
    }
  }

  lemma {:induction false} ParametersAreRead(r: Reading)
    ensures ParametersRoundTrip(r.layers)
    decreases r, 0
  {
    forall k | 0 <= k < |r.layers| && r.layers[k].FunctionLayer? ensures AllRoundTrip(r.layers[k].parameters) {
      forall m | 0 <= m < |r.layers[k].parameters| ensures RoundTrips(r.layers[k].parameters[m]) {
        ReadingRoundTrips(r.layers[k].parameters[m]);
      }
    }
  }

  lemma WordsParsed(r: Reading, rest: seq<Lexeme>)
    requires ParametersRoundTrip(r.layers) && Ends(rest)
    ensures ParseType(Words(r) + rest) == Some((r, rest))
  {
    hide Declaration, ParametersRoundTrip, ParseDeclaration;
    DeclarationParsed(r, [], rest);
  }

  lemma DeclarationParsed(r: Reading, place: seq<Lexeme>, rest: seq<Lexeme>)
    requires ParametersRoundTrip(r.layers) && IsPlace(place) && Ends(rest)
    ensures ParseDeclaration(Declaration(r, place) + rest, place) == Some((r, rest))
  {
    hide QualifierWords, Declarator, ParseDeclarator, ParseQualifiers, ParametersRoundTrip;
    var more := [Word(r.stem)] + (Declarator(false, r.layers, place) + rest);
    QualifiersParsed(r.qualifiers, more);
    DeclaratorParsed(r.layers, place, rest);
    assert Declaration(r, place) + rest == QualifierWords(r.qualifiers) + more;
    assert more[1..] == Declarator(false, r.layers, place) + rest;
  }

  /** Parsing the name of a type recovers the type, with chains of qualifiers merged, and dropped on arrays
      and functions. */
  lemma DescribeParses(t: Type)
    ensures ParseType(Describe(t).Print()) == Some((Read(t), []))
  {
    DescribeIsNameOf(t);
    NameOfIsWords(Read(t));
    ReadingRoundTrips(Read(t));
    assert Words(Read(t)) + [] == Words(Read(t));
  }

  /** A declaration of something with this type is read as the type, with the declared name at its place. */
  lemma DeclarationParses(t: Type, place: seq<Lexeme>)
    requires IsPlace(place)
    ensures ParseDeclaration(Describe(t).left + place + Describe(t).right, place) == Some((Read(t), []))
  {
    var r := Read(t);
    DescribeIsNameOf(t);
    NameOfSurrounds(r, place);
    ParametersAreRead(r);
    DeclarationParsed(r, place, []);
    assert Declaration(r, place) + [] == Declaration(r, place);
  }

  /** Types have the same name exactly if they are the same up to that. */
  lemma NamesAreUnambiguous(t: Type, u: Type)
    ensures Describe(t).Print() == Describe(u).Print() <==> Read(t) == Read(u)
  {
    DescribeParses(t);
    DescribeParses(u);
    DescribeIsNameOf(t);
    DescribeIsNameOf(u);
  }
}

/** Names of types (stg.h, stg.cc), built up around the place where a declared name would stand. White
    space does not matter here: a name is a sequence of lexemes on either side of that place. */
module Names {
  import opened Graph

  datatype Precedence = NIL | INDIRECTION | ARRAY_FUNCTION | ATOMIC
  datatype Side = LEFT | RIGHT

  /** What a type with a name of its own is called. */
  datatype Stem = Text(text: string) | Tag(kind: StructKind, name: string) | EnumTag(name: string)

  datatype Lexeme =
    | Word(stem: Stem)
    | QualifierWord(qualifier: Qualifier)
    | Sign(kind: PointerKind)
    | Dimension(number: nat)
    | Open
    | Close
    | Comma
    | KindWord(StructKind)
    | EnumWord
    | OpenBrace
    | CloseBrace
    | Semicolon
    | Enumerator(name: string, value: int)
    | BitSize(nat)
    | Hole

  function Strength(precedence: Precedence): nat {
    match precedence
    case NIL => 0
    case INDIRECTION => 1
    case ARRAY_FUNCTION => 2
    case ATOMIC => 3
  }

  /** Qualifiers in the order of std::set iteration. */
  function QualifierWords(qualifiers: set<Qualifier>): seq<Lexeme> {
    (if CONST in qualifiers then [QualifierWord(CONST)] else [])
    + (if VOLATILE in qualifiers then [QualifierWord(VOLATILE)] else [])
    + (if RESTRICT in qualifiers then [QualifierWord(RESTRICT)] else [])
  }

  datatype Name = Name(left: seq<Lexeme>, precedence: Precedence, right: seq<Lexeme>) {
    function Add(side: Side, precedence: Precedence, text: seq<Lexeme>): Name {
      var bracket := Strength(precedence) < Strength(this.precedence);
      Name(left + (if bracket then [Open] else []) + (if side == LEFT then text else []),
           precedence,
           (if side == RIGHT then text else []) + (if bracket then [Close] else []) + right)
    }

    /** Only the stem of a type and pointers take qualifiers. */
    predicate CanQualify(qualifiers: set<Qualifier>) {
      qualifiers == {} || precedence == NIL || precedence == INDIRECTION
    }

    function Qualify(qualifiers: set<Qualifier>): Name
      requires CanQualify(qualifiers)
    {
      if qualifiers == {} then this
      // const int, but int* const
      else if precedence == NIL then this.(left := QualifierWords(qualifiers) + left)
      else this.(left := left + QualifierWords(qualifiers))
    }

    function Print(): seq<Lexeme> {
      left + right
    }
  }

  function Plain(text: seq<Lexeme>): Name {
    Name(text, NIL, [])
  }
}

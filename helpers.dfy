/**
 * The macro helpers: the type descriptor `DecodedType`, its printed form,
 * the small slice of Swift syntax the macros inspect, and the string
 * trimming used on raw types.
 */
module Helpers {
  import opened Wrappers

  /** `DecodedType`: the closed recursive type that drives both code generators. */
  datatype DecodedType =
    | Scalar(name: string)
    | ArrayOf(element: DecodedType)
    | Dictionary(key: DecodedType, value: DecodedType)
    | Optional(wrapped: DecodedType)

  /** `DecodedType.description`: the Swift spelling of the type. */
  function Description(t: DecodedType): string {
    match t
    case Scalar(name) => name
    case ArrayOf(element) => "[" + Description(element) + "]"
    case Dictionary(key, value) => "[" + Description(key) + ": " + Description(value) + "]"
    case Optional(wrapped) =>
      match wrapped
      case Scalar(name) => name + "?"
      case _ => Description(wrapped) + "?"
  }

  /** The printed form of the collections and of an optional (both optional branches agree). */
  lemma DescriptionForms(t: DecodedType)
    ensures Description(Optional(t)) == Description(t) + "?"
    ensures Description(ArrayOf(t)) == "[" + Description(t) + "]"
    ensures t.Scalar? ==> Description(t) == t.name
  {
  }

  /** The scalar names the generated code handles itself; any other name is a nested type. */
  predicate IsBuiltin(name: string) {
    name == "Bool" || name == "Int" || name == "Double" || name == "String"
  }

  /**
   * A type whose description is a builtin scalar name is that scalar: the
   * encoder's dispatch on `description` never mistakes a collection or an
   * optional for a builtin.
   */
  lemma {:induction false} BuiltinDescriptionIsScalar(t: DecodedType)
    requires IsBuiltin(Description(t))
    ensures t == Scalar(Description(t))
  {
    DescriptionDelimiters(t);
  }

  /** Collections print with a leading bracket, optionals with a trailing question mark. */
  lemma DescriptionDelimiters(t: DecodedType)
    ensures t.ArrayOf? || t.Dictionary? ==> |Description(t)| > 0 && Description(t)[0] == '['
    ensures t.Optional? ==> |Description(t)| > 0 && Description(t)[|Description(t)| - 1] == '?'
  {
  }

  /** The Swift type syntax the macros look at (`TypeSyntaxEnum`), with its source text. */
  datatype TypeSyntax =
    | IdentifierType(name: string)
    | MemberType(text: string)
    | ArrayType(element: TypeSyntax)
    | DictionaryType(key: TypeSyntax, value: TypeSyntax)
    | OptionalType(wrapped: TypeSyntax)
    | OtherType(text: string)

  /** `TypeSyntax.decodedType`: collections and optionals structurally, anything else a scalar. */
  function DecodedTypeOf(ts: TypeSyntax): (t: DecodedType)
    ensures t.Optional? <==> ts.OptionalType?
    ensures t.ArrayOf? <==> ts.ArrayType?
    ensures t.Dictionary? <==> ts.DictionaryType?
    ensures ts.IdentifierType? ==> t == Scalar(ts.name)
    ensures ts.MemberType? || ts.OtherType? ==> t == Scalar(ts.text)
  {
    match ts
    case IdentifierType(name) => Scalar(name)
    case MemberType(text) => Scalar(text)
    case ArrayType(element) => ArrayOf(DecodedTypeOf(element))
    case DictionaryType(key, value) => Dictionary(DecodedTypeOf(key), DecodedTypeOf(value))
    case OptionalType(wrapped) => Optional(DecodedTypeOf(wrapped))
    case OtherType(text) => Scalar(text)
  }

  /** `TypeSyntax.isOptional`: only the top level is looked at. */
  function IsOptional(ts: TypeSyntax): bool {
    ts.OptionalType?
  }

  /** `isOptional` agrees with the top of the decoded type, and the translation is structural. */
  lemma {:induction false} DecodedTypeStructural(ts: TypeSyntax)
    ensures IsOptional(ts) <==> DecodedTypeOf(ts).Optional?
    ensures ts.ArrayType? ==> DecodedTypeOf(ts) == ArrayOf(DecodedTypeOf(ts.element))
    ensures ts.DictionaryType? ==> DecodedTypeOf(ts) == Dictionary(DecodedTypeOf(ts.key), DecodedTypeOf(ts.value))
    ensures ts.OptionalType? ==> DecodedTypeOf(ts) == Optional(DecodedTypeOf(ts.wrapped))
  {
  }

  /** An enum case parameter: its optional label and its type. */
  datatype EnumParam = EnumParam(firstName: Option<string>, ty: TypeSyntax)

  /** One element of a `case` declaration; `parameterClause` is `None` when it has no parentheses. */
  datatype CaseElement = CaseElement(name: string, parameterClause: Option<seq<EnumParam>>)

  /** A `case` declaration, which may declare several elements. */
  datatype EnumCaseDecl = EnumCaseDecl(elements: seq<CaseElement>)

  /** A pattern binding of a `var`/`let`: identifier (if the pattern is one), annotation, initializer. */
  datatype Binding = Binding(identifier: Option<string>, typeAnnotation: Option<TypeSyntax>, hasInitializer: bool)

  /** A member of a declaration's member block. */
  datatype MemberDecl =
    | CaseMember(caseDecl: EnumCaseDecl)
    | VariableMember(bindings: seq<Binding>)
    | OtherMember

  /** A raw value of an enum case. */
  datatype RawValue = RawInt(i: int) | RawString(s: string)

  /** A case with its raw value, as the compiler-synthesised `init(rawValue:)` knows it. */
  datatype RawCase = RawCase(caseName: string, raw: RawValue)

  /**
   * A declaration the macro is attached to.  `inherited` holds the source
   * text (with trailing trivia) of each type in the inheritance clause,
   * empty when there is no clause.
   */
  datatype Decl =
    | StructDecl(name: string, members: seq<MemberDecl>)
    | EnumDecl(name: string, inherited: seq<string>, members: seq<MemberDecl>, rawCases: seq<RawCase>)
    | OtherDecl

  /** `EnumDeclSyntax.cases`: the case declarations among the members. */
  function Cases(members: seq<MemberDecl>): (r: seq<EnumCaseDecl>)
    ensures |r| <= |members|
    ensures forall c :: c in r <==> CaseMember(c) in members
  {
    if members == [] then []
    else
      var rest := Cases(members[1..]);
      if members[0].CaseMember? then [members[0].caseDecl] + rest else rest
  }

  /** `cases` keeps declaration order: it distributes over concatenation of member lists. */
  lemma {:induction false} CasesKeepOrder(a: seq<MemberDecl>, b: seq<MemberDecl>)
    ensures Cases(a + b) == Cases(a) + Cases(b)
  {
    if a == [] {
      assert a + b == b;
    } else {
      assert (a + b)[1..] == a[1..] + b;
      CasesKeepOrder(a[1..], b);
    }
  }

  /** Whether some element of a case declaration has a parameter clause. */
  predicate CaseHasParameters(c: EnumCaseDecl) {
    exists j :: 0 <= j < |c.elements| && c.elements[j].parameterClause.Some?
  }

  /** `hasAssociatedValues`: exactly when some case member declares an element with parentheses. */
  function HasAssociatedValues(members: seq<MemberDecl>): (b: bool)
    ensures b <==> exists c :: CaseMember(c) in members && CaseHasParameters(c)
  {
    exists c :: c in Cases(members) && CaseHasParameters(c)
  }

  /** The string with every trailing space removed. */
  function TrimTrailing(s: string): string {
    if s != [] && s[|s| - 1] == ' ' then TrimTrailing(s[..|s| - 1]) else s
  }

  /** The trimmed string is a prefix, does not end in a space, and only spaces were removed. */
  lemma {:induction false} TrimTrailingSpec(s: string)
    ensures var r := TrimTrailing(s);
      && r <= s
      && (r == [] || r[|r| - 1] != ' ')
      && forall i :: |r| <= i < |s| ==> s[i] == ' '
  {
    if s != [] && s[|s| - 1] == ' ' {
      TrimTrailingSpec(s[..|s| - 1]);
    }
  }

  /** Trimming is idempotent. */
  lemma TrimTrailingIdempotent(s: string)
    ensures TrimTrailing(TrimTrailing(s)) == TrimTrailing(s)
  {
    TrimTrailingSpec(s);
  }

  /** Trimming ignores how many spaces follow. */
  lemma {:induction false} TrimTrailingSpaces(s: string, n: nat)
    ensures TrimTrailing(s + seq(n, _ => ' ')) == TrimTrailing(s)
  {
    if n > 0 {
      var t := s + seq(n, _ => ' ');
      assert t[..|t| - 1] == s + seq(n - 1, _ => ' ');
      assert t != [] && t[|t| - 1] == ' ';
      TrimTrailingSpaces(s, n - 1);
    } else {
      assert s + seq(n, _ => ' ') == s;
    }
  }

  /** `String.trimmingTrailingWhitespaces`: drops the last character while it is a space. */
  method TrimmingTrailingWhitespaces(s: string) returns (copy: string)
    ensures copy == TrimTrailing(s)
    ensures copy <= s && (copy == [] || copy[|copy| - 1] != ' ')
    ensures forall i :: |copy| <= i < |s| ==> s[i] == ' '
  {
    copy := s;
    while copy != [] && copy[|copy| - 1] == ' '
      invariant copy <= s
      invariant TrimTrailing(copy) == TrimTrailing(s)
      invariant forall i :: |copy| <= i < |s| ==> s[i] == ' '
      decreases |copy|
    {
      copy := copy[..|copy| - 1];
    }
    TrimTrailingSpec(s);
  }

  /** Decimal digits of a natural number, as Swift string interpolation prints it. */
  function NatToString(n: nat): string
    decreases n
  {
    var digit := ["0", "1", "2", "3", "4", "5", "6", "7", "8", "9"][n % 10];
    if n < 10 then digit else NatToString(n / 10) + digit
  }

  /** Decimal form of an integer, with a leading minus sign when negative. */
  function IntToString(i: int): string {
    if i < 0 then "-" + NatToString(-i) else NatToString(i)
  }
}

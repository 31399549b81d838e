/**
 * The registered macro `SWONMacro` (the older decoder).  Its `mapItem` is
 * the same interpreter as `Decoding.DecodeItem`; its `expansion` differs:
 * enums must have a raw type, associated values are not handled, and the
 * raw type is compared as written, trailing trivia included.
 */
module Legacy {
  import opened Wrappers
  import opened SwonC
  import opened Swon
  import opened Helpers
  import opened Typed
  import opened Decoding

  /**
   * `SWONMacro.expansion` as written: an enum without an inheritance
   * clause is rejected, an unsupported raw type emits no assignments.
   */
  function LegacyExpansion(decl: Decl): (r: Result<DecodePlan, string>)
    ensures r.Success? ==> PlanKeysAreStrings(r.value)
    ensures decl.EnumDecl? && decl.inherited == [] ==> r == Failure("Enumeration must inherit a raw type")
    ensures r.Success? && r.value.CasesPlan? ==> false
  {
    match decl
    case OtherDecl => Failure("@SWON can only be applied to a struct or enum")
    case EnumDecl(name, inherited, members, rawCases) =>
      if inherited == [] then Failure("Enumeration must inherit a raw type")
      else
        var rawType := inherited[0];
        if rawType == "String" then Success(RawPlan(name, StringRaw, rawCases))
        else if rawType == "Int" then Success(RawPlan(name, IntRaw, rawCases))
        else Success(NoAssignments)
    case StructDecl(name, members) =>
      var fields := FieldPlans(members);
      if forall f :: f in fields ==> KeysAreStrings(f.ty) then Success(FieldsPlan(name, fields))
      else Failure("Expected string keys")
  }

  /** Both macros generate the same struct initialiser. */
  lemma LegacyStructsAgree(name: string, members: seq<MemberDecl>)
    ensures LegacyExpansion(StructDecl(name, members)) == Expansion(StructDecl(name, members))
    ensures LegacyExpansion(StructDecl(name, members)).Success? ==>
              LegacyExpansion(StructDecl(name, members)).value.FieldsPlan?
  {
  }

  /**
   * The raw type is compared untrimmed: `enum E: Int {` spells its raw type
   * "Int " (the space before the brace is trailing trivia), so the
   * registered macro emits no assignments, where the trimming expansion
   * emits the integer initialiser.
   */
  lemma UntrimmedRawTypeEmitsNothing(name: string, members: seq<MemberDecl>, rawCases: seq<RawCase>)
    requires !HasAssociatedValues(members)
    ensures LegacyExpansion(EnumDecl(name, ["Int "], members, rawCases)) == Success(NoAssignments)
    ensures Expansion(EnumDecl(name, ["Int "], members, rawCases)) == Success(RawPlan(name, IntRaw, rawCases))
  {
    assert TrimTrailing("Int ") == "Int" by {
      assert "Int "[..3] == "Int";
    }
  }

  /**
   * With the raw type spelled exactly, the two macros agree on raw-value
   * enums; `UInt` is only supported by the newer one.
   */
  lemma LegacyRawTypes(name: string, members: seq<MemberDecl>, rawCases: seq<RawCase>, rawType: string)
    requires !HasAssociatedValues(members)
    requires rawType == "String" || rawType == "Int"
    ensures LegacyExpansion(EnumDecl(name, [rawType], members, rawCases)) == Expansion(EnumDecl(name, [rawType], members, rawCases))
    ensures LegacyExpansion(EnumDecl(name, ["UInt"], members, rawCases)) == Success(NoAssignments)
    ensures Expansion(EnumDecl(name, ["UInt"], members, rawCases)) == Success(RawPlan(name, UIntRaw, rawCases))
  {
    assert TrimTrailing(rawType) == rawType;
    assert TrimTrailing("UInt") == "UInt";
  }

  /**
   * The `mapItem` both macros share: builtin scalars map Valid / Null /
   * other to value / (`nil` or `required`) / `invalid`, an array node is
   * decoded element by element in order under `field[]`.
   */
  lemma SharedMapItem(c: Codec, name: string, element: DecodedType, v: Value, field: string)
    requires IsBuiltin(name) && KeysAreStrings(element)
    ensures v.Null? ==> DecodeItem(c, Scalar(name), v, field, false) == Failure(Required(field))
    ensures v.Null? ==> DecodeItem(c, Optional(Scalar(name)), v, field, false) == Success(TNil)
    ensures !v.Null? && !KindMatches(name, v) ==> DecodeItem(c, Scalar(name), v, field, true) == Failure(Invalid(field))
    ensures v.Array? && DecodeItem(c, ArrayOf(element), v, field, false).Success? ==>
              var list := DecodeItem(c, ArrayOf(element), v, field, false).value.items;
              |list| == |v.items| &&
              forall j :: 0 <= j < |list| ==> DecodeItem(c, element, v.items[j], field + "[]", false) == Success(list[j])
  {
    ScalarDecoding(c, name, v, field, false);
    ScalarDecoding(c, name, v, field, true);
    ArrayDecoding(c, element, v, field, false);
  }
}

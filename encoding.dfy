/**
 * The encoder the macros generate (`SWONEncodeMacro`): `mapItem` as one
 * recursive interpreter that builds a node tree from a typed value, the
 * loops it emits, the `toSWON()` bodies `expansion` emits for structs and
 * raw-value enums, and the statement structure `mapItem` produces.
 */
module Encoding {
  import opened Wrappers
  import opened SwonC
  import opened Swon
  import opened Helpers
  import opened Typed
  import opened Decoding

  /**
   * The node constructors (`swon_create_bool/number/string/array/object`)
   * and `swon_array_add_item` / `swon_object_add_item`: each may fail
   * (allocation), and `create` / `add` say which calls succeed.  `add`
   * sees the container, the key (none for an array) and the item.
   */
  datatype Builder = Builder(create: Value -> bool, add: (Value, Option<string>, Value) -> bool)

  /**
   * The message generation stops with for `t`, if any: a collection of
   * optionals, or a dictionary whose key is not `String`.  Found in the
   * order `mapItem` meets them.
   */
  function EncodeFatal(t: DecodedType): (r: Option<string>)
    ensures r.Some? ==> r.value == "Collection of optionals is not supported" || r.value == "Expected string keys"
  {
    match t
    case Scalar(_) => None
    case Optional(w) => EncodeFatal(w)
    case ArrayOf(e) =>
      if e.Optional? then Some("Collection of optionals is not supported") else EncodeFatal(e)
    case Dictionary(k, v) =>
      if k != Scalar("String") then Some("Expected string keys")
      else if v.Optional? then Some("Collection of optionals is not supported")
      else EncodeFatal(v)
  }

  /** `mapItem` generates code for `t`. */
  predicate Supported(t: DecodedType) {
    EncodeFatal(t).None?
  }

  /** Whatever the encoder supports, the decoder supports too; no collection in it holds optionals. */
  lemma SupportedTypes(t: DecodedType)
    ensures Supported(t) ==> KeysAreStrings(t)
    ensures Supported(t) && t.ArrayOf? ==> !t.element.Optional? && Supported(t.element)
    ensures Supported(t) && t.Dictionary? ==> t.key == Scalar("String") && !t.value.Optional? && Supported(t.value)
    ensures Supported(Optional(t)) <==> Supported(t)
  {
  }

  /** The name `mapItem` gives the loop variable at depth `nesting`. */
  function ElementName(nesting: nat): string {
    "element" + NatToString(nesting)
  }

  /** A builtin scalar node: the guarded `swon_create_*` of `DecodedType.statements`. */
  function CreateItem(b: Builder, node: Value, itemName: string): (r: Result<Value, SwonError>)
    ensures b.create(node) <==> r == Success(node)
    ensures !b.create(node) ==> r == Failure(Invalid("Unable to create item (" + itemName + ")"))
  {
    if b.create(node) then Success(node) else Failure(Invalid("Unable to create item (" + itemName + ")"))
  }

  /**
   * `DecodedType.statements`: Bool, Int, Double and String become a bool,
   * number, number and string node; any other type its own `toSWON()`.
   */
  function EncodeScalar(b: Builder, c: Codec, name: string, x: TValue, itemName: string): Result<Value, SwonError>
    requires HasType(x, Scalar(name))
  {
    if name == "Bool" then CreateItem(b, Bool(x.b), itemName)
    else if name == "Int" then CreateItem(b, Number(x.i), itemName)
    else if name == "Double" then CreateItem(b, Number(x.d), itemName)
    else if name == "String" then CreateItem(b, Str(x.s), itemName)
    else c.encode(name, x)
  }

  /**
   * The node `mapItem` builds for `varName` (before it is attached): a
   * scalar item, or an array / object filled by the emitted loop.  A
   * nested element is named `element<nesting>` one level deeper.
   */
  function EncodeNode(b: Builder, c: Codec, t: DecodedType, x: TValue, varName: string, parentName: string, nesting: nat)
    : Result<Value, SwonError>
    requires Supported(t) && !t.Optional? && HasType(x, t)
    decreases t, 1
  {
    match t
    case Scalar(name) => EncodeScalar(b, c, name, x, varName + "JSON")
    case ArrayOf(e) =>
      if !b.create(Array([])) then Failure(Invalid("Unable to create array in " + parentName + " (" + varName + "JSON)"))
      else
        var items :- EncodeElements(b, c, e, x.items, varName, parentName, nesting, []);
        Success(Array(items))
    case Dictionary(_, v) =>
      if !b.create(Object([])) then Failure(Invalid("Unable to create object in " + parentName))
      else
        var members :- EncodeMembers(b, c, v, x.entries, varName, parentName, nesting, []);
        Success(Object(members))
  }

  /**
   * The emitted `for element in v` loop over an array: build each item and
   * append it with `swon_array_add_item`; the first error aborts (and the
   * partial array is freed).
   */
  function EncodeElements(b: Builder, c: Codec, e: DecodedType, items: seq<TValue>, varName: string, parentName: string,
                          nesting: nat, acc: seq<Value>): Result<seq<Value>, SwonError>
    requires Supported(e) && !e.Optional? && forall i :: 0 <= i < |items| ==> HasType(items[i], e)
    decreases e, 2, |items|
  {
    if items == [] then Success(acc)
    else
      var item :- EncodeNode(b, c, e, items[0], ElementName(nesting), parentName, nesting + 1);
      if !b.add(Array(acc), None, item) then Failure(Invalid("Unable to add item to " + varName + "JSON"))
      else EncodeElements(b, c, e, items[1..], varName, parentName, nesting, acc + [item])
  }

  /**
   * The emitted `for element in v` loop over a dictionary: build each
   * value and add it under its key with `swon_object_add_item`.
   */
  function EncodeMembers(b: Builder, c: Codec, v: DecodedType, entries: seq<Entry>, varName: string, parentName: string,
                         nesting: nat, acc: seq<Member>): Result<seq<Member>, SwonError>
    requires Supported(v) && !v.Optional? && forall i :: 0 <= i < |entries| ==> HasType(entries[i].value, v)
    decreases v, 2, |entries|
  {
    if entries == [] then Success(acc)
    else
      var key := entries[0].key;
      var item :- EncodeNode(b, c, v, entries[0].value, ElementName(nesting), parentName, nesting + 1);
      if !b.add(Object(acc), Some(key), item) then Failure(Invalid("Unable to set item in " + varName + "JSON[" + key + "]"))
      else EncodeMembers(b, c, v, entries[1..], varName, parentName, nesting, acc + [Member(key, item)])
  }

  /** The error thrown when attaching `varName`'s node to its parent fails. */
  function AttachFailure(t: DecodedType, varName: string, parentName: string): string {
    match t
    case ArrayOf(_) => "Unable to set array in " + parentName + "[" + varName + "] (" + varName + "JSON)"
    case Dictionary(_, _) => "Unable to set dictionary in " + parentName + "[" + varName + "] (" + varName + "JSON)"
    case _ => "Unable to add scalar to object in " + parentName + " (" + varName + "JSON)"
  }

  /**
   * `mapItem` for a struct field: `optional(t)` is `t` under `if let`, a
   * `nil` adds nothing, otherwise the node is built and added to the
   * parent object under the field name.
   */
  function EncodeField(b: Builder, c: Codec, t: DecodedType, x: TValue, varName: string, parentName: string,
                       isOptional: bool, parent: Value): (r: Result<Value, SwonError>)
    requires parent.Object? && Supported(t) && ((isOptional && x.TNil?) || HasType(x, t))
    ensures r.Success? ==> r.value.Object? && |parent.members| <= |r.value.members| <= |parent.members| + 1
    ensures r.Success? ==> r.value.Object? && r.value.members[..|parent.members|] == parent.members
    ensures r.Success? && |r.value.members| > |parent.members| ==> r.value.members[|parent.members|].key == varName
    decreases t
  {
    match t
    case Optional(w) => EncodeField(b, c, w, x, varName, parentName, true, parent)
    case _ =>
      if isOptional && x.TNil? then Success(parent)
      else
        var node :- EncodeNode(b, c, t, x, varName, parentName, 0);
        if b.add(parent, Some(varName), node) then Success(Object(parent.members + [Member(varName, node)]))
        else Failure(Invalid(AttachFailure(t, varName, parentName)))
  }

  /** `x` is a value of the struct whose fields are `fields`, in declaration order. */
  predicate StructValue(x: TValue, typeName: string, fields: seq<FieldPlan>) {
    && x.TNested? && x.typeName == typeName && |x.fields| == |fields|
    && forall i :: 0 <= i < |fields| ==>
         x.fields[i].key == fields[i].name && Supported(fields[i].ty) && HasType(x.fields[i].value, fields[i].ty)
  }

  /** The field statements of `toSWON()`, in declaration order, each into `root`. */
  function EncodeFields(b: Builder, c: Codec, fields: seq<FieldPlan>, values: seq<Entry>, root: Value)
    : Result<Value, SwonError>
    requires root.Object? && |values| == |fields|
    requires forall i :: 0 <= i < |fields| ==> Supported(fields[i].ty) && HasType(values[i].value, fields[i].ty)
  {
    if fields == [] then Success(root)
    else
      var root' :- EncodeField(b, c, fields[0].ty, values[0].value, fields[0].name, "root", fields[0].optional, root);
      EncodeFields(b, c, fields[1..], values[1..], root')
  }

  /** A struct's `toSWON()`: create the root object, then the fields; an error drops (frees) the root. */
  function EncodeStruct(b: Builder, c: Codec, typeName: string, fields: seq<FieldPlan>, x: TValue): Result<Value, SwonError>
    requires StructValue(x, typeName, fields)
  {
    if !b.create(Object([])) then Failure(Invalid("Unable to create root"))
    else EncodeFields(b, c, fields, x.fields, Object([]))
  }

  /** The raw value of case `caseName` (Swift's synthesised `rawValue`). */
  function RawOf(table: seq<RawCase>, caseName: string): (r: Option<RawValue>)
    ensures r.Some? ==> exists i :: 0 <= i < |table| && table[i] == RawCase(caseName, r.value)
    ensures r.None? ==> forall i :: 0 <= i < |table| ==> table[i].caseName != caseName
  {
    if table == [] then None
    else if table[0].caseName == caseName then Some(table[0].raw)
    else
      assert forall i :: 1 <= i < |table| ==> table[i] == table[1..][i - 1];
      RawOf(table[1..], caseName)
  }

  /** Every raw value has the enum's raw type (a `UInt` literal is never negative). */
  predicate RawsOfKind(table: seq<RawCase>, kind: RawKind) {
    forall i :: 0 <= i < |table| ==>
      (kind == StringRaw <==> table[i].raw.RawString?) &&
      (kind == UIntRaw && table[i].raw.RawInt? ==> table[i].raw.i >= 0)
  }

  /**
   * A raw-value enum's `toSWON()`: the root object is created first (and
   * not used), then a string or number node holding the raw value.
   */
  function EncodeRaw(b: Builder, typeName: string, kind: RawKind, table: seq<RawCase>, x: TValue): (r: Result<Value, SwonError>)
    requires x.TCase? && RawOf(table, x.caseName).Some? && RawsOfKind(table, kind)
    ensures r.Success? ==> (kind == StringRaw <==> r.value.Str?) && (kind != StringRaw <==> r.value.Number?)
    ensures r.Failure? ==> r.error in {Invalid("Unable to create root"), Invalid(typeName + "(String)"), Invalid(typeName + "(Int)")}
  {
    var raw := RawOf(table, x.caseName).value;
    if !b.create(Object([])) then Failure(Invalid("Unable to create root"))
    else
      match kind
      case StringRaw =>
        var node := Str(raw.s);
        if b.create(node) then Success(node) else Failure(Invalid(typeName + "(String)"))
      case _ =>
        var node := Number(raw.i);
        if b.create(node) then Success(node) else Failure(Invalid(typeName + "(Int)"))
  }

  /** The body of the generated `toSWON()`. */
  datatype EncodePlan =
    | FieldsEncoder(typeName: string, fields: seq<FieldPlan>)
    | RawEncoder(typeName: string, kind: RawKind, table: seq<RawCase>)

  /** A plan all of whose field types generate code. */
  predicate EncoderSupported(plan: EncodePlan) {
    plan.FieldsEncoder? ==> forall i :: 0 <= i < |plan.fields| ==> Supported(plan.fields[i].ty)
  }

  /** The first field type generation stops on, in declaration order. */
  function FirstFatal(fields: seq<FieldPlan>): (r: Option<string>)
    ensures r.None? <==> forall i :: 0 <= i < |fields| ==> Supported(fields[i].ty)
    ensures r.Some? ==> r.value == "Collection of optionals is not supported" || r.value == "Expected string keys"
  {
    if fields == [] then None
    else if EncodeFatal(fields[0].ty).Some? then EncodeFatal(fields[0].ty)
    else
      assert forall i :: 1 <= i < |fields| ==> fields[i] == fields[1..][i - 1];
      FirstFatal(fields[1..])
  }

  /** The plan for a raw type spelled `rawType`. */
  function RawEncoderFor(name: string, rawType: string, rawCases: seq<RawCase>): (r: Result<EncodePlan, string>)
    ensures r.Success? <==> rawType == "String" || rawType == "Int"
    ensures r.Success? ==> r.value == RawEncoder(name, if rawType == "String" then StringRaw else IntRaw, rawCases)
    ensures r.Failure? ==> r.error == "Unsupported raw type '" + rawType + "'"
  {
    if rawType == "String" then Success(RawEncoder(name, StringRaw, rawCases))
    else if rawType == "Int" then Success(RawEncoder(name, IntRaw, rawCases))
    else Failure("Unsupported raw type '" + rawType + "'")
  }

  /** The struct branch of `expansion`: the fields in order, or the first generation stop. */
  function FieldsEncoderFor(name: string, members: seq<MemberDecl>): (r: Result<EncodePlan, string>)
    ensures r.Success? ==> r.value == FieldsEncoder(name, FieldPlans(members)) && EncoderSupported(r.value)
    ensures r.Failure? ==> r.error == "Collection of optionals is not supported" || r.error == "Expected string keys"
  {
    var fields := FieldPlans(members);
    match FirstFatal(fields)
    case None => Success(FieldsEncoder(name, fields))
    case Some(message) => Failure(message)
  }

  /**
   * `SWONEncodeMacro.expansion` as written: the raw type is the inherited
   * type's text untrimmed, so only the exact spellings `String` and `Int`
   * are accepted.
   */
  function EncodeExpansionAsWritten(decl: Decl): (r: Result<EncodePlan, string>)
    ensures decl.OtherDecl? ==> r.Failure?
    ensures decl.EnumDecl? && decl.inherited == [] ==> r == Failure("Enumeration must inherit a raw type")
    ensures decl.EnumDecl? && decl.inherited != [] ==> (r.Success? <==> decl.inherited[0] in ["String", "Int"])
  {
    match decl
    case OtherDecl => Failure("@SWON can only be applied to a struct or enum")
    case EnumDecl(name, inherited, _, rawCases) =>
      if inherited == [] then Failure("Enumeration must inherit a raw type")
      else RawEncoderFor(name, inherited[0], rawCases)
    case StructDecl(name, members) => FieldsEncoderFor(name, members)
  }

  /**
   * The expansion with the raw type's trailing trivia trimmed, as the
   * decoder does; the rest of the model uses this one.
   */
  function EncodeExpansion(decl: Decl): (r: Result<EncodePlan, string>)
    ensures decl.OtherDecl? ==> r.Failure?
    ensures decl.EnumDecl? && decl.inherited == [] ==> r == Failure("Enumeration must inherit a raw type")
    ensures decl.EnumDecl? && decl.inherited != [] ==> (r.Success? <==> TrimTrailing(decl.inherited[0]) in ["String", "Int"])
    ensures r.Success? ==> EncoderSupported(r.value)
  {
    match decl
    case OtherDecl => Failure("@SWON can only be applied to a struct or enum")
    case EnumDecl(name, inherited, _, rawCases) =>
      if inherited == [] then Failure("Enumeration must inherit a raw type")
      else RawEncoderFor(name, TrimTrailing(inherited[0]), rawCases)
    case StructDecl(name, members) => FieldsEncoderFor(name, members)
  }

  /** `enum E: Int {` spells its raw type "Int " and stops the macro as written; trimmed, it is accepted. */
  lemma UntrimmedRawTypeIsFatal(name: string, members: seq<MemberDecl>, rawCases: seq<RawCase>)
    ensures EncodeExpansionAsWritten(EnumDecl(name, ["Int "], members, rawCases)) == Failure("Unsupported raw type 'Int '")
    ensures EncodeExpansion(EnumDecl(name, ["Int "], members, rawCases)) == Success(RawEncoder(name, IntRaw, rawCases))
  {
    assert TrimTrailing("Int ") == "Int" by {
      assert "Int "[..3] == "Int";
    }
    assert "Unsupported raw type '" + "Int " + "'" == "Unsupported raw type 'Int '";
  }

  /** Trailing trivia after the raw type does not change the trimmed expansion. */
  lemma EncodeExpansionIgnoresTrailingSpaces(name: string, rawType: string, more: seq<string>, members: seq<MemberDecl>,
                                             rawCases: seq<RawCase>, n: nat)
    ensures EncodeExpansion(EnumDecl(name, [rawType + seq(n, _ => ' ')] + more, members, rawCases))
         == EncodeExpansion(EnumDecl(name, [rawType] + more, members, rawCases))
  {
    TrimTrailingSpaces(rawType, n);
  }

  /** A value of the type the plan encodes. */
  predicate Encodable(plan: EncodePlan, x: TValue) {
    match plan
    case FieldsEncoder(typeName, fields) => StructValue(x, typeName, fields)
    case RawEncoder(typeName, kind, table) =>
      x.TCase? && x.typeName == typeName && x.args == [] && RawOf(table, x.caseName).Some? && RawsOfKind(table, kind)
  }

  /** The generated `toSWON()`. */
  function Encode(b: Builder, c: Codec, plan: EncodePlan, x: TValue): Result<Value, SwonError>
    requires Encodable(plan, x)
  {
    match plan
    case FieldsEncoder(typeName, fields) => EncodeStruct(b, c, typeName, fields, x)
    case RawEncoder(typeName, kind, table) => EncodeRaw(b, typeName, kind, table, x)
  }

  // ---------------------------------------------------------------------
  // The emitted loops, run step by step.
  // ---------------------------------------------------------------------

  /**
   * The array code `mapItem` emits: create the array node, then for each
   * element build its item and `swon_array_add_item` it; the first error
   * frees the array and is rethrown.
   */
  method EncodeArrayLoop(b: Builder, c: Codec, e: DecodedType, x: TValue, varName: string, parentName: string, nesting: nat)
    returns (r: Result<Value, SwonError>)
    requires Supported(ArrayOf(e)) && HasType(x, ArrayOf(e))
    ensures r == EncodeNode(b, c, ArrayOf(e), x, varName, parentName, nesting)
  {
    if !b.create(Array([])) {
      return Failure(Invalid("Unable to create array in " + parentName + " (" + varName + "JSON)"));
    }
    var arr: seq<Value> := [];
    for i := 0 to |x.items|
      invariant forall k :: 0 <= k < |x.items[i..]| ==> HasType(x.items[i..][k], e)
      invariant EncodeElements(b, c, e, x.items[i..], varName, parentName, nesting, arr)
             == EncodeElements(b, c, e, x.items, varName, parentName, nesting, [])
    {
      assert x.items[i..][0] == x.items[i] && x.items[i..][1..] == x.items[i + 1..];
      var item := EncodeNode(b, c, e, x.items[i], ElementName(nesting), parentName, nesting + 1);
      if item.Failure? {
        return Failure(item.error);
      }
      if !b.add(Array(arr), None, item.value) {
        return Failure(Invalid("Unable to add item to " + varName + "JSON"));
      }
      arr := arr + [item.value];
    }
    return Success(Array(arr));
  }

  /**
   * The dictionary code `mapItem` emits: create the object node, then for
   * each entry build its item and add it under the entry's key.
   */
  method EncodeDictionaryLoop(b: Builder, c: Codec, v: DecodedType, x: TValue, varName: string, parentName: string, nesting: nat)
    returns (r: Result<Value, SwonError>)
    requires Supported(Dictionary(Scalar("String"), v)) && HasType(x, Dictionary(Scalar("String"), v))
    ensures r == EncodeNode(b, c, Dictionary(Scalar("String"), v), x, varName, parentName, nesting)
  {
    if !b.create(Object([])) {
      return Failure(Invalid("Unable to create object in " + parentName));
    }
    var members: seq<Member> := [];
    for i := 0 to |x.entries|
      invariant forall k :: 0 <= k < |x.entries[i..]| ==> HasType(x.entries[i..][k].value, v)
      invariant EncodeMembers(b, c, v, x.entries[i..], varName, parentName, nesting, members)
             == EncodeMembers(b, c, v, x.entries, varName, parentName, nesting, [])
    {
      assert x.entries[i..][0] == x.entries[i] && x.entries[i..][1..] == x.entries[i + 1..];
      var key := x.entries[i].key;
      var item := EncodeNode(b, c, v, x.entries[i].value, ElementName(nesting), parentName, nesting + 1);
      if item.Failure? {
        return Failure(item.error);
      }
      if !b.add(Object(members), Some(key), item.value) {
        return Failure(Invalid("Unable to set item in " + varName + "JSON[" + key + "]"));
      }
      members := members + [Member(key, item.value)];
    }
    return Success(Object(members));
  }

  /**
   * The array loop appends in iteration order: on success one item per
   * element, each the node built for it; on failure the error is an
   * element's own or the failed add's.
   */
  lemma {:induction false} EncodeElementsSpec(b: Builder, c: Codec, e: DecodedType, items: seq<TValue>, varName: string,
                                              parentName: string, nesting: nat, acc: seq<Value>)
    requires Supported(e) && !e.Optional? && forall i :: 0 <= i < |items| ==> HasType(items[i], e)
    ensures var r := EncodeElements(b, c, e, items, varName, parentName, nesting, acc);
      && (r.Success? ==>
            && |r.value| == |acc| + |items| && r.value[..|acc|] == acc
            && forall j :: 0 <= j < |items| ==>
                 EncodeNode(b, c, e, items[j], ElementName(nesting), parentName, nesting + 1) == Success(r.value[|acc| + j]))
      && (r.Failure? ==>
            || r.error == Invalid("Unable to add item to " + varName + "JSON")
            || exists j :: 0 <= j < |items| &&
                 EncodeNode(b, c, e, items[j], ElementName(nesting), parentName, nesting + 1) == Failure(r.error))
    decreases |items|
  {
    EncodeElementsSuccess(b, c, e, items, varName, parentName, nesting, acc);
    EncodeElementsFailure(b, c, e, items, varName, parentName, nesting, acc);
  }

  /** The success half of `EncodeElementsSpec`. */
  lemma {:induction false} EncodeElementsSuccess(b: Builder, c: Codec, e: DecodedType, items: seq<TValue>, varName: string,
                                                 parentName: string, nesting: nat, acc: seq<Value>)
    requires Supported(e) && !e.Optional? && forall i :: 0 <= i < |items| ==> HasType(items[i], e)
    ensures var r := EncodeElements(b, c, e, items, varName, parentName, nesting, acc);
      r.Success? ==>
        && |r.value| == |acc| + |items| && r.value[..|acc|] == acc
        && forall j :: 0 <= j < |items| ==>
             EncodeNode(b, c, e, items[j], ElementName(nesting), parentName, nesting + 1) == Success(r.value[|acc| + j])
    decreases |items|
  {
    if items != [] && EncodeElements(b, c, e, items, varName, parentName, nesting, acc).Success? {
      var item := EncodeNode(b, c, e, items[0], ElementName(nesting), parentName, nesting + 1);
      var r := EncodeElements(b, c, e, items, varName, parentName, nesting, acc);
      ElementsStep(b, c, e, items, varName, parentName, nesting, acc);
      var accNext := acc + [item.value];
      EncodeElementsSuccess(b, c, e, items[1..], varName, parentName, nesting, accNext);
      ElementsSpecCons(b, c, e, items, items[1..], varName, parentName, nesting, acc, item.value, accNext, r.value);
    }
  }

  /** The failure half of `EncodeElementsSpec`. */
  lemma {:induction false} EncodeElementsFailure(b: Builder, c: Codec, e: DecodedType, items: seq<TValue>, varName: string,
                                                 parentName: string, nesting: nat, acc: seq<Value>)
    requires Supported(e) && !e.Optional? && forall i :: 0 <= i < |items| ==> HasType(items[i], e)
    ensures var r := EncodeElements(b, c, e, items, varName, parentName, nesting, acc);
      r.Failure? ==>
        || r.error == Invalid("Unable to add item to " + varName + "JSON")
        || exists j :: 0 <= j < |items| &&
             EncodeNode(b, c, e, items[j], ElementName(nesting), parentName, nesting + 1) == Failure(r.error)
    decreases |items|
  {
    if items != [] {
      var item := EncodeNode(b, c, e, items[0], ElementName(nesting), parentName, nesting + 1);
      var r := EncodeElements(b, c, e, items, varName, parentName, nesting, acc);
      ElementsUnfold(b, c, e, items, varName, parentName, nesting, acc);
      if item.Failure? {
        assert EncodeNode(b, c, e, items[0], ElementName(nesting), parentName, nesting + 1) == Failure(r.error);
      } else if b.add(Array(acc), None, item.value) {
        EncodeElementsFailure(b, c, e, items[1..], varName, parentName, nesting, acc + [item.value]);
        if r.Failure? && r.error != Invalid("Unable to add item to " + varName + "JSON") {
          var j :| 0 <= j < |items[1..]| &&
                   EncodeNode(b, c, e, items[1..][j], ElementName(nesting), parentName, nesting + 1) == Failure(r.error);
          assert items[1..][j] == items[j + 1];
        }
      }
    }
  }

  /** One step of the array loop, whichever way it ends. */
  lemma ElementsUnfold(b: Builder, c: Codec, e: DecodedType, items: seq<TValue>, varName: string, parentName: string,
                       nesting: nat, acc: seq<Value>)
    requires Supported(e) && !e.Optional? && forall i :: 0 <= i < |items| ==> HasType(items[i], e)
    requires items != []
    ensures var item := EncodeNode(b, c, e, items[0], ElementName(nesting), parentName, nesting + 1);
      EncodeElements(b, c, e, items, varName, parentName, nesting, acc) ==
        if item.Failure? then Failure(item.error)
        else if !b.add(Array(acc), None, item.value) then Failure(Invalid("Unable to add item to " + varName + "JSON"))
        else EncodeElements(b, c, e, items[1..], varName, parentName, nesting, acc + [item.value])
  {
  }

  /** A successfully built array node is the array of its successfully built elements. */
  lemma ArrayNodeStep(b: Builder, c: Codec, e: DecodedType, x: TValue, varName: string, parentName: string, nesting: nat)
    requires Supported(ArrayOf(e)) && HasType(x, ArrayOf(e))
    requires EncodeNode(b, c, ArrayOf(e), x, varName, parentName, nesting).Success?
    ensures Supported(e) && !e.Optional? && forall i :: 0 <= i < |x.items| ==> HasType(x.items[i], e)
    ensures EncodeElements(b, c, e, x.items, varName, parentName, nesting, []).Success?
    ensures EncodeNode(b, c, ArrayOf(e), x, varName, parentName, nesting).value
            == Array(EncodeElements(b, c, e, x.items, varName, parentName, nesting, []).value)
  {
  }

  /** A field that is present is built and attached under its own name, after the parent's members. */
  lemma FieldAttach(b: Builder, c: Codec, t: DecodedType, x: TValue, varName: string, parentName: string,
                    isOptional: bool, parent: Value)
    requires parent.Object? && Supported(t) && !t.Optional? && HasType(x, t) && !(isOptional && x.TNil?)
    requires EncodeField(b, c, t, x, varName, parentName, isOptional, parent).Success?
    ensures EncodeNode(b, c, t, x, varName, parentName, 0).Success?
    ensures EncodeField(b, c, t, x, varName, parentName, isOptional, parent).value
            == Object(parent.members + [Member(varName, EncodeNode(b, c, t, x, varName, parentName, 0).value)])
  {
  }

  /** A successfully built dictionary node is the object of its successfully built members. */
  lemma DictionaryNodeStep(b: Builder, c: Codec, k: DecodedType, v: DecodedType, x: TValue, varName: string,
                           parentName: string, nesting: nat)
    requires Supported(Dictionary(k, v)) && HasType(x, Dictionary(k, v))
    requires EncodeNode(b, c, Dictionary(k, v), x, varName, parentName, nesting).Success?
    ensures Supported(v) && !v.Optional? && forall i :: 0 <= i < |x.entries| ==> HasType(x.entries[i].value, v)
    ensures EncodeMembers(b, c, v, x.entries, varName, parentName, nesting, []).Success?
    ensures EncodeNode(b, c, Dictionary(k, v), x, varName, parentName, nesting).value
            == Object(EncodeMembers(b, c, v, x.entries, varName, parentName, nesting, []).value)
  {
  }

  /** One successful step of the field statements: the first field is added, then the rest follow. */
  lemma FieldsStep(b: Builder, c: Codec, fields: seq<FieldPlan>, values: seq<Entry>, root: Value)
    requires root.Object? && |values| == |fields| && fields != []
    requires forall i :: 0 <= i < |fields| ==> Supported(fields[i].ty) && HasType(values[i].value, fields[i].ty)
    requires EncodeFields(b, c, fields, values, root).Success?
    ensures var r0 := EncodeField(b, c, fields[0].ty, values[0].value, fields[0].name, "root", fields[0].optional, root);
      && r0.Success?
      && EncodeFields(b, c, fields, values, root) == EncodeFields(b, c, fields[1..], values[1..], r0.value)
  {
  }

  /** One successful step of the array loop: the first node is built and added, then the rest follow. */
  lemma ElementsStep(b: Builder, c: Codec, e: DecodedType, items: seq<TValue>, varName: string, parentName: string,
                     nesting: nat, acc: seq<Value>)
    requires Supported(e) && !e.Optional? && forall i :: 0 <= i < |items| ==> HasType(items[i], e)
    requires items != [] && EncodeElements(b, c, e, items, varName, parentName, nesting, acc).Success?
    ensures var item := EncodeNode(b, c, e, items[0], ElementName(nesting), parentName, nesting + 1);
      && item.Success? && b.add(Array(acc), None, item.value)
      && EncodeElements(b, c, e, items, varName, parentName, nesting, acc)
         == EncodeElements(b, c, e, items[1..], varName, parentName, nesting, acc + [item.value])
  {
  }

  /** One successful step of the dictionary loop: the first value is built and set, then the rest follow. */
  lemma MembersStep(b: Builder, c: Codec, v: DecodedType, entries: seq<Entry>, varName: string, parentName: string,
                    nesting: nat, acc: seq<Member>)
    requires Supported(v) && !v.Optional? && forall i :: 0 <= i < |entries| ==> HasType(entries[i].value, v)
    requires entries != [] && EncodeMembers(b, c, v, entries, varName, parentName, nesting, acc).Success?
    ensures var item := EncodeNode(b, c, v, entries[0].value, ElementName(nesting), parentName, nesting + 1);
      && item.Success? && b.add(Object(acc), Some(entries[0].key), item.value)
      && EncodeMembers(b, c, v, entries, varName, parentName, nesting, acc)
         == EncodeMembers(b, c, v, entries[1..], varName, parentName, nesting, acc + [Member(entries[0].key, item.value)])
  {
  }

  /** The first element's node followed by the later elements' nodes are the nodes of all the elements. */
  lemma ElementsSpecCons(b: Builder, c: Codec, e: DecodedType, items: seq<TValue>, later: seq<TValue>, varName: string,
                         parentName: string, nesting: nat, acc: seq<Value>, item: Value, accNext: seq<Value>, r: seq<Value>)
    requires Supported(e) && !e.Optional? && forall i :: 0 <= i < |items| ==> HasType(items[i], e)
    requires items != [] && later == items[1..] && accNext == acc + [item]
    requires EncodeNode(b, c, e, items[0], ElementName(nesting), parentName, nesting + 1) == Success(item)
    requires |r| == |accNext| + |later| && r[..|accNext|] == accNext
    requires forall j :: 0 <= j < |later| ==>
               EncodeNode(b, c, e, later[j], ElementName(nesting), parentName, nesting + 1) == Success(r[|accNext| + j])
    ensures |r| == |acc| + |items| && r[..|acc|] == acc
    ensures forall j :: 0 <= j < |items| ==>
              EncodeNode(b, c, e, items[j], ElementName(nesting), parentName, nesting + 1) == Success(r[|acc| + j])
  {
    forall j | 0 <= j < |items|
      ensures EncodeNode(b, c, e, items[j], ElementName(nesting), parentName, nesting + 1) == Success(r[|acc| + j])
    {
      if j == 0 {
        assert r[|acc|] == r[..|accNext|][|acc|] == accNext[|acc|];
      } else {
        assert items[j] == later[j - 1] && |acc| + j == |accNext| + (j - 1);
      }
    }
    assert r[..|acc|] == r[..|accNext|][..|acc|];
  }

  /** A `nil` optional field adds no key: the parent is unchanged. */
  lemma NilAddsNoKey(b: Builder, c: Codec, t: DecodedType, varName: string, parentName: string, isOptional: bool, parent: Value)
    requires parent.Object? && Supported(t) && (isOptional || t.Optional?)
    ensures (isOptional && TNil.TNil?) || HasType(TNil, t)
    ensures EncodeField(b, c, t, TNil, varName, parentName, isOptional, parent) == Success(parent)
    decreases t
  {
    if t.Optional? {
      NilAddsNoKey(b, c, t.wrapped, varName, parentName, true, parent);
    }
  }

  /**
   * Scalar encoding: Bool, Int, Double and String become a bool, number,
   * number and string node when the constructor succeeds; any other type
   * is whatever its own `toSWON()` gives.
   */
  lemma ScalarEncoding(b: Builder, c: Codec, name: string, x: TValue, itemName: string)
    requires HasType(x, Scalar(name))
    ensures var r := EncodeScalar(b, c, name, x, itemName);
      && (name == "Bool" && b.create(Bool(x.b)) ==> r == Success(Bool(x.b)))
      && (name == "Int" && b.create(Number(x.i)) ==> r == Success(Number(x.i)))
      && (name == "Double" && b.create(Number(x.d)) ==> r == Success(Number(x.d)))
      && (name == "String" && b.create(Str(x.s)) ==> r == Success(Str(x.s)))
      && (IsBuiltin(name) && r.Failure? ==> r.error == Invalid("Unable to create item (" + itemName + ")"))
      && (!IsBuiltin(name) ==> r == c.encode(name, x))
  {
  }

  // ---------------------------------------------------------------------
  // The statements `mapItem` generates.
  // ---------------------------------------------------------------------

  /** One generated statement (or block), by what it does. */
  datatype Stmt =
    | IfLet(name: string)                                  // `if let name {`
    | CloseBrace                                           // `}`
    | DeclareNode(name: string)                            // `var name = swon_t()`
    | GuardCreate(kind: string, name: string, argument: string)  // `guard swon_create_<kind>(&name, argument) else {`
    | ThrowUnableToCreate(name: string)                    // `throw ... "Unable to create item (name)"`
    | AssignToSWON(name: string, argument: string)         // `name = try argument.toSWON()`
    | AttachScalar(parentName: string, varName: string)    // add `varNameJSON` to the parent, or throw
    | ArrayLoop(varName: string, parentName: string, nesting: nat, pair: bool, body: seq<Stmt>)
    | ObjectLoop(varName: string, parentName: string, nesting: nat, pair: bool, body: seq<Stmt>)
    | AttachCollection(parentName: string, varName: string, kind: string)  // add the array / dictionary to the parent, or throw

  /** `DecodedType.statements(forName:element:pair:)`. */
  function Statements(t: DecodedType, name: string, element: string, pair: bool): (r: seq<Stmt>)
    ensures |r| >= 2 && r[0] == DeclareNode(name)
    ensures IsBuiltin(Description(t)) <==> |r| == 4 && r[1].GuardCreate? && r[2] == ThrowUnableToCreate(name) && r[3] == CloseBrace
    ensures !IsBuiltin(Description(t)) <==> r == [DeclareNode(name), AssignToSWON(name, element + (if pair then ".value" else ""))]
  {
    var argument := element + (if pair then ".value" else "");
    var description := Description(t);
    [DeclareNode(name)] +
      if description == "Bool" then [GuardCreate("bool", name, argument), ThrowUnableToCreate(name), CloseBrace]
      else if description == "Int" then [GuardCreate("number", name, "Double(" + argument + ")"), ThrowUnableToCreate(name), CloseBrace]
      else if description == "Double" then [GuardCreate("number", name, argument), ThrowUnableToCreate(name), CloseBrace]
      else if description == "String" then [GuardCreate("string", name, argument), ThrowUnableToCreate(name), CloseBrace]
      else [AssignToSWON(name, argument)]
  }

  /** `mapItem`'s statements for `varName` of type `t`. */
  function MapItemStatements(t: DecodedType, varName: string, parentName: string, nesting: nat,
                             isOptional: bool, isCollection: bool, isPair: bool): seq<Stmt>
    requires Supported(t)
    decreases t, 2
  {
    if t.Optional? then MapItemStatements(t.wrapped, varName, parentName, nesting, true, false, false)
    else
      (if isOptional then [IfLet(varName)] else [])
        + MapItemBody(t, varName, parentName, nesting, isCollection, isPair)
        + (if isOptional then [CloseBrace] else [])
  }

  /** The statements between the optional `if let` and its `}`. */
  function MapItemBody(t: DecodedType, varName: string, parentName: string, nesting: nat,
                       isCollection: bool, isPair: bool): seq<Stmt>
    requires Supported(t) && !t.Optional?
    decreases t, 1
  {
    match t
    case Scalar(_) => Statements(t, varName + "JSON", varName, false) + [AttachScalar(parentName, varName)]
    case ArrayOf(e) =>
      [ArrayLoop(varName, parentName, nesting, isPair, ItemStatements(e, parentName, nesting, false))]
        + (if isCollection then [] else [AttachCollection(parentName, varName, "array")])
    case Dictionary(_, v) =>
      [ObjectLoop(varName, parentName, nesting, isPair, ItemStatements(v, parentName, nesting, true))]
        + (if isCollection then [] else [AttachCollection(parentName, varName, "dictionary")])
  }

  /** The loop body building `element<nesting>JSON`: a scalar's statements or a nested collection's. */
  function ItemStatements(e: DecodedType, parentName: string, nesting: nat, pair: bool): seq<Stmt>
    requires Supported(e) && !e.Optional?
    decreases e, 3
  {
    if e.Scalar? then Statements(e, ElementName(nesting) + "JSON", ElementName(nesting), pair)
    else MapItemStatements(e, ElementName(nesting), parentName, nesting + 1, false, true, pair)
  }

  /**
   * A nil optional adds no key: the statements are wrapped in `if let v {`
   * ... `}` exactly when the field is optional (by flag or by type).
   */
  lemma OptionalWrapping(t: DecodedType, varName: string, parentName: string, nesting: nat,
                         isOptional: bool, isCollection: bool, isPair: bool)
    requires Supported(t)
    ensures var r := MapItemStatements(t, varName, parentName, nesting, isOptional, isCollection, isPair);
      (isOptional || t.Optional?) <==> (|r| >= 2 && r[0] == IfLet(varName) && r[|r| - 1] == CloseBrace)
    decreases t
  {
    if t.Optional? {
      OptionalWrapping(t.wrapped, varName, parentName, nesting, true, false, false);
    } else if !isOptional && t.Scalar? {
      var body := MapItemBody(t, varName, parentName, nesting, isCollection, isPair);
      assert MapItemStatements(t, varName, parentName, nesting, isOptional, isCollection, isPair) == [] + body + [];
      assert body[|body| - 1] == AttachScalar(parentName, varName);
    }
  }

  /**
   * The two layers of `mapItem` agree on `nil`: a field's statements are
   * wrapped in `if let` exactly when the field is optional, and then a
   * `nil` value leaves the parent object as it was.
   */
  lemma NilSkippedWhereWrapped(b: Builder, c: Codec, t: DecodedType, varName: string, parentName: string,
                               nesting: nat, isOptional: bool, parent: Value)
    requires parent.Object? && Supported(t)
    ensures var r := MapItemStatements(t, varName, parentName, nesting, isOptional, false, false);
      var wrapped := |r| >= 2 && r[0] == IfLet(varName) && r[|r| - 1] == CloseBrace;
      && (wrapped <==> isOptional || t.Optional?)
      && (wrapped ==> EncodeField(b, c, t, TNil, varName, parentName, isOptional, parent) == Success(parent))
  {
    OptionalWrapping(t, varName, parentName, nesting, isOptional, false, false);
    if isOptional || t.Optional? {
      NilAddsNoKey(b, c, t, varName, parentName, isOptional, parent);
    }
  }

  /**
   * An array or dictionary is attached to its parent under its name
   * exactly when it is not an element of an enclosing collection.
   */
  lemma AttachedUnlessNested(t: DecodedType, varName: string, parentName: string, nesting: nat,
                             isOptional: bool, isCollection: bool, isPair: bool)
    requires Supported(t) && (t.ArrayOf? || t.Dictionary?)
    ensures var r := MapItemStatements(t, varName, parentName, nesting, isOptional, isCollection, isPair);
      && (t.ArrayOf? ==> (AttachCollection(parentName, varName, "array") in r <==> !isCollection))
      && (t.Dictionary? ==> (AttachCollection(parentName, varName, "dictionary") in r <==> !isCollection))
  {
    var opening: seq<Stmt> := if isOptional then [IfLet(varName)] else [];
    var closing: seq<Stmt> := if isOptional then [CloseBrace] else [];
    var body := MapItemBody(t, varName, parentName, nesting, isCollection, isPair);
    assert MapItemStatements(t, varName, parentName, nesting, isOptional, isCollection, isPair) == opening + body + closing;
    if isCollection {
      assert |body| == 1 && !body[0].AttachCollection?;
    }
  }
}

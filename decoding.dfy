/**
 * The decoder the macros generate (`SWONDecodeMacro`): `mapItem` as one
 * recursive interpreter over `DecodedType`, the loops it emits for arrays
 * and dictionaries, and the initialisers `expansion` emits for structs,
 * raw-value enums and enums with associated values.
 */
module Decoding {
  import opened Wrappers
  import opened SwonC
  import opened Swon
  import opened Helpers
  import opened Typed

  /** Every dictionary in `t` has `String` keys; otherwise generation stops ("Expected string keys"). */
  predicate KeysAreStrings(t: DecodedType) {
    match t
    case Scalar(_) => true
    case ArrayOf(e) => KeysAreStrings(e)
    case Dictionary(k, v) => k == Scalar("String") && KeysAreStrings(v)
    case Optional(w) => KeysAreStrings(w)
  }

  /**
   * The `switch result` block emitted after a scalar getter: Valid gives
   * the value, Null gives `nil` in an optional context and `required`
   * otherwise, anything else `invalid`.
   */
  function CheckScalar(result: SwonResult, field: string, isOptional: bool, value: TValue): Result<TValue, SwonError> {
    match result
    case ResultValid => Success(value)
    case ResultNull => if isOptional then Success(TNil) else Failure(Required(field))
    case ResultInvalid => Failure(Invalid(field))
  }

  /** The scalar branch of `mapItem`: a builtin getter, or the nested type's own `init(fromSWON:)`. */
  function DecodeScalar(c: Codec, name: string, v: Value, field: string, isOptional: bool): Result<TValue, SwonError> {
    if name == "String" then
      var (result, s) := GetString(Some(v), "");
      CheckScalar(result, field, isOptional, TString(s))
    else if name == "Int" then
      var (result, n) := GetInteger(Some(v), 0);
      CheckScalar(result, field, isOptional, TInt(n))
    else if name == "Double" then
      var (result, n) := GetNumber(Some(v), 0);
      CheckScalar(result, field, isOptional, TDouble(n))
    else if name == "Bool" then
      var (result, b) := GetBool(Some(v), false);
      CheckScalar(result, field, isOptional, TBool(b))
    else
      c.decode(name, v)
  }

  /** The nodes the emitted array loop fetches: one `swon_get_array_item` per index below the size. */
  function ArrayElements(v: Value): seq<Value> {
    seq(ArraySize(Some(v)), i requires 0 <= i < ArraySize(Some(v)) => GetArrayItem(Some(v), i, None).1.value)
  }

  /**
   * `mapItem` (decode direction) applied to the non-NULL node `v`.  Every
   * place the emitted code runs it has a non-NULL node: a field after
   * `check`, an array element below the size, a cursor node that exists.
   */
  function DecodeItem(c: Codec, t: DecodedType, v: Value, field: string, isOptional: bool): Result<TValue, SwonError>
    requires KeysAreStrings(t)
    decreases t, 1
  {
    match t
    case Scalar(name) => DecodeScalar(c, name, v, field, isOptional)
    case Optional(wrapped) => DecodeItem(c, wrapped, v, field, true)
    case ArrayOf(element) =>
      var list :- DecodeList(c, element, ArrayElements(v), field + "[]", []);
      Success(TList(list))
    case Dictionary(_, valueType) =>
      var entries :- DecodeEntries(c, valueType, MapFirst(v), field + "[]", []);
      Success(TDict(entries))
  }

  /** The emitted `for i in 0..<size` loop: decode each element and append; the first error aborts. */
  function DecodeList(c: Codec, element: DecodedType, items: seq<Value>, field: string, list: seq<TValue>)
    : Result<seq<TValue>, SwonError>
    requires KeysAreStrings(element)
    decreases element, 2, |items|
  {
    if items == [] then Success(list)
    else
      var value :- DecodeItem(c, element, items[0], field, false);
      DecodeList(c, element, items[1..], field, list + [value])
  }

  /**
   * The emitted `while swon_get_map_exists` loop: nodes without a key are
   * skipped, each keyed node is decoded and stored with `map[key] =`.
   */
  function DecodeEntries(c: Codec, valueType: DecodedType, cursor: Cursor, field: string, acc: seq<Entry>)
    : Result<seq<Entry>, SwonError>
    requires KeysAreStrings(valueType)
    decreases valueType, 2, |cursor|
  {
    if !MapExists(cursor) then Success(acc)
    else
      match MapKey(cursor)
      case None => DecodeEntries(c, valueType, MapNext(cursor), field, acc)
      case Some(key) =>
        var value :- DecodeItem(c, valueType, cursor[0].value, field, false);
        DecodeEntries(c, valueType, MapNext(cursor), field, Put(acc, key, value))
  }

  /**
   * The array code `mapItem` emits, run step by step: fetch each index
   * below `swon_get_array_size`, skip a fetch that is not Valid, decode
   * and append.  It computes exactly the interpreter's array branch.
   */
  method DecodeArrayLoop(c: Codec, element: DecodedType, v: Value, field: string) returns (r: Result<TValue, SwonError>)
    requires KeysAreStrings(element)
    ensures r == DecodeItem(c, ArrayOf(element), v, field, false)
  {
    var list: seq<TValue> := [];
    var size := ArraySize(Some(v));
    var i := 0;
    while i < size
      invariant 0 <= i <= size
      invariant DecodeList(c, element, ArrayElements(v)[i..], field + "[]", list)
             == DecodeList(c, element, ArrayElements(v), field + "[]", [])
    {
      var (result, arrayElement) := GetArrayItem(Some(v), i, None);
      if result == ResultValid {
        assert ArrayElements(v)[i..][0] == arrayElement.value;
        assert ArrayElements(v)[i..][1..] == ArrayElements(v)[i + 1..];
        var value := DecodeItem(c, element, arrayElement.value, field + "[]", false);
        if value.Failure? {
          return Failure(value.error);
        }
        list := list + [value.value];
      }
      i := i + 1;
    }
    return Success(TList(list));
  }

  /**
   * The dictionary code `mapItem` emits, run step by step over the map
   * cursor: skip a node without a key, otherwise decode it and store it
   * under its key (a later duplicate overwrites).
   */
  method DecodeDictionaryLoop(c: Codec, valueType: DecodedType, v: Value, field: string) returns (r: Result<TValue, SwonError>)
    requires KeysAreStrings(valueType)
    ensures r == DecodeItem(c, Dictionary(Scalar("String"), valueType), v, field, false)
  {
    var dict: seq<Entry> := [];
    var mapElement := MapFirst(v);
    while MapExists(mapElement)
      invariant DecodeEntries(c, valueType, mapElement, field + "[]", dict)
             == DecodeEntries(c, valueType, MapFirst(v), field + "[]", [])
      decreases |mapElement|
    {
      var key := MapKey(mapElement);
      if key.Some? {
        var value := DecodeItem(c, valueType, mapElement[0].value, field + "[]", false);
        if value.Failure? {
          return Failure(value.error);
        }
        dict := Put(dict, key.value, value.value);
      }
      mapElement := MapNext(mapElement);
    }
    return Success(TDict(dict));
  }

  /** Whether the node has the kind the builtin scalar getter for `name` accepts. */
  predicate KindMatches(name: string, v: Value) {
    if name == "String" then v.Str?
    else if name == "Int" || name == "Double" then v.Number?
    else name == "Bool" && v.Bool?
  }

  /** The Swift value a matching node gives for the builtin scalar `name`. */
  function Payload(name: string, v: Value): TValue
    requires KindMatches(name, v)
  {
    if name == "String" then TString(v.s)
    else if name == "Int" then TInt(v.n)
    else if name == "Double" then TDouble(v.n)
    else TBool(v.b)
  }

  /**
   * Scalar decoding: a node of the right kind gives its value, JSON `null`
   * gives `nil` when optional and `required(field)` otherwise, any other
   * kind `invalid(field)`.
   */
  lemma ScalarDecoding(c: Codec, name: string, v: Value, field: string, isOptional: bool)
    requires IsBuiltin(name)
    ensures KindMatches(name, v) ==> DecodeItem(c, Scalar(name), v, field, isOptional) == Success(Payload(name, v))
    ensures v.Null? ==> DecodeItem(c, Scalar(name), v, field, isOptional) ==
                        if isOptional then Success(TNil) else Failure(Required(field))
    ensures !v.Null? && !KindMatches(name, v) ==> DecodeItem(c, Scalar(name), v, field, isOptional) == Failure(Invalid(field))
  {
  }

  /**
   * A non-builtin scalar is handed to that type's own decoder, unchanged:
   * the field name is not passed on, and marking it optional does not turn
   * `null` into `nil`; the nested decoder alone decides.
   */
  lemma NestedDecoding(c: Codec, name: string, v: Value, field: string, isOptional: bool)
    requires !IsBuiltin(name)
    ensures DecodeItem(c, Scalar(name), v, field, isOptional) == c.decode(name, v)
    ensures DecodeItem(c, Optional(Scalar(name)), v, field, isOptional) == c.decode(name, v)
  {
  }

  /**
   * `optional(t)` decodes as `t` in an optional context.  So a `null` node
   * gives `nil` only for a builtin scalar: an optional array or dictionary
   * gives `[]` or `[:]` (a `null` node has size 0 and no children), and an
   * optional nested type is whatever its own decoder makes of `null`.
   */
  lemma OptionalDecoding(c: Codec, t: DecodedType, v: Value, field: string, isOptional: bool)
    requires KeysAreStrings(t)
    ensures DecodeItem(c, Optional(t), v, field, isOptional) == DecodeItem(c, t, v, field, true)
    ensures v.Null? && t.Scalar? && IsBuiltin(t.name) ==> DecodeItem(c, Optional(t), v, field, isOptional) == Success(TNil)
    ensures v.Null? && t.Scalar? && !IsBuiltin(t.name) ==> DecodeItem(c, Optional(t), v, field, isOptional) == c.decode(t.name, Null)
    ensures v.Null? && t.ArrayOf? ==> DecodeItem(c, Optional(t), v, field, isOptional) == Success(TList([]))
    ensures v.Null? && t.Dictionary? ==> DecodeItem(c, Optional(t), v, field, isOptional) == Success(TDict([]))
    ensures v.Null? && t.Optional? ==> DecodeItem(c, Optional(t), v, field, isOptional) == DecodeItem(c, t, v, field, isOptional)
  {
    if v.Null? && t.ArrayOf? {
      assert ArrayElements(v) == [];
    }
  }

  /**
   * Every fetch of the emitted array loop is Valid and non-NULL, so the
   * loop's `continue` is never taken: the fetched nodes are exactly the
   * array's items, and nothing for a node that is not an array.
   */
  lemma ArrayElementsAreItems(v: Value)
    ensures forall i :: 0 <= i < ArraySize(Some(v)) ==> GetArrayItem(Some(v), i, None).0 == ResultValid
    ensures ArrayElements(v) == if v.Array? then v.items else []
  {
    if v.Array? {
      assert ArrayElements(v) == v.items;
    }
  }

  /**
   * The element loop: on success the output extends `list` by one decoded
   * value per item, in order; on failure the error is that of the first
   * item that fails to decode.
   */
  lemma {:induction false} DecodeListSpec(c: Codec, element: DecodedType, items: seq<Value>, field: string, list: seq<TValue>)
    requires KeysAreStrings(element)
    ensures var r := DecodeList(c, element, items, field, list);
      && (r.Success? ==>
            && |r.value| == |list| + |items|
            && r.value[..|list|] == list
            && forall j :: 0 <= j < |items| ==> DecodeItem(c, element, items[j], field, false) == Success(r.value[|list| + j]))
      && (r.Failure? ==>
            exists j :: 0 <= j < |items| && DecodeItem(c, element, items[j], field, false) == Failure(r.error)
                        && forall k :: 0 <= k < j ==> DecodeItem(c, element, items[k], field, false).Success?)
    decreases |items|
  {
    if items != [] {
      var first := DecodeItem(c, element, items[0], field, false);
      if first.Success? {
        DecodeListSpec(c, element, items[1..], field, list + [first.value]);
        var r := DecodeList(c, element, items, field, list);
        assert r == DecodeList(c, element, items[1..], field, list + [first.value]);
        if r.Success? {
          forall j | 0 <= j < |items|
            ensures DecodeItem(c, element, items[j], field, false) == Success(r.value[|list| + j])
          {
            if j > 0 {
              assert items[j] == items[1..][j - 1];
            } else {
              assert r.value[..|list| + 1] == list + [first.value];
              assert r.value[|list|] == (list + [first.value])[|list|];
            }
          }
          assert r.value[..|list|] == (r.value[..|list| + 1])[..|list|];
        } else {
          var j :| 0 <= j < |items[1..]| && DecodeItem(c, element, items[1..][j], field, false) == Failure(r.error)
                   && forall k :: 0 <= k < j ==> DecodeItem(c, element, items[1..][k], field, false).Success?;
          assert items[j + 1] == items[1..][j];
          forall k | 0 <= k < j + 1 ensures DecodeItem(c, element, items[k], field, false).Success? {
            if k > 0 { assert items[k] == items[1..][k - 1]; }
          }
        }
      }
    }
  }

  /**
   * Array decoding: a node that is not an array gives the empty list; for
   * an array, success means one decoded element per item in source order,
   * each decoded under `field[]`, and failure is the first element's error.
   */
  lemma ArrayDecoding(c: Codec, element: DecodedType, v: Value, field: string, isOptional: bool)
    requires KeysAreStrings(element)
    ensures var r := DecodeItem(c, ArrayOf(element), v, field, isOptional);
      && (!v.Array? ==> r == Success(TList([])))
      && (r.Success? ==>
            && r.value.TList?
            && |r.value.items| == ArraySize(Some(v))
            && forall j :: 0 <= j < |r.value.items| ==>
                 DecodeItem(c, element, v.items[j], field + "[]", false) == Success(r.value.items[j]))
      && (r.Failure? ==>
            exists j :: 0 <= j < ArraySize(Some(v)) &&
              DecodeItem(c, element, v.items[j], field + "[]", false) == Failure(r.error))
  {
    ArrayElementsAreItems(v);
    DecodeListSpec(c, element, ArrayElements(v), field + "[]", []);
  }

  /** The last node of the chain whose key is `k`, if any. */
  function LastWithKey(cursor: Cursor, k: string): Option<Value> {
    if cursor == [] then None
    else
      var later := LastWithKey(cursor[1..], k);
      if later.Some? then later
      else if cursor[0].key == Some(k) then Some(cursor[0].value)
      else None
  }

  /**
   * The dictionary loop is last-write-wins: on success each key holds the
   * decoded value of the last node with that key (keys not in the chain
   * keep what they had), keys stay distinct, and on failure some keyed
   * node failed to decode.
   */
  lemma {:induction false} DecodeEntriesSpec(c: Codec, valueType: DecodedType, cursor: Cursor, field: string, acc: seq<Entry>)
    requires KeysAreStrings(valueType)
    ensures var r := DecodeEntries(c, valueType, cursor, field, acc);
      && (r.Success? ==>
            && (DistinctKeys(acc) ==> DistinctKeys(r.value))
            && (forall k :: LastWithKey(cursor, k).None? ==> Get(r.value, k) == Get(acc, k))
            && (forall k :: LastWithKey(cursor, k).Some? ==>
                  Get(r.value, k).Some? &&
                  DecodeItem(c, valueType, LastWithKey(cursor, k).value, field, false) == Success(Get(r.value, k).value)))
      && (r.Failure? ==>
            exists j :: 0 <= j < |cursor| && cursor[j].key.Some? &&
                        DecodeItem(c, valueType, cursor[j].value, field, false) == Failure(r.error))
    decreases |cursor|
  {
    if cursor != [] {
      var r := DecodeEntries(c, valueType, cursor, field, acc);
      var rest := cursor[1..];
      match cursor[0].key
      case None =>
        DecodeEntriesSpec(c, valueType, rest, field, acc);
        assert forall k :: LastWithKey(cursor, k) == LastWithKey(rest, k);
        if r.Failure? {
          var j :| 0 <= j < |rest| && rest[j].key.Some? &&
                   DecodeItem(c, valueType, rest[j].value, field, false) == Failure(r.error);
          assert cursor[j + 1] == rest[j];
        }
      case Some(k0) =>
        var first := DecodeItem(c, valueType, cursor[0].value, field, false);
        if first.Success? {
          var acc' := Put(acc, k0, first.value);
          DecodeEntriesSpec(c, valueType, rest, field, acc');
          if r.Failure? {
            var j :| 0 <= j < |rest| && rest[j].key.Some? &&
                     DecodeItem(c, valueType, rest[j].value, field, false) == Failure(r.error);
            assert cursor[j + 1] == rest[j];
          }
        }
    }
  }

  /** Nodes without a key (array elements) contribute nothing to a dictionary. */
  lemma {:induction false} KeylessNodesIgnored(c: Codec, valueType: DecodedType, cursor: Cursor, field: string, acc: seq<Entry>)
    requires KeysAreStrings(valueType)
    requires forall j :: 0 <= j < |cursor| ==> cursor[j].key.None?
    ensures DecodeEntries(c, valueType, cursor, field, acc) == Success(acc)
    decreases |cursor|
  {
    if cursor != [] {
      KeylessNodesIgnored(c, valueType, cursor[1..], field, acc);
    }
  }

  /**
   * Dictionary decoding: an object gives, for each of its keys, the value
   * of its last member with that key decoded under `field[]`; an array or
   * a scalar node gives the empty dictionary.
   */
  lemma DictionaryDecoding(c: Codec, valueType: DecodedType, v: Value, field: string, isOptional: bool)
    requires KeysAreStrings(valueType)
    ensures var r := DecodeItem(c, Dictionary(Scalar("String"), valueType), v, field, isOptional);
      && (!v.Object? ==> r == Success(TDict([])))
      && (r.Success? ==>
            && r.value.TDict?
            && DistinctKeys(r.value.entries)
            && (forall k :: LastWithKey(MapFirst(v), k).None? ==> Get(r.value.entries, k).None?)
            && (forall k :: LastWithKey(MapFirst(v), k).Some? ==>
                  Get(r.value.entries, k).Some? &&
                  DecodeItem(c, valueType, LastWithKey(MapFirst(v), k).value, field + "[]", false)
                    == Success(Get(r.value.entries, k).value)))
  {
    DecodeEntriesSpec(c, valueType, MapFirst(v), field + "[]", []);
    if !v.Object? {
      KeylessNodesIgnored(c, valueType, MapFirst(v), field + "[]", []);
    }
  }

  // ---------------------------------------------------------------------
  // What `expansion` generates, and what the generated initialiser does.
  // ---------------------------------------------------------------------

  /** A struct field the generated `init(fromSWON:)` assigns. */
  datatype FieldPlan = FieldPlan(name: string, ty: DecodedType, optional: bool)

  /** An enum case parameter: its lookup key (label or `_i`), its type with one optional layer removed. */
  datatype ParamPlan = ParamPlan(name: string, ty: DecodedType, optional: bool)

  /** One `case "name":` arm of the generated switch; no parameters means `self = .name`. */
  datatype CasePlan = CasePlan(name: string, params: seq<ParamPlan>)

  /** The raw types the decoder supports: `String`, `Int` and `UInt`. */
  datatype RawKind = StringRaw | IntRaw | UIntRaw

  /** The body of the generated `init(fromSWON:)`. */
  datatype DecodePlan =
    | FieldsPlan(typeName: string, fields: seq<FieldPlan>)
    | RawPlan(typeName: string, kind: RawKind, table: seq<RawCase>)
    | CasesPlan(typeName: string, cases: seq<CasePlan>)
    | NoAssignments

  /** The field a variable member yields: first binding without initializer, identifier pattern, type annotation. */
  function FieldPlanOf(m: MemberDecl): Option<FieldPlan> {
    if m.VariableMember? && |m.bindings| > 0 && !m.bindings[0].hasInitializer
       && m.bindings[0].identifier.Some? && m.bindings[0].typeAnnotation.Some?
    then
      var ts := m.bindings[0].typeAnnotation.value;
      Some(FieldPlan(m.bindings[0].identifier.value, DecodedTypeOf(ts), IsOptional(ts)))
    else None
  }

  /** The fields, in declaration order. */
  function FieldPlans(members: seq<MemberDecl>): seq<FieldPlan> {
    if members == [] then []
    else
      var rest := FieldPlans(members[1..]);
      match FieldPlanOf(members[0])
      case Some(f) => [f] + rest
      case None => rest
  }

  /**
   * Field plans keep declaration order (they distribute over
   * concatenation), and a field is optional exactly when its decoded type
   * is an optional.
   */
  lemma {:induction false} FieldPlansSpec(a: seq<MemberDecl>, b: seq<MemberDecl>)
    ensures FieldPlans(a + b) == FieldPlans(a) + FieldPlans(b)
    ensures forall f :: f in FieldPlans(a) ==> (f.optional <==> f.ty.Optional?)
  {
    if a == [] {
      assert a + b == b;
    } else {
      assert (a + b)[1..] == a[1..] + b;
      FieldPlansSpec(a[1..], b);
      match FieldPlanOf(a[0])
      case Some(f) =>
        DecodedTypeStructural(a[0].bindings[0].typeAnnotation.value);
      case None =>
    }
  }

  /** The field loop of `expansion`: one assignment per eligible stored property, in order. */
  method ExpandFields(members: seq<MemberDecl>) returns (fields: seq<FieldPlan>)
    ensures fields == FieldPlans(members)
  {
    fields := [];
    for i := 0 to |members|
      invariant fields == FieldPlans(members[..i])
    {
      FieldPlansSpec(members[..i], [members[i]]);
      assert members[..i + 1] == members[..i] + [members[i]];
      match FieldPlanOf(members[i])
      case Some(f) =>
        fields := fields + [f];
      case None =>
    }
    assert members[..|members|] == members;
  }

  /** The plan of parameter `i`: label or `_i`, and one optional layer stripped into the flag. */
  function ParamPlanOf(i: nat, p: EnumParam): ParamPlan {
    var t := DecodedTypeOf(p.ty);
    var name := if p.firstName.Some? then p.firstName.value else "_" + IntToString(i);
    if t.Optional? then ParamPlan(name, t.wrapped, true) else ParamPlan(name, t, false)
  }

  /** The arm for one case element. */
  function CasePlanOf(el: CaseElement): CasePlan {
    match el.parameterClause
    case None => CasePlan(el.name, [])
    case Some(ps) => CasePlan(el.name, seq(|ps|, i requires 0 <= i < |ps| => ParamPlanOf(i, ps[i])))
  }

  /** The arms for every element of every case declaration, in order. */
  function CasePlans(cases: seq<EnumCaseDecl>): seq<CasePlan> {
    if cases == [] then []
    else
      seq(|cases[0].elements|, j requires 0 <= j < |cases[0].elements| => CasePlanOf(cases[0].elements[j]))
      + CasePlans(cases[1..])
  }

  /** The elements of every case declaration, in declaration order. */
  function CaseElements(cases: seq<EnumCaseDecl>): seq<CaseElement> {
    if cases == [] then [] else cases[0].elements + CaseElements(cases[1..])
  }

  /** The switch has one arm per case element, in declaration order. */
  lemma {:induction false} CasePlansSpec(cases: seq<EnumCaseDecl>)
    ensures |CasePlans(cases)| == |CaseElements(cases)|
    ensures forall k :: 0 <= k < |CasePlans(cases)| ==> CasePlans(cases)[k] == CasePlanOf(CaseElements(cases)[k])
  {
    if cases != [] {
      CasePlansSpec(cases[1..]);
      var n := |cases[0].elements|;
      forall k | 0 <= k < |CasePlans(cases)|
        ensures CasePlans(cases)[k] == CasePlanOf(CaseElements(cases)[k])
      {
        if k >= n {
          assert CasePlans(cases)[k] == CasePlans(cases[1..])[k - n];
          assert CaseElements(cases)[k] == CaseElements(cases[1..])[k - n];
        }
      }
    }
  }

  /**
   * An arm: named after its element, one parameter per declared parameter,
   * each looked up under its label or else `_i`, and flagged optional
   * exactly when its declared type is optional, with that layer removed.
   */
  lemma CaseArm(el: CaseElement)
    ensures CasePlanOf(el).name == el.name
    ensures el.parameterClause.None? ==> CasePlanOf(el).params == []
    ensures el.parameterClause.Some? ==> |CasePlanOf(el).params| == |el.parameterClause.value|
    ensures el.parameterClause.Some? ==>
              forall i :: 0 <= i < |el.parameterClause.value| ==>
                var p := el.parameterClause.value[i];
                var pp := CasePlanOf(el).params[i];
                pp.name == (if p.firstName.Some? then p.firstName.value else "_" + IntToString(i)) &&
                (pp.optional <==> DecodedTypeOf(p.ty).Optional?) &&
                DecodedTypeOf(p.ty) == (if pp.optional then Optional(pp.ty) else pp.ty)
  {
  }

  /** Every type the plan decodes passes generation (`String` dictionary keys). */
  predicate PlanKeysAreStrings(plan: DecodePlan) {
    match plan
    case FieldsPlan(_, fields) => forall f :: f in fields ==> KeysAreStrings(f.ty)
    case CasesPlan(_, cases) => forall cp, p :: cp in cases && p in cp.params ==> KeysAreStrings(p.ty)
    case _ => true
  }

  /**
   * `SWONDecodeMacro.expansion`: enums with associated values first, then
   * raw-value enums by their trimmed raw type, then structs; a failure is
   * the message the macro stops with.
   */
  function Expansion(decl: Decl): (r: Result<DecodePlan, string>)
    ensures r.Success? ==> PlanKeysAreStrings(r.value)
    ensures decl.OtherDecl? ==> r == Failure("@SWON can only be applied to a struct or enum")
    ensures r.Success? && r.value.RawPlan? ==> decl.EnumDecl? && !HasAssociatedValues(decl.members)
    // an enum with associated values: one arm per case element, if every key type is `String`
    ensures decl.EnumDecl? && HasAssociatedValues(decl.members) ==>
              var plan := CasesPlan(decl.name, CasePlans(Cases(decl.members)));
              r == if PlanKeysAreStrings(plan) then Success(plan) else Failure("Expected string keys")
    // a raw-value enum: its first inherited type, trimmed, picks the decoder
    ensures decl.EnumDecl? && !HasAssociatedValues(decl.members) && decl.inherited != [] ==>
              var rawType := TrimTrailing(decl.inherited[0]);
              (rawType == "String" ==> r == Success(RawPlan(decl.name, StringRaw, decl.rawCases))) &&
              (rawType == "Int" ==> r == Success(RawPlan(decl.name, IntRaw, decl.rawCases))) &&
              (rawType == "UInt" ==> r == Success(RawPlan(decl.name, UIntRaw, decl.rawCases))) &&
              (rawType !in {"String", "Int", "UInt"} ==> r == Failure("Unsupported raw type '" + rawType + "'"))
    // an enum with neither: an empty initialiser
    ensures decl.EnumDecl? && !HasAssociatedValues(decl.members) && decl.inherited == [] ==> r == Success(NoAssignments)
    // a struct: one field per eligible stored property, if every key type is `String`
    ensures decl.StructDecl? ==>
              var plan := FieldsPlan(decl.name, FieldPlans(decl.members));
              r == if PlanKeysAreStrings(plan) then Success(plan) else Failure("Expected string keys")
  {
    match decl
    case OtherDecl => Failure("@SWON can only be applied to a struct or enum")
    case EnumDecl(name, inherited, members, rawCases) =>
      if HasAssociatedValues(members) then
        var cases := CasePlans(Cases(members));
        if forall cp, p :: cp in cases && p in cp.params ==> KeysAreStrings(p.ty) then Success(CasesPlan(name, cases))
        else Failure("Expected string keys")
      else if inherited != [] then
        var rawType := TrimTrailing(inherited[0]);
        if rawType == "String" then Success(RawPlan(name, StringRaw, rawCases))
        else if rawType == "Int" then Success(RawPlan(name, IntRaw, rawCases))
        else if rawType == "UInt" then Success(RawPlan(name, UIntRaw, rawCases))
        else Failure("Unsupported raw type '" + rawType + "'")
      else Success(NoAssignments)
    case StructDecl(name, members) =>
      var fields := FieldPlans(members);
      if forall f :: f in fields ==> KeysAreStrings(f.ty) then Success(FieldsPlan(name, fields))
      else Failure("Expected string keys")
  }

  /** Trailing trivia after the raw type does not change the plan. */
  lemma ExpansionIgnoresTrailingSpaces(name: string, rawType: string, more: seq<string>, members: seq<MemberDecl>,
                                       rawCases: seq<RawCase>, n: nat)
    ensures Expansion(EnumDecl(name, [rawType + seq(n, _ => ' ')] + more, members, rawCases))
         == Expansion(EnumDecl(name, [rawType] + more, members, rawCases))
  {
    TrimTrailingSpaces(rawType, n);
  }

  /** The closure emitted for a field: fetch the member, `check` it, then `mapItem`. */
  function FieldAttempt(c: Codec, f: FieldPlan, root: Value): Result<TValue, SwonError>
    requires KeysAreStrings(f.ty)
  {
    var (result, item) := GetObject(Some(root), f.name, None);
    var checked := Check(result, f.name);
    if checked.Fail? then Failure(checked.error)
    else DecodeItem(c, f.ty, item.value, f.name, f.optional)
  }

  /** A field assignment: `try?` turns any error of an optional field into `nil`. */
  function DecodeField(c: Codec, f: FieldPlan, root: Value): Result<TValue, SwonError>
    requires KeysAreStrings(f.ty)
  {
    var attempt := FieldAttempt(c, f, root);
    if f.optional then Success(if attempt.Success? then attempt.value else TNil) else attempt
  }

  /** The field assignments in order; the first error of a required field aborts the initialiser. */
  function DecodeFields(c: Codec, fields: seq<FieldPlan>, root: Value): Result<seq<Entry>, SwonError>
    requires forall f :: f in fields ==> KeysAreStrings(f.ty)
  {
    if fields == [] then Success([])
    else
      var value :- DecodeField(c, fields[0], root);
      var rest :- DecodeFields(c, fields[1..], root);
      Success([Entry(fields[0].name, value)] + rest)
  }

  /**
   * A field's outcome by what the member lookup finds: absent or `null`
   * gives `nil` for an optional field and `required(name)` otherwise; an
   * optional field never throws; a required field throws what `mapItem`
   * throws.
   */
  lemma FieldDecoding(c: Codec, f: FieldPlan, root: Value)
    requires KeysAreStrings(f.ty)
    ensures IsNullNode(Lookup(Some(root), f.name)) ==>
              DecodeField(c, f, root) == if f.optional then Success(TNil) else Failure(Required(f.name))
    ensures f.optional ==> DecodeField(c, f, root).Success?
    ensures f.optional && FieldAttempt(c, f, root).Failure? ==> DecodeField(c, f, root) == Success(TNil)
    ensures !IsNullNode(Lookup(Some(root), f.name)) ==>
              FieldAttempt(c, f, root) == DecodeItem(c, f.ty, Lookup(Some(root), f.name).value, f.name, f.optional)
  {
  }

  /**
   * A member holding JSON `null` and a missing member decode alike: the
   * same outcome for the field either way.
   */
  lemma NullAndAbsentAgree(c: Codec, f: FieldPlan, before: seq<Member>, after: seq<Member>)
    requires KeysAreStrings(f.ty)
    requires forall i :: 0 <= i < |before| ==> before[i].key != f.name
    requires forall i :: 0 <= i < |after| ==> after[i].key != f.name
    ensures DecodeField(c, f, Object(before + [Member(f.name, Null)] + after))
         == DecodeField(c, f, Object(before + after))
  {
    var withNull := before + [Member(f.name, Null)] + after;
    assert withNull[|before|] == Member(f.name, Null);
    assert IsNullNode(Lookup(Some(Object(withNull)), f.name));
    assert IsNullNode(Lookup(Some(Object(before + after)), f.name));
    FieldDecoding(c, f, Object(withNull));
    FieldDecoding(c, f, Object(before + after));
  }

  /** One step of the field assignments: the first field, then the rest. */
  lemma DecodeFieldsStep(c: Codec, fields: seq<FieldPlan>, root: Value)
    requires fields != [] && forall f :: f in fields ==> KeysAreStrings(f.ty)
    ensures var head := DecodeField(c, fields[0], root);
            var rest := DecodeFields(c, fields[1..], root);
            DecodeFields(c, fields, root) ==
              if head.Failure? then Failure(head.error)
              else if rest.Failure? then Failure(rest.error)
              else Success([Entry(fields[0].name, head.value)] + rest.value)
    ensures fields[0].optional ==> DecodeField(c, fields[0], root).Success?
  {
    FieldDecoding(c, fields[0], root);
  }

  /** The first field's entry followed by the later fields' entries are the entries of all the fields. */
  lemma DecodedFieldsCons(c: Codec, fields: seq<FieldPlan>, later: seq<FieldPlan>, root: Value, first: Entry, rest: seq<Entry>)
    requires fields != [] && later == fields[1..] && forall f :: f in fields ==> KeysAreStrings(f.ty)
    requires first.key == fields[0].name && DecodeField(c, fields[0], root) == Success(first.value)
    requires |rest| == |later|
    requires forall i :: 0 <= i < |later| ==>
               rest[i].key == later[i].name && DecodeField(c, later[i], root) == Success(rest[i].value)
    ensures |[first] + rest| == |fields|
    ensures forall i :: 0 <= i < |fields| ==>
              ([first] + rest)[i].key == fields[i].name && DecodeField(c, fields[i], root) == Success(([first] + rest)[i].value)
  {
    forall i | 0 <= i < |fields|
      ensures ([first] + rest)[i].key == fields[i].name && DecodeField(c, fields[i], root) == Success(([first] + rest)[i].value)
    {
      if i > 0 {
        assert fields[i] == later[i - 1] && ([first] + rest)[i] == rest[i - 1];
      }
    }
  }

  /** A required later field that failed is a required field of the whole list that failed. */
  lemma FailedLaterField(c: Codec, fields: seq<FieldPlan>, later: seq<FieldPlan>, root: Value, error: SwonError)
    requires fields != [] && later == fields[1..] && forall f :: f in fields ==> KeysAreStrings(f.ty)
    requires exists i :: 0 <= i < |later| && !later[i].optional && DecodeField(c, later[i], root) == Failure(error)
    ensures exists i :: 0 <= i < |fields| && !fields[i].optional && DecodeField(c, fields[i], root) == Failure(error)
  {
    var i :| 0 <= i < |later| && !later[i].optional && DecodeField(c, later[i], root) == Failure(error);
    assert fields[i + 1] == later[i];
  }

  /** On success every field is decoded in order under its own name; on failure a required field failed. */
  lemma {:induction false} DecodeFieldsSpec(c: Codec, fields: seq<FieldPlan>, root: Value)
    requires forall f :: f in fields ==> KeysAreStrings(f.ty)
    ensures var r := DecodeFields(c, fields, root);
      && (r.Success? ==>
            && |r.value| == |fields|
            && forall i :: 0 <= i < |fields| ==>
                 r.value[i].key == fields[i].name && DecodeField(c, fields[i], root) == Success(r.value[i].value))
      && (r.Failure? ==> exists i :: 0 <= i < |fields| && !fields[i].optional &&
                                     DecodeField(c, fields[i], root) == Failure(r.error))
  {
    if fields != [] {
      var r := DecodeFields(c, fields, root);
      var head := DecodeField(c, fields[0], root);
      var rest := DecodeFields(c, fields[1..], root);
      DecodeFieldsStep(c, fields, root);
      DecodeFieldsSpec(c, fields[1..], root);
      if r.Success? {
        DecodedFieldsCons(c, fields, fields[1..], root, Entry(fields[0].name, head.value), rest.value);
      } else if head.Success? {
        FailedLaterField(c, fields, fields[1..], root, r.error);
      } else {
        assert DecodeField(c, fields[0], root) == Failure(r.error);
      }
    }
  }


  /** The case whose raw value is `raw`, the first one listed if several. */
  function FindRaw(table: seq<RawCase>, raw: RawValue): (r: Option<string>)
    ensures r.Some? ==> exists i :: 0 <= i < |table| && table[i] == RawCase(r.value, raw)
    ensures r.None? ==> forall i :: 0 <= i < |table| ==> table[i].raw != raw
  {
    if table == [] then None
    else if table[0].raw == raw then Some(table[0].caseName)
    else
      var r := FindRaw(table[1..], raw);
      assert forall i :: 1 <= i < |table| ==> table[i] == table[1..][i - 1];
      r
  }

  /**
   * The raw-value enum initialiser: read a string or an integer, `check`
   * it under the enum's name, then look the raw value up; no match throws
   * `invalid("Enum.raw")`.
   */
  function DecodeRaw(typeName: string, kind: RawKind, table: seq<RawCase>, root: Value): Result<TValue, SwonError> {
    match kind
    case StringRaw =>
      var (result, str) := GetString(Some(root), "");
      var checked := Check(result, typeName);
      if checked.Fail? then Failure(checked.error)
      else
        (match FindRaw(table, RawString(str))
         case Some(name) => Success(TCase(typeName, name, []))
         case None => Failure(Invalid(typeName + "." + str)))
    case _ =>
      var (result, num) := GetInteger(Some(root), 0);
      var checked := Check(result, typeName);
      if checked.Fail? then Failure(checked.error)
      else if kind == UIntRaw && num < 0 then Failure(Trap(NegativeToUnsigned))
      else
        match FindRaw(table, RawInt(num))
        case Some(name) => Success(TCase(typeName, name, []))
        case None => Failure(Invalid(typeName + "." + IntToString(num)))
  }

  /** Swift's message when `UInt(_:)` is given a negative value. */
  const NegativeToUnsigned := "Negative value is not representable"

  /**
   * Raw-value decoding: a listed raw value gives its case, an unlisted one
   * `invalid("Enum.raw")`; `null` is `required(Enum)`, a value of the wrong
   * kind `invalid(Enum)`, and a negative number under `UInt` traps.
   */
  lemma RawDecoding(typeName: string, table: seq<RawCase>, root: Value)
    ensures root.Str? ==>
              DecodeRaw(typeName, StringRaw, table, root) ==
                match FindRaw(table, RawString(root.s))
                case Some(name) => Success(TCase(typeName, name, []))
                case None => Failure(Invalid(typeName + "." + root.s))
    ensures root.Number? ==>
              DecodeRaw(typeName, IntRaw, table, root) ==
                match FindRaw(table, RawInt(root.n))
                case Some(name) => Success(TCase(typeName, name, []))
                case None => Failure(Invalid(typeName + "." + IntToString(root.n)))
    ensures root.Number? && root.n >= 0 ==>
              DecodeRaw(typeName, UIntRaw, table, root) == DecodeRaw(typeName, IntRaw, table, root)
    ensures root.Number? && root.n < 0 ==>
              DecodeRaw(typeName, UIntRaw, table, root) == Failure(Trap(NegativeToUnsigned))
    ensures forall kind :: root.Null? ==> DecodeRaw(typeName, kind, table, root) == Failure(Required(typeName))
    ensures !root.Null? && !root.Str? ==> DecodeRaw(typeName, StringRaw, table, root) == Failure(Invalid(typeName))
    ensures forall kind :: kind != StringRaw && !root.Null? && !root.Number? ==>
              DecodeRaw(typeName, kind, table, root) == Failure(Invalid(typeName))
  {
  }

  /**
   * One parameter closure: look the key up in the case's object; an
   * optional parameter that is absent or `null` is `nil`; otherwise
   * `check` and `mapItem` under "name in case".
   */
  function DecodeParam(c: Codec, caseName: string, p: ParamPlan, node: Value): Result<TValue, SwonError>
    requires KeysAreStrings(p.ty)
  {
    var (result, dict) := GetObject(Some(node), p.name, None);
    if p.optional && result == ResultNull then Success(TNil)
    else
      var field := p.name + " in " + caseName;
      var checked := Check(result, field);
      if checked.Fail? then Failure(checked.error)
      else DecodeItem(c, p.ty, dict.value, field, p.optional)
  }

  /** The parameters in order; the first error aborts. */
  function DecodeParams(c: Codec, caseName: string, params: seq<ParamPlan>, node: Value): Result<seq<Entry>, SwonError>
    requires forall p :: p in params ==> KeysAreStrings(p.ty)
  {
    if params == [] then Success([])
    else
      var value :- DecodeParam(c, caseName, params[0], node);
      var rest :- DecodeParams(c, caseName, params[1..], node);
      Success([Entry(params[0].name, value)] + rest)
  }

  /**
   * Parameters: an optional one that is absent or `null` is `nil`, a
   * required one that is absent or `null` throws `required("p in case")`,
   * and an optional one of the wrong scalar kind still throws `invalid`.
   */
  lemma ParamDecoding(c: Codec, caseName: string, p: ParamPlan, node: Value)
    requires KeysAreStrings(p.ty)
    ensures IsNullNode(Lookup(Some(node), p.name)) ==>
              DecodeParam(c, caseName, p, node) ==
                if p.optional then Success(TNil) else Failure(Required(p.name + " in " + caseName))
    ensures p.ty.Scalar? && IsBuiltin(p.ty.name) && !IsNullNode(Lookup(Some(node), p.name)) &&
            !KindMatches(p.ty.name, Lookup(Some(node), p.name).value) ==>
              DecodeParam(c, caseName, p, node) == Failure(Invalid(p.name + " in " + caseName))
    ensures !IsNullNode(Lookup(Some(node), p.name)) ==>
              DecodeParam(c, caseName, p, node) ==
                DecodeItem(c, p.ty, Lookup(Some(node), p.name).value, p.name + " in " + caseName, p.optional)
  {
    if p.ty.Scalar? && IsBuiltin(p.ty.name) && !IsNullNode(Lookup(Some(node), p.name)) {
      ScalarDecoding(c, p.ty.name, Lookup(Some(node), p.name).value, p.name + " in " + caseName, p.optional);
    }
  }

  /** Parameter `i` is the first that fails to decode, and it fails with `e`. */
  predicate FirstFailingParam(c: Codec, caseName: string, params: seq<ParamPlan>, node: Value, i: nat, e: SwonError)
    requires forall p :: p in params ==> KeysAreStrings(p.ty)
  {
    && i < |params|
    && DecodeParam(c, caseName, params[i], node) == Failure(e)
    && forall j :: 0 <= j < i ==> DecodeParam(c, caseName, params[j], node).Success?
  }

  /**
   * The parameter closures run in declaration order: on success there is
   * one argument per parameter, under its name, holding that parameter's
   * decoding; otherwise the error is the first failing parameter's.
   */
  lemma {:induction false} DecodeParamsSpec(c: Codec, caseName: string, params: seq<ParamPlan>, node: Value)
    requires forall p :: p in params ==> KeysAreStrings(p.ty)
    ensures var r := DecodeParams(c, caseName, params, node);
      && (r.Success? ==>
            && |r.value| == |params|
            && forall i :: 0 <= i < |params| ==>
                 r.value[i].key == params[i].name && DecodeParam(c, caseName, params[i], node) == Success(r.value[i].value))
      && (r.Failure? ==> exists i :: FirstFailingParam(c, caseName, params, node, i, r.error))
  {
    if params != [] {
      var head := DecodeParam(c, caseName, params[0], node);
      DecodeParamsSpec(c, caseName, params[1..], node);
      if head.Failure? {
        assert FirstFailingParam(c, caseName, params, node, 0, head.error);
      } else {
        var rest := DecodeParams(c, caseName, params[1..], node);
        if rest.Failure? {
          var i :| FirstFailingParam(c, caseName, params[1..], node, i, rest.error);
          ShiftFirstFailingParam(c, caseName, params, node, i, rest.error);
        } else {
          var r := [Entry(params[0].name, head.value)] + rest.value;
          forall i | 0 <= i < |params|
            ensures r[i].key == params[i].name && DecodeParam(c, caseName, params[i], node) == Success(r[i].value)
          {
            if i > 0 {
              assert r[i] == rest.value[i - 1];
              assert params[i] == params[1..][i - 1];
            }
          }
        }
      }
    }
  }

  /** A first failure among the later parameters, after a head that decodes, is a first failure of all of them. */
  lemma ShiftFirstFailingParam(c: Codec, caseName: string, params: seq<ParamPlan>, node: Value, i: nat, e: SwonError)
    requires params != [] && forall p :: p in params ==> KeysAreStrings(p.ty)
    requires DecodeParam(c, caseName, params[0], node).Success?
    requires FirstFailingParam(c, caseName, params[1..], node, i, e)
    ensures FirstFailingParam(c, caseName, params, node, i + 1, e)
  {
    forall j | 0 <= j < i + 1 ensures DecodeParam(c, caseName, params[j], node).Success? {
      if j > 0 {
        assert params[j] == params[1..][j - 1];
      }
    }
    assert params[i + 1] == params[1..][i];
  }

  /** The first arm whose name is `key`. */
  function FindCase(cases: seq<CasePlan>, key: string): (r: Option<CasePlan>)
    ensures r.Some? ==> r.value in cases && r.value.name == key
    ensures r.None? ==> forall cp :: cp in cases ==> cp.name != key
  {
    if cases == [] then None
    else if cases[0].name == key then Some(cases[0])
    else FindCase(cases[1..], key)
  }

  /**
   * The initialiser of an enum with associated values: the key of the
   * root's first member selects the case, and that member's value holds
   * the parameters.  The "Unknown enum case" message interpolates the key's
   * C pointer, not its text: `keyPointer` is how that pointer prints (an
   * address), which the model leaves open.
   */
  function DecodeCases(c: Codec, typeName: string, cases: seq<CasePlan>, root: Value, keyPointer: string): Result<TValue, SwonError>
    requires forall cp, p :: cp in cases && p in cp.params ==> KeysAreStrings(p.ty)
  {
    var child := MapFirst(root);
    match MapKey(child)
    case None => Failure(Invalid("Unable to find enum dictionary"))
    case Some(key) =>
      match FindCase(cases, key)
      case None => Failure(Invalid("Unknown enum case '" + keyPointer + "'"))
      case Some(cp) =>
        var args :- DecodeParams(c, cp.name, cp.params, child[0].value);
        Success(TCase(typeName, cp.name, args))
  }

  /**
   * Case selection: a root without a first keyed member throws "Unable to
   * find enum dictionary", an unknown first key "Unknown enum case" with
   * the printed key pointer, and a known one decodes that case from the
   * first member's value.
   */
  lemma CaseSelection(c: Codec, typeName: string, cases: seq<CasePlan>, root: Value, keyPointer: string)
    requires forall cp, p :: cp in cases && p in cp.params ==> KeysAreStrings(p.ty)
    ensures !root.Object? || root.members == [] ==>
              DecodeCases(c, typeName, cases, root, keyPointer) == Failure(Invalid("Unable to find enum dictionary"))
    ensures root.Object? && root.members != [] && FindCase(cases, root.members[0].key).None? ==>
              DecodeCases(c, typeName, cases, root, keyPointer) == Failure(Invalid("Unknown enum case '" + keyPointer + "'"))
    ensures root.Object? && root.members != [] && FindCase(cases, root.members[0].key).Some? ==>
              var cp := FindCase(cases, root.members[0].key).value;
              DecodeCases(c, typeName, cases, root, keyPointer) ==
                match DecodeParams(c, cp.name, cp.params, root.members[0].value)
                case Success(args) => Success(TCase(typeName, cp.name, args))
                case Failure(e) => Failure(e)
  {
    if root.Array? && root.items != [] {
      assert MapFirst(root)[0].key == None;
    }
  }

  /** The generated code exists and has a body the initialiser can run. */
  predicate Runnable(plan: DecodePlan) {
    PlanKeysAreStrings(plan) && !plan.NoAssignments?
  }

  /** The generated `init(fromSWON:)`; `keyPointer` as in `DecodeCases`. */
  function Decode(c: Codec, plan: DecodePlan, root: Value, keyPointer: string): Result<TValue, SwonError>
    requires Runnable(plan)
  {
    match plan
    case FieldsPlan(typeName, fields) =>
      var entries :- DecodeFields(c, fields, root);
      Success(TNested(typeName, entries))
    case RawPlan(typeName, kind, table) => DecodeRaw(typeName, kind, table, root)
    case CasesPlan(typeName, cases) => DecodeCases(c, typeName, cases, root, keyPointer)
  }

  /**
   * The generated `init(fromJSON:)`: `parsed` is the parser's result, and
   * `errorText` what the parser's error pointer shows.  A failed parse and
   * the text `null` throw `invalid("At ...")`.
   */
  function FromJson(c: Codec, plan: DecodePlan, parsed: Option<Value>, errorText: string, keyPointer: string): (r: Result<TValue, SwonError>)
    requires Runnable(plan)
    ensures parsed == None || parsed == Some(Null) ==> r == Failure(Invalid("At " + errorText))
    ensures parsed.Some? && parsed.value != Null ==> r == Decode(c, plan, parsed.value, keyPointer)
  {
    var (result, root) := Create(parsed, None);
    if result != ResultValid then Failure(Invalid("At " + errorText))
    else Decode(c, plan, root.value, keyPointer)
  }
}

/**
 * The two generated directions composed: what `toSWON()` builds,
 * `init(fromSWON:)` reads back unchanged.  Nested custom types are
 * assumed to round-trip through their own codecs.
 */
module RoundTrip {
  import opened Wrappers
  import opened SwonC
  import opened Swon
  import opened Helpers
  import opened Typed
  import opened Decoding
  import opened Encoding

  /** Every nested type's `toSWON()` gives a non-NULL node its `init(fromSWON:)` decodes back. */
  ghost predicate CodecRoundTrips(c: Codec) {
    forall name: string, x: TValue ::
      c.encode(name, x).Success? ==>
        c.encode(name, x).value != Null && c.decode(name, c.encode(name, x).value) == Success(x)
  }

  /** Storing a key not yet present appends it. */
  lemma {:induction false} PutFresh(acc: seq<Entry>, k: string, v: TValue)
    requires forall i :: 0 <= i < |acc| ==> acc[i].key != k
    ensures Put(acc, k, v) == acc + [Entry(k, v)]
  {
    if acc != [] {
      calc {
        Put(acc, k, v);
        { assert acc[0].key != k; }
        [acc[0]] + Put(acc[1..], k, v);
        { PutFresh(acc[1..], k, v); }
        [acc[0]] + (acc[1..] + [Entry(k, v)]);
        { assert [acc[0]] + acc[1..] == acc; }
        acc + [Entry(k, v)];
      }
    }
  }

  /** Items that each decode to the matching value are decoded, in order, after `list`. */
  lemma {:induction false} DecodeListAll(c: Codec, e: DecodedType, items: seq<Value>, values: seq<TValue>,
                                         field: string, list: seq<TValue>)
    requires KeysAreStrings(e) && |items| == |values|
    requires forall j :: 0 <= j < |items| ==> DecodeItem(c, e, items[j], field, false) == Success(values[j])
    ensures DecodeList(c, e, items, field, list) == Success(list + values)
    decreases |items|
  {
    if items == [] {
      assert list + values == list;
    } else {
      assert DecodeItem(c, e, items[0], field, false) == Success(values[0]);
      assert DecodeList(c, e, items, field, list) == DecodeList(c, e, items[1..], field, list + [values[0]]);
      forall j | 0 <= j < |items[1..]| ensures DecodeItem(c, e, items[1..][j], field, false) == Success(values[1..][j]) {
        assert items[1..][j] == items[j + 1];
      }
      DecodeListAll(c, e, items[1..], values[1..], field, list + [values[0]]);
      assert list + [values[0]] + values[1..] == list + values;
    }
  }

  /** One turn of the dictionary loop over a node whose key is new and whose value decodes: an append. */
  lemma DecodeEntriesStep(c: Codec, v: DecodedType, cursor: Cursor, field: string, acc: seq<Entry>, e: Entry)
    requires KeysAreStrings(v) && cursor != [] && cursor[0].key == Some(e.key)
    requires DecodeItem(c, v, cursor[0].value, field, false) == Success(e.value)
    requires forall i :: 0 <= i < |acc| ==> acc[i].key != e.key
    ensures DecodeEntries(c, v, cursor, field, acc) == DecodeEntries(c, v, cursor[1..], field, acc + [e])
  {
    PutFresh(acc, e.key, e.value);
  }

  /** Dropping the first entry keeps the keys distinct and moves its key into `acc`. */
  lemma DistinctTail(entries: seq<Entry>, acc: seq<Entry>)
    requires entries != [] && DistinctKeys(entries)
    requires forall i, j :: 0 <= i < |acc| && 0 <= j < |entries| ==> acc[i].key != entries[j].key
    ensures DistinctKeys(entries[1..])
    ensures forall i, j :: 0 <= i < |acc + [entries[0]]| && 0 <= j < |entries[1..]| ==>
              (acc + [entries[0]])[i].key != entries[1..][j].key
  {
    var rest := entries[1..];
    var acc' := acc + [entries[0]];
    forall i, j | 0 <= i < |acc'| && 0 <= j < |rest| ensures acc'[i].key != rest[j].key {
      assert rest[j] == entries[j + 1];
      if i == |acc| {
        assert acc'[i] == entries[0];
      } else {
        assert acc'[i] == acc[i];
      }
    }
    forall i, j | 0 <= i < j < |rest| ensures rest[i].key != rest[j].key {
      assert rest[i] == entries[i + 1] && rest[j] == entries[j + 1];
    }
  }

  /** The nodes after the first still carry the keys and values of the entries after the first. */
  lemma CursorTail(c: Codec, v: DecodedType, cursor: Cursor, entries: seq<Entry>, field: string)
    requires KeysAreStrings(v) && cursor != [] && |cursor| == |entries|
    requires forall j :: 0 <= j < |cursor| ==> cursor[j].key == Some(entries[j].key)
    requires forall j :: 0 <= j < |cursor| ==> DecodeItem(c, v, cursor[j].value, field, false) == Success(entries[j].value)
    ensures forall j :: 0 <= j < |cursor[1..]| ==> cursor[1..][j].key == Some(entries[1..][j].key)
    ensures forall j :: 0 <= j < |cursor[1..]| ==>
              DecodeItem(c, v, cursor[1..][j].value, field, false) == Success(entries[1..][j].value)
  {
    forall j | 0 <= j < |cursor[1..]|
      ensures cursor[1..][j].key == Some(entries[1..][j].key)
      ensures DecodeItem(c, v, cursor[1..][j].value, field, false) == Success(entries[1..][j].value)
    {
      assert cursor[1..][j] == cursor[j + 1] && entries[1..][j] == entries[j + 1];
    }
  }

  /**
   * A cursor over distinct keys whose nodes decode to the given entries is
   * decoded into exactly those entries, in order, after `acc`.
   */
  lemma {:induction false} DecodeDistinctEntries(c: Codec, v: DecodedType, cursor: Cursor, entries: seq<Entry>,
                                                 field: string, acc: seq<Entry>)
    requires KeysAreStrings(v) && |cursor| == |entries|
    requires forall j :: 0 <= j < |cursor| ==> cursor[j].key == Some(entries[j].key)
    requires forall j :: 0 <= j < |cursor| ==> DecodeItem(c, v, cursor[j].value, field, false) == Success(entries[j].value)
    requires DistinctKeys(entries)
    requires forall i, j :: 0 <= i < |acc| && 0 <= j < |entries| ==> acc[i].key != entries[j].key
    ensures DecodeEntries(c, v, cursor, field, acc) == Success(acc + entries)
    decreases |cursor|
  {
    if cursor == [] {
      assert acc + entries == acc;
    } else {
      var acc' := acc + [entries[0]];
      calc {
        DecodeEntries(c, v, cursor, field, acc);
        { DecodeEntriesStep(c, v, cursor, field, acc, entries[0]); }
        DecodeEntries(c, v, cursor[1..], field, acc');
        { CursorTail(c, v, cursor, entries, field);
          DistinctTail(entries, acc);
          DecodeDistinctEntries(c, v, cursor[1..], entries[1..], field, acc'); }
        Success(acc' + entries[1..]);
        { assert acc' + entries[1..] == acc + entries; }
        Success(acc + entries);
      }
    }
  }

  /**
   * A node `mapItem` builds for a value of `t` is not NULL and decodes back
   * to that value, under any field name and optionality.
   */
  lemma {:induction false} NodeRoundTrip(b: Builder, c: Codec, t: DecodedType, x: TValue, varName: string, parentName: string,
                                         nesting: nat, field: string, isOptional: bool)
    requires CodecRoundTrips(c) && Supported(t) && !t.Optional? && HasType(x, t)
    requires EncodeNode(b, c, t, x, varName, parentName, nesting).Success?
    ensures KeysAreStrings(t)
    ensures EncodeNode(b, c, t, x, varName, parentName, nesting).value != Null
    ensures DecodeItem(c, t, EncodeNode(b, c, t, x, varName, parentName, nesting).value, field, isOptional) == Success(x)
    decreases t, 1
  {
    SupportedTypes(t);
    match t
    case Scalar(name) => ScalarRoundTrip(b, c, name, x, varName + "JSON", field, isOptional);
    case ArrayOf(e) => ArrayRoundTrip(b, c, e, x, varName, parentName, nesting, field, isOptional);
    case Dictionary(k, v) => DictionaryRoundTrip(b, c, k, v, x, varName, parentName, nesting, field, isOptional);
  }

  /** A scalar item decodes back: builtins through their getters, other types through their own codec. */
  lemma ScalarRoundTrip(b: Builder, c: Codec, name: string, x: TValue, itemName: string, field: string, isOptional: bool)
    requires CodecRoundTrips(c) && HasType(x, Scalar(name))
    requires EncodeScalar(b, c, name, x, itemName).Success?
    ensures EncodeScalar(b, c, name, x, itemName).value != Null
    ensures DecodeItem(c, Scalar(name), EncodeScalar(b, c, name, x, itemName).value, field, isOptional) == Success(x)
  {
    var node := EncodeScalar(b, c, name, x, itemName).value;
    if IsBuiltin(name) {
      ScalarDecoding(c, name, node, field, isOptional);
    } else {
      NestedDecoding(c, name, node, field, isOptional);
      assert c.encode(name, x).Success?;
    }
  }

  /** An array node decodes back to the list it was built from. */
  lemma {:induction false} ArrayRoundTrip(b: Builder, c: Codec, e: DecodedType, x: TValue, varName: string, parentName: string,
                                          nesting: nat, field: string, isOptional: bool)
    requires CodecRoundTrips(c) && Supported(ArrayOf(e)) && HasType(x, ArrayOf(e))
    requires EncodeNode(b, c, ArrayOf(e), x, varName, parentName, nesting).Success?
    ensures KeysAreStrings(ArrayOf(e))
    ensures EncodeNode(b, c, ArrayOf(e), x, varName, parentName, nesting).value != Null
    ensures DecodeItem(c, ArrayOf(e), EncodeNode(b, c, ArrayOf(e), x, varName, parentName, nesting).value, field, isOptional) == Success(x)
    decreases ArrayOf(e), 0
  {
    SupportedTypes(ArrayOf(e));
    ArrayNodeStep(b, c, e, x, varName, parentName, nesting);
    var items := EncodeElements(b, c, e, x.items, varName, parentName, nesting, []).value;
    ElementsRoundTrip(b, c, e, x.items, varName, parentName, nesting, [], field + "[]");
    forall j | 0 <= j < |items| ensures DecodeItem(c, e, items[j], field + "[]", false) == Success(x.items[j]) {
      var none: seq<Value> := [];
      assert items[|none| + j] == items[j];
    }
    DecodeArrayOf(c, e, items, x.items, field, isOptional);
  }

  /** An array whose items each decode to the matching value decodes to the list of those values. */
  lemma DecodeArrayOf(c: Codec, e: DecodedType, items: seq<Value>, values: seq<TValue>, field: string, isOptional: bool)
    requires KeysAreStrings(e) && |items| == |values|
    requires forall j :: 0 <= j < |items| ==> DecodeItem(c, e, items[j], field + "[]", false) == Success(values[j])
    ensures DecodeItem(c, ArrayOf(e), Array(items), field, isOptional) == Success(TList(values))
  {
    ArrayElementsAreItems(Array(items));
    DecodeListAll(c, e, items, values, field + "[]", []);
    assert [] + values == values;
  }

  /** A dictionary node decodes back to the dictionary it was built from (its keys are distinct). */
  lemma {:induction false} DictionaryRoundTrip(b: Builder, c: Codec, k: DecodedType, v: DecodedType, x: TValue, varName: string,
                                               parentName: string, nesting: nat, field: string, isOptional: bool)
    requires CodecRoundTrips(c) && Supported(Dictionary(k, v)) && HasType(x, Dictionary(k, v))
    requires EncodeNode(b, c, Dictionary(k, v), x, varName, parentName, nesting).Success?
    ensures KeysAreStrings(Dictionary(k, v))
    ensures EncodeNode(b, c, Dictionary(k, v), x, varName, parentName, nesting).value != Null
    ensures DecodeItem(c, Dictionary(k, v), EncodeNode(b, c, Dictionary(k, v), x, varName, parentName, nesting).value, field, isOptional)
         == Success(x)
    decreases Dictionary(k, v), 0
  {
    SupportedTypes(Dictionary(k, v));
    DictionaryNodeStep(b, c, k, v, x, varName, parentName, nesting);
    var members := EncodeMembers(b, c, v, x.entries, varName, parentName, nesting, []).value;
    MembersRoundTrip(b, c, v, x.entries, varName, parentName, nesting, [], field + "[]");
    forall j | 0 <= j < |members|
      ensures members[j].key == x.entries[j].key
      ensures DecodeItem(c, v, members[j].value, field + "[]", false) == Success(x.entries[j].value)
    {
      var none: seq<Member> := [];
      assert members[|none| + j] == members[j];
    }
    DecodeObjectOf(c, k, v, members, x.entries, field, isOptional);
  }

  /** An object whose members each decode to the matching entry decodes to the dictionary of those entries. */
  lemma DecodeObjectOf(c: Codec, k: DecodedType, v: DecodedType, members: seq<Member>, entries: seq<Entry>, field: string,
                       isOptional: bool)
    requires KeysAreStrings(Dictionary(k, v)) && |members| == |entries| && DistinctKeys(entries)
    requires forall j :: 0 <= j < |members| ==>
               members[j].key == entries[j].key &&
               DecodeItem(c, v, members[j].value, field + "[]", false) == Success(entries[j].value)
    ensures DecodeItem(c, Dictionary(k, v), Object(members), field, isOptional) == Success(TDict(entries))
  {
    ObjectDecodesToEntries(c, v, members, entries, field + "[]");
  }

  /** An object whose members carry the entries' keys, in order, and decode to their values gives those entries. */
  lemma ObjectDecodesToEntries(c: Codec, v: DecodedType, members: seq<Member>, entries: seq<Entry>, field: string)
    requires KeysAreStrings(v) && |members| == |entries| && DistinctKeys(entries)
    requires forall j :: 0 <= j < |members| ==>
               members[j].key == entries[j].key &&
               DecodeItem(c, v, members[j].value, field, false) == Success(entries[j].value)
    ensures DecodeEntries(c, v, MapFirst(Object(members)), field, []) == Success(entries)
  {
    var cursor := MapFirst(Object(members));
    forall j | 0 <= j < |cursor|
      ensures cursor[j].key == Some(entries[j].key)
      ensures DecodeItem(c, v, cursor[j].value, field, false) == Success(entries[j].value)
    {
    }
    DecodeDistinctEntries(c, v, cursor, entries, field, []);
    assert [] + entries == entries;
  }

  /**
   * The array loop appends one node per element, in order, each decoding
   * back to its element.
   */
  lemma {:induction false} ElementsRoundTrip(b: Builder, c: Codec, e: DecodedType, items: seq<TValue>, varName: string,
                                             parentName: string, nesting: nat, acc: seq<Value>, field: string)
    requires CodecRoundTrips(c) && Supported(e) && !e.Optional?
    requires forall i :: 0 <= i < |items| ==> HasType(items[i], e)
    requires EncodeElements(b, c, e, items, varName, parentName, nesting, acc).Success?
    ensures KeysAreStrings(e)
    ensures var r := EncodeElements(b, c, e, items, varName, parentName, nesting, acc).value;
      && |r| == |acc| + |items| && r[..|acc|] == acc
      && forall j :: 0 <= j < |items| ==> DecodeItem(c, e, r[|acc| + j], field, false) == Success(items[j])
    decreases e, 2, |items|
  {
    SupportedTypes(e);
    if items != [] {
      var item := EncodeNode(b, c, e, items[0], ElementName(nesting), parentName, nesting + 1).value;
      var accNext := acc + [item];
      var r := EncodeElements(b, c, e, items, varName, parentName, nesting, acc).value;
      ElementsStep(b, c, e, items, varName, parentName, nesting, acc);
      NodeRoundTrip(b, c, e, items[0], ElementName(nesting), parentName, nesting + 1, field, false);
      ElementsRoundTrip(b, c, e, items[1..], varName, parentName, nesting, accNext, field);
      ElementsShift(c, e, field, acc, item, accNext, r, items, items[1..]);
    }
  }

  /** The element facts for `acc + [item]` and the rest are the facts for `acc` and all items. */
  lemma ElementsShift(c: Codec, e: DecodedType, field: string, acc: seq<Value>, item: Value, accNext: seq<Value>,
                      r: seq<Value>, items: seq<TValue>, later: seq<TValue>)
    requires KeysAreStrings(e) && items != [] && later == items[1..] && accNext == acc + [item]
    requires |r| == |accNext| + |later| && r[..|accNext|] == accNext
    requires DecodeItem(c, e, item, field, false) == Success(items[0])
    requires forall j :: 0 <= j < |later| ==> DecodeItem(c, e, r[|accNext| + j], field, false) == Success(later[j])
    ensures |r| == |acc| + |items| && r[..|acc|] == acc
    ensures forall j :: 0 <= j < |items| ==> DecodeItem(c, e, r[|acc| + j], field, false) == Success(items[j])
  {
    forall j | 0 <= j < |items| ensures DecodeItem(c, e, r[|acc| + j], field, false) == Success(items[j]) {
      if j == 0 {
        assert r[|acc|] == r[..|accNext|][|acc|] == accNext[|acc|];
      } else {
        assert items[j] == later[j - 1] && |acc| + j == |accNext| + (j - 1);
      }
    }
    assert r[..|acc|] == r[..|accNext|][..|acc|];
  }


  /**
   * The dictionary loop adds one member per entry, in order, under the
   * entry's key, each decoding back to the entry's value.
   */
  lemma {:induction false} MembersRoundTrip(b: Builder, c: Codec, v: DecodedType, entries: seq<Entry>, varName: string,
                                            parentName: string, nesting: nat, acc: seq<Member>, field: string)
    requires CodecRoundTrips(c) && Supported(v) && !v.Optional?
    requires forall i :: 0 <= i < |entries| ==> HasType(entries[i].value, v)
    requires EncodeMembers(b, c, v, entries, varName, parentName, nesting, acc).Success?
    ensures KeysAreStrings(v)
    ensures var r := EncodeMembers(b, c, v, entries, varName, parentName, nesting, acc).value;
      && |r| == |acc| + |entries| && r[..|acc|] == acc
      && forall j :: 0 <= j < |entries| ==>
           r[|acc| + j].key == entries[j].key && DecodeItem(c, v, r[|acc| + j].value, field, false) == Success(entries[j].value)
    decreases v, 2, |entries|
  {
    SupportedTypes(v);
    if entries != [] {
      var key := entries[0].key;
      var item := EncodeNode(b, c, v, entries[0].value, ElementName(nesting), parentName, nesting + 1).value;
      var acc' := acc + [Member(key, item)];
      var r := EncodeMembers(b, c, v, entries, varName, parentName, nesting, acc).value;
      MembersStep(b, c, v, entries, varName, parentName, nesting, acc);
      NodeRoundTrip(b, c, v, entries[0].value, ElementName(nesting), parentName, nesting + 1, field, false);
      MembersRoundTrip(b, c, v, entries[1..], varName, parentName, nesting, acc', field);
      MembersShift(c, v, field, acc, Member(key, item), acc', r, entries, entries[1..]);
    }
  }

  /** The member facts for `acc + [m]` and the rest are the facts for `acc` and all entries. */
  lemma MembersShift(c: Codec, v: DecodedType, field: string, acc: seq<Member>, m: Member, accNext: seq<Member>,
                     r: seq<Member>, entries: seq<Entry>, later: seq<Entry>)
    requires KeysAreStrings(v) && entries != [] && later == entries[1..] && accNext == acc + [m]
    requires |r| == |accNext| + |later| && r[..|accNext|] == accNext
    requires m.key == entries[0].key && DecodeItem(c, v, m.value, field, false) == Success(entries[0].value)
    requires forall j :: 0 <= j < |later| ==>
               r[|accNext| + j].key == later[j].key &&
               DecodeItem(c, v, r[|accNext| + j].value, field, false) == Success(later[j].value)
    ensures |r| == |acc| + |entries| && r[..|acc|] == acc
    ensures forall j :: 0 <= j < |entries| ==>
              r[|acc| + j].key == entries[j].key && DecodeItem(c, v, r[|acc| + j].value, field, false) == Success(entries[j].value)
  {
    forall j | 0 <= j < |entries|
      ensures r[|acc| + j].key == entries[j].key && DecodeItem(c, v, r[|acc| + j].value, field, false) == Success(entries[j].value)
    {
      if j == 0 {
        assert r[|acc|] == r[..|accNext|][|acc|] == accNext[|acc|];
      } else {
        assert entries[j] == later[j - 1] && |acc| + j == |accNext| + (j - 1);
      }
    }
    assert r[..|acc|] == r[..|accNext|][..|acc|];
  }


  /** `cJSON_GetObjectItemCaseSensitive` over appended members: the earlier part wins. */
  lemma {:induction false} FirstMatchAppend(a: seq<Member>, b: seq<Member>, k: string)
    ensures FirstMatch(a + b, k) == if FirstMatch(a, k).Some? then FirstMatch(a, k) else FirstMatch(b, k)
  {
    if a == [] {
      assert a + b == b;
    } else {
      assert (a + b)[0] == a[0];
      if a[0].key != k {
        assert (a + b)[1..] == a[1..] + b;
        FirstMatchAppend(a[1..], b, k);
      }
    }
  }

  /**
   * A field statement adds nothing for `nil` and otherwise appends one
   * member under the field name whose node is not NULL and decodes back
   * to the field's value.
   */
  lemma {:induction false} FieldRoundTrip(b: Builder, c: Codec, t: DecodedType, x: TValue, name: string, parentName: string,
                                          isOptional: bool, parent: Value)
    requires CodecRoundTrips(c) && parent.Object? && Supported(t) && ((isOptional && x.TNil?) || HasType(x, t))
    requires EncodeField(b, c, t, x, name, parentName, isOptional, parent).Success?
    ensures KeysAreStrings(t)
    ensures var r := EncodeField(b, c, t, x, name, parentName, isOptional, parent).value;
      && (x.TNil? ==> r == parent)
      && (!x.TNil? ==>
            && |r.members| == |parent.members| + 1
            && r.members == parent.members + [Member(name, r.members[|parent.members|].value)]
            && r.members[|parent.members|].value != Null
            && DecodeItem(c, t, r.members[|parent.members|].value, name, isOptional) == Success(x))
    decreases t
  {
    SupportedTypes(t);
    match t
    case Optional(w) =>
      FieldRoundTrip(b, c, w, x, name, parentName, true, parent);
    case _ =>
      if !(isOptional && x.TNil?) {
        FieldAttach(b, c, t, x, name, parentName, isOptional, parent);
        NodeRoundTrip(b, c, t, x, name, parentName, 0, name, isOptional);
      }
  }

  /** The field names are pairwise different (Swift rejects a redeclared property). */
  predicate DistinctNames(fields: seq<FieldPlan>) {
    forall i, j :: 0 <= i < j < |fields| ==> fields[i].name != fields[j].name
  }

  /** Each field is read with `try?` exactly when its type is optional, as `expansion` plans it. */
  predicate OptionalFlags(fields: seq<FieldPlan>) {
    forall i :: 0 <= i < |fields| ==> (fields[i].optional <==> fields[i].ty.Optional?)
  }

  /**
   * The field statements only append to `root`, and only under field
   * names.
   */
  lemma {:induction false} FieldsAppend(b: Builder, c: Codec, fields: seq<FieldPlan>, values: seq<Entry>, root: Value)
    requires root.Object? && |values| == |fields|
    requires forall i :: 0 <= i < |fields| ==> Supported(fields[i].ty) && HasType(values[i].value, fields[i].ty)
    requires EncodeFields(b, c, fields, values, root).Success?
    ensures var r := EncodeFields(b, c, fields, values, root).value;
      && r.Object? && |root.members| <= |r.members| && r.members[..|root.members|] == root.members
      && forall j :: |root.members| <= j < |r.members| ==> NamedIn(r.members[j].key, fields)
  {
    if fields != [] {
      var r := EncodeFields(b, c, fields, values, root).value;
      var r0 := EncodeField(b, c, fields[0].ty, values[0].value, fields[0].name, "root", fields[0].optional, root).value;
      FieldsStep(b, c, fields, values, root);
      TypedFieldsTail(fields, values);
      FieldsAppend(b, c, fields[1..], values[1..], r0);
      AppendedKeys(fields, fields[1..], root, r0, r);
    }
  }

  /** `k` is the name of one of `fields`. */
  predicate NamedIn(k: string, fields: seq<FieldPlan>) {
    exists i :: 0 <= i < |fields| && k == fields[i].name
  }

  /** Members appended by the first field and then by the later ones all carry a field's name. */
  lemma AppendedKeys(fields: seq<FieldPlan>, later: seq<FieldPlan>, root: Value, r0: Value, r: Value)
    requires fields != [] && later == fields[1..]
    requires root.Object? && r0.Object? && r.Object?
    requires |root.members| <= |r0.members| && r0.members[..|root.members|] == root.members
    requires forall j :: |root.members| <= j < |r0.members| ==> r0.members[j].key == fields[0].name
    requires |r0.members| <= |r.members| && r.members[..|r0.members|] == r0.members
    requires forall j :: |r0.members| <= j < |r.members| ==> NamedIn(r.members[j].key, later)
    ensures |root.members| <= |r.members| && r.members[..|root.members|] == root.members
    ensures forall j :: |root.members| <= j < |r.members| ==> NamedIn(r.members[j].key, fields)
  {
    forall j | |root.members| <= j < |r.members| ensures NamedIn(r.members[j].key, fields) {
      if j < |r0.members| {
        assert r.members[j] == r.members[..|r0.members|][j];
        assert r.members[j].key == fields[0].name;
      } else {
        var i :| 0 <= i < |later| && r.members[j].key == later[i].name;
        assert later[i] == fields[i + 1];
      }
    }
    assert r.members[..|root.members|] == r.members[..|r0.members|][..|root.members|];
  }

  /**
   * The first field, read back from the finished root: its own member is
   * the first one under its name (or there is none, for `nil`).
   */
  lemma FirstFieldReadBack(c: Codec, f: FieldPlan, x: TValue, root: Value, r0: Value, r: Value)
    requires KeysAreStrings(f.ty) && (f.optional <==> f.ty.Optional?) && (f.optional || !x.TNil?)
    requires root.Object? && r0.Object? && r.Object? && |r0.members| <= |r.members|
    requires forall j :: 0 <= j < |root.members| ==> root.members[j].key != f.name
    requires x.TNil? ==> r0 == root
    requires !x.TNil? ==>
               && |r0.members| == |root.members| + 1
               && r0.members == root.members + [Member(f.name, r0.members[|root.members|].value)]
               && r0.members[|root.members|].value != Null
               && DecodeItem(c, f.ty, r0.members[|root.members|].value, f.name, f.optional) == Success(x)
    requires r.members[..|r0.members|] == r0.members
    requires forall j :: |r0.members| <= j < |r.members| ==> r.members[j].key != f.name
    ensures DecodeField(c, f, r) == Success(x)
  {
    var extra := r.members[|r0.members|..];
    assert r.members == r0.members + extra;
    assert FirstMatch(extra, f.name).None? by {
      forall j | 0 <= j < |extra| ensures extra[j].key != f.name {
        assert extra[j] == r.members[|r0.members| + j];
      }
    }
    FirstMatchAppend(r0.members, extra, f.name);
    FieldDecoding(c, f, r);
    if !x.TNil? {
      FirstMatchAppend(root.members, [Member(f.name, r0.members[|root.members|].value)], f.name);
    }
  }

  /**
   * After the first field is written, the remaining fields still meet
   * the object that now holds it with fresh names, and their names stay
   * distinct.
   */
  lemma FieldsTail(fields: seq<FieldPlan>, root: Value, r0: Value)
    requires fields != [] && DistinctNames(fields) && root.Object? && r0.Object?
    requires forall j, i :: 0 <= j < |root.members| && 0 <= i < |fields| ==> root.members[j].key != fields[i].name
    requires |root.members| <= |r0.members| <= |root.members| + 1 && r0.members[..|root.members|] == root.members
    requires |r0.members| > |root.members| ==> r0.members[|root.members|].key == fields[0].name
    ensures DistinctNames(fields[1..])
    ensures forall j, i :: 0 <= j < |r0.members| && 0 <= i < |fields[1..]| ==> r0.members[j].key != fields[1..][i].name
  {
    forall j, i | 0 <= j < |r0.members| && 0 <= i < |fields[1..]| ensures r0.members[j].key != fields[1..][i].name {
      assert fields[1..][i] == fields[i + 1];
      if j < |root.members| {
        assert r0.members[j] == r0.members[..|root.members|][j];
      }
    }
    forall i, j | 0 <= i < j < |fields[1..]| ensures fields[1..][i].name != fields[1..][j].name {
      assert fields[1..][i] == fields[i + 1] && fields[1..][j] == fields[j + 1];
    }
  }

  /** Members the later fields append never carry the first field's name. */
  lemma LaterMembersSkipFirst(fields: seq<FieldPlan>, later: seq<FieldPlan>, r0: Value, r: Value)
    requires fields != [] && later == fields[1..] && DistinctNames(fields)
    requires r0.Object? && r.Object? && |r0.members| <= |r.members|
    requires forall j :: |r0.members| <= j < |r.members| ==> NamedIn(r.members[j].key, later)
    ensures forall j :: |r0.members| <= j < |r.members| ==> r.members[j].key != fields[0].name
  {
    forall j | |r0.members| <= j < |r.members| ensures r.members[j].key != fields[0].name {
      var i :| 0 <= i < |later| && r.members[j].key == later[i].name;
      assert later[i] == fields[i + 1];
    }
  }

  /**
   * Every field of an encoded struct reads back: the generated
   * `init(fromSWON:)` finds each field's member and decodes its value.
   */
  lemma {:induction false} FieldsRoundTrip(b: Builder, c: Codec, fields: seq<FieldPlan>, values: seq<Entry>, root: Value)
    requires CodecRoundTrips(c) && root.Object? && |values| == |fields|
    requires forall i :: 0 <= i < |fields| ==> Supported(fields[i].ty) && HasType(values[i].value, fields[i].ty)
    requires DistinctNames(fields) && OptionalFlags(fields)
    requires forall j, i :: 0 <= j < |root.members| && 0 <= i < |fields| ==> root.members[j].key != fields[i].name
    requires EncodeFields(b, c, fields, values, root).Success?
    ensures var r := EncodeFields(b, c, fields, values, root).value;
      forall i :: 0 <= i < |fields| ==> KeysAreStrings(fields[i].ty) && DecodeField(c, fields[i], r) == Success(values[i].value)
  {
    if fields != [] {
      var r := EncodeFields(b, c, fields, values, root).value;
      var f := fields[0];
      var x := values[0].value;
      var r0 := EncodeField(b, c, f.ty, x, f.name, "root", f.optional, root).value;
      FieldsStep(b, c, fields, values, root);
      FieldRoundTrip(b, c, f.ty, x, f.name, "root", f.optional, root);
      FieldsTail(fields, root, r0);
      TypedFieldsTail(fields, values);
      FieldsRoundTrip(b, c, fields[1..], values[1..], r0);
      FieldsAppend(b, c, fields[1..], values[1..], r0);
      FieldsReadBackAll(c, fields, values, fields[1..], values[1..], root, r0, r);
    }
  }

  /** The later fields are typed and flagged like the whole list; a present first field is not `nil`. */
  lemma TypedFieldsTail(fields: seq<FieldPlan>, values: seq<Entry>)
    requires fields != [] && |values| == |fields|
    requires forall i :: 0 <= i < |fields| ==> Supported(fields[i].ty) && HasType(values[i].value, fields[i].ty)
    ensures forall i :: 0 <= i < |fields[1..]| ==> Supported(fields[1..][i].ty) && HasType(values[1..][i].value, fields[1..][i].ty)
    ensures OptionalFlags(fields) ==> OptionalFlags(fields[1..])
  {
    forall i | 0 <= i < |fields[1..]|
      ensures Supported(fields[1..][i].ty) && HasType(values[1..][i].value, fields[1..][i].ty)
    {
      assert fields[1..][i] == fields[i + 1] && values[1..][i] == values[i + 1];
    }
    if OptionalFlags(fields) {
      forall i | 0 <= i < |fields[1..]| ensures (fields[1..][i].optional <==> fields[1..][i].ty.Optional?) {
        assert fields[1..][i] == fields[i + 1];
      }
    }
  }

  /**
   * The read-back step of `FieldsRoundTrip` on plain values: the first
   * field's member is the first under its name in `r`, and the later
   * fields already read back from `r`.
   */
  lemma FieldsReadBackAll(c: Codec, fields: seq<FieldPlan>, values: seq<Entry>, later: seq<FieldPlan>,
                          laterValues: seq<Entry>, root: Value, r0: Value, r: Value)
    requires fields != [] && |values| == |fields| && later == fields[1..] && laterValues == values[1..]
    requires DistinctNames(fields)
    requires KeysAreStrings(fields[0].ty) && (fields[0].optional <==> fields[0].ty.Optional?)
    requires fields[0].optional || !values[0].value.TNil?
    requires root.Object? && r0.Object? && r.Object?
    requires forall j, i :: 0 <= j < |root.members| && 0 <= i < |fields| ==> root.members[j].key != fields[i].name
    requires values[0].value.TNil? ==> r0 == root
    requires !values[0].value.TNil? ==>
               && |r0.members| == |root.members| + 1
               && r0.members == root.members + [Member(fields[0].name, r0.members[|root.members|].value)]
               && r0.members[|root.members|].value != Null
               && DecodeItem(c, fields[0].ty, r0.members[|root.members|].value, fields[0].name, fields[0].optional)
                  == Success(values[0].value)
    requires |r0.members| <= |r.members| && r.members[..|r0.members|] == r0.members
    requires forall j :: |r0.members| <= j < |r.members| ==> NamedIn(r.members[j].key, later)
    requires forall i :: 0 <= i < |later| ==>
               KeysAreStrings(later[i].ty) && DecodeField(c, later[i], r) == Success(laterValues[i].value)
    ensures forall i :: 0 <= i < |fields| ==>
              KeysAreStrings(fields[i].ty) && DecodeField(c, fields[i], r) == Success(values[i].value)
  {
    LaterMembersSkipFirst(fields, later, r0, r);
    FirstFieldReadBack(c, fields[0], values[0].value, root, r0, r);
    FieldsReadBackCons(c, fields, values, later, laterValues, r);
  }

  /** The first field and the later ones read back from `r` make all the fields read back. */
  lemma FieldsReadBackCons(c: Codec, fields: seq<FieldPlan>, values: seq<Entry>, later: seq<FieldPlan>,
                           laterValues: seq<Entry>, r: Value)
    requires fields != [] && |values| == |fields| && later == fields[1..] && laterValues == values[1..]
    requires KeysAreStrings(fields[0].ty) && DecodeField(c, fields[0], r) == Success(values[0].value)
    requires forall i :: 0 <= i < |later| ==>
               KeysAreStrings(later[i].ty) && DecodeField(c, later[i], r) == Success(laterValues[i].value)
    ensures forall i :: 0 <= i < |fields| ==>
              KeysAreStrings(fields[i].ty) && DecodeField(c, fields[i], r) == Success(values[i].value)
  {
    forall i | 0 <= i < |fields| ensures KeysAreStrings(fields[i].ty) && DecodeField(c, fields[i], r) == Success(values[i].value) {
      if i > 0 {
        assert fields[i] == later[i - 1] && values[i] == laterValues[i - 1];
      }
    }
  }

  /**
   * Struct round trip: the generated `init(fromSWON:)` reads back exactly
   * the struct its `toSWON()` wrote.
   */
  lemma StructRoundTrip(b: Builder, c: Codec, typeName: string, fields: seq<FieldPlan>, x: TValue, keyPointer: string)
    requires CodecRoundTrips(c) && StructValue(x, typeName, fields) && DistinctNames(fields) && OptionalFlags(fields)
    requires EncodeStruct(b, c, typeName, fields, x).Success?
    ensures Runnable(FieldsPlan(typeName, fields))
    ensures Decode(c, FieldsPlan(typeName, fields), EncodeStruct(b, c, typeName, fields, x).value, keyPointer) == Success(x)
  {
    var root := EncodeStruct(b, c, typeName, fields, x).value;
    FieldsRoundTrip(b, c, fields, x.fields, Object([]));
    forall f | f in fields ensures KeysAreStrings(f.ty) {
      var i :| 0 <= i < |fields| && fields[i] == f;
    }
    DecodeFieldsSpec(c, fields, root);
    var r := DecodeFields(c, fields, root);
    assert r.Success?;
    assert r.value == x.fields;
  }

  /** Swift's rule for raw-value enums: no two cases share a raw value. */
  predicate DistinctRaws(table: seq<RawCase>) {
    forall i, j :: 0 <= i < j < |table| ==> table[i].raw != table[j].raw
  }

  /** With distinct raw values, the lookup by raw value finds the case that owns it. */
  lemma FindOwnRaw(table: seq<RawCase>, i: nat)
    requires DistinctRaws(table) && i < |table|
    ensures FindRaw(table, table[i].raw) == Some(table[i].caseName)
  {
    var r := FindRaw(table, table[i].raw);
    var j :| 0 <= j < |table| && table[j] == RawCase(r.value, table[i].raw);
    assert j == i;
  }

  /** Raw-value enum round trip: the case's raw value is written and maps back to the case. */
  lemma RawRoundTrip(b: Builder, typeName: string, kind: RawKind, table: seq<RawCase>, x: TValue)
    requires Encodable(RawEncoder(typeName, kind, table), x) && DistinctRaws(table)
    requires EncodeRaw(b, typeName, kind, table, x).Success?
    ensures DecodeRaw(typeName, kind, table, EncodeRaw(b, typeName, kind, table, x).value) == Success(x)
  {
    var raw := RawOf(table, x.caseName).value;
    var i :| 0 <= i < |table| && table[i] == RawCase(x.caseName, raw);
    FindOwnRaw(table, i);
    assert kind == StringRaw <==> raw.RawString?;
  }

  /** The decoder plan for the same declaration. */
  function DecodePlanOf(plan: EncodePlan): (r: DecodePlan)
    ensures !r.NoAssignments? && !r.CasesPlan?
  {
    match plan
    case FieldsEncoder(typeName, fields) => FieldsPlan(typeName, fields)
    case RawEncoder(typeName, kind, table) => RawPlan(typeName, kind, table)
  }

  /**
   * Whatever `SWONEncodeMacro` expands, `SWONDecodeMacro` expands into the
   * matching initialiser (same fields, same raw kind); enums with
   * associated values have no encoder.
   */
  lemma ExpansionsAgree(decl: Decl)
    requires EncodeExpansion(decl).Success?
    requires decl.EnumDecl? ==> !HasAssociatedValues(decl.members)
    ensures Expansion(decl) == Success(DecodePlanOf(EncodeExpansion(decl).value))
    ensures decl.StructDecl? ==> OptionalFlags(EncodeExpansion(decl).value.fields)
  {
    if decl.StructDecl? {
      var fields := FieldPlans(decl.members);
      forall f | f in fields ensures KeysAreStrings(f.ty) {
        var i :| 0 <= i < |fields| && fields[i] == f;
        SupportedTypes(f.ty);
      }
      FieldPlansSpec(decl.members, []);
      assert decl.members + [] == decl.members;
    }
  }

  /** The properties the round trip needs of a plan, which Swift guarantees of a compiled declaration. */
  predicate WellFormed(plan: EncodePlan) {
    match plan
    case FieldsEncoder(_, fields) => DistinctNames(fields) && OptionalFlags(fields)
    case RawEncoder(_, _, table) => DistinctRaws(table)
  }

  /**
   * decode(encode(v)) == v: for every value of a declaration both macros
   * expand, when `toSWON()` succeeds, `init(fromSWON:)` gives it back.
   */
  lemma EncodeThenDecode(b: Builder, c: Codec, plan: EncodePlan, x: TValue, keyPointer: string)
    requires CodecRoundTrips(c) && Encodable(plan, x) && WellFormed(plan)
    requires Encode(b, c, plan, x).Success?
    ensures Runnable(DecodePlanOf(plan))
    ensures Decode(c, DecodePlanOf(plan), Encode(b, c, plan, x).value, keyPointer) == Success(x)
  {
    match plan
    case FieldsEncoder(typeName, fields) => StructRoundTrip(b, c, typeName, fields, x, keyPointer);
    case RawEncoder(typeName, kind, table) => RawRoundTrip(b, typeName, kind, table, x);
  }
}

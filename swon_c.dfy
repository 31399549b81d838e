/**
 * The C accessor layer: a JSON tree (the cJSON node graph, here a value
 * tree) and the tri-state getters over it.  A handle (`swon_t`) is an
 * `Option<Value>`: `None` is a NULL pointer.  C out-parameters are modelled
 * by passing the caller's current value in and getting the (possibly
 * unchanged) value back, so "writes only on Valid" is visible.
 */
module SwonC {
  import opened Wrappers

  /** A JSON node; numbers are mathematical integers. */
  datatype Value =
    | Null
    | Bool(b: bool)
    | Number(n: int)
    | Str(s: string)
    | Array(items: seq<Value>)
    | Object(members: seq<Member>)

  /** An object member, in insertion order. */
  datatype Member = Member(key: string, value: Value)

  /** A `swon_t`: `None` is a NULL `impl` pointer. */
  type Handle = Option<Value>

  /** `swon_result`. */
  datatype SwonResult = ResultValid | ResultInvalid | ResultNull

  /** The guard shared by the getters: a NULL pointer or a JSON `null`. */
  predicate IsNullNode(h: Handle) {
    h.None? || h.value.Null?
  }

  /**
   * `swon_create`: `parsed` is what the parser returned for the text
   * (`None` on a parse failure).  A failed parse and the literal `null`
   * both give Null and leave `root` alone.
   */
  function Create(parsed: Option<Value>, root: Handle): (r: (SwonResult, Handle))
    ensures r.0 != ResultInvalid
    ensures r.0 == ResultNull <==> parsed == None || parsed == Some(Null)
    ensures r.0 == ResultValid ==> r.1 == parsed && r.1.Some?
    ensures r.0 == ResultNull ==> r.1 == root
  {
    if IsNullNode(parsed) then (ResultNull, root) else (ResultValid, parsed)
  }

  /** The value of the first member whose key is `field`, if any. */
  function FirstMatch(members: seq<Member>, field: string): (r: Option<Value>)
    ensures r.None? <==> forall i :: 0 <= i < |members| ==> members[i].key != field
    ensures r.Some? ==> exists i :: 0 <= i < |members| && members[i].key == field && members[i].value == r.value
                                 && forall j :: 0 <= j < i ==> members[j].key != field
  {
    if |members| == 0 then None
    else if members[0].key == field then Some(members[0].value)
    else
      var r := FirstMatch(members[1..], field);
      assert forall j :: 1 <= j < |members| ==> members[j] == members[1..][j - 1];
      if r.Some? then
        ghost var i :| 0 <= i < |members[1..]| && members[1..][i].key == field && members[1..][i].value == r.value
                       && forall j :: 0 <= j < i ==> members[1..][j].key != field;
        assert members[i + 1].key == field && members[i + 1].value == r.value;
        r
      else r
  }

  /** Case-sensitive member lookup: only an object has members to find. */
  function Lookup(json: Handle, field: string): Handle {
    if json.Some? && json.value.Object? then FirstMatch(json.value.members, field) else None
  }

  /**
   * `swon_get_object`: Null when there is no such member or it is JSON
   * `null`; otherwise Valid with the member.  Never Invalid.
   */
  function GetObject(json: Handle, field: string, item: Handle): (r: (SwonResult, Handle))
    ensures r.0 != ResultInvalid
    ensures r.0 == ResultNull <==> IsNullNode(Lookup(json, field))
    ensures r.0 == ResultNull ==> r.1 == item
    ensures r.0 == ResultValid ==> r.1 == Lookup(json, field) && r.1.Some? && r.1.value != Null
    ensures json.Some? && json.value.Object? &&
            (forall i :: 0 <= i < |json.value.members| ==> json.value.members[i].key != field)
            ==> r.0 == ResultNull
  {
    var found := Lookup(json, field);
    if IsNullNode(found) then (ResultNull, item) else (ResultValid, found)
  }

  /** `swon_get_number`. */
  function GetNumber(json: Handle, value: int): (r: (SwonResult, int))
    ensures r.0 == ResultNull <==> IsNullNode(json)
    ensures r.0 == ResultValid <==> json.Some? && json.value.Number?
    ensures r.0 == ResultValid ==> r.1 == json.value.n
    ensures r.0 != ResultValid ==> r.1 == value
  {
    if IsNullNode(json) then (ResultNull, value)
    else if !json.value.Number? then (ResultInvalid, value)
    else (ResultValid, json.value.n)
  }

  /** `swon_get_integer`: the result of `swon_get_number`, the value written only on Valid. */
  function GetInteger(json: Handle, value: int): (r: (SwonResult, int))
    ensures r.0 == GetNumber(json, value).0
    ensures r.0 == ResultValid ==> json.Some? && json.value.Number? && r.1 == json.value.n
    ensures r.0 != ResultValid ==> r.1 == value
  {
    var (result, number) := GetNumber(json, 0);
    if result != ResultValid then (result, value) else (ResultValid, number)
  }

  /** `swon_get_bool`: Valid only for a boolean; the value written is whether it is `true`. */
  function GetBool(json: Handle, value: bool): (r: (SwonResult, bool))
    ensures r.0 == ResultNull <==> IsNullNode(json)
    ensures r.0 == ResultValid <==> json.Some? && json.value.Bool?
    ensures r.0 == ResultValid ==> (r.1 <==> json == Some(Bool(true)))
    ensures r.0 != ResultValid ==> r.1 == value
  {
    if IsNullNode(json) then (ResultNull, value)
    else if !json.value.Bool? then (ResultInvalid, value)
    else (ResultValid, json.value.b)
  }

  /** `swon_get_string`: Valid only for a string. */
  function GetString(json: Handle, value: string): (r: (SwonResult, string))
    ensures r.0 == ResultNull <==> IsNullNode(json)
    ensures r.0 == ResultValid <==> json.Some? && json.value.Str?
    ensures r.0 == ResultValid ==> r.1 == json.value.s
    ensures r.0 != ResultValid ==> r.1 == value
  {
    if IsNullNode(json) then (ResultNull, value)
    else if !json.value.Str? then (ResultInvalid, value)
    else (ResultValid, json.value.s)
  }

  /** `swon_get_array`: Valid for an array, handing back the same handle. */
  function GetArray(json: Handle, arr: Handle): (r: (SwonResult, Handle))
    ensures r.0 == ResultNull <==> IsNullNode(json)
    ensures r.0 == ResultValid <==> json.Some? && json.value.Array?
    ensures r.0 == ResultValid ==> r.1 == json
    ensures r.0 != ResultValid ==> r.1 == arr
  {
    if IsNullNode(json) then (ResultNull, arr)
    else if !json.value.Array? then (ResultInvalid, arr)
    else (ResultValid, json)
  }

  /** `swon_get_array_size`: zero for anything that is not an array. */
  function ArraySize(json: Handle): (r: nat)
    ensures json.Some? && json.value.Array? ==> r == |json.value.items|
    ensures !(json.Some? && json.value.Array?) ==> r == 0
  {
    if json.None? || json.value.Null? || !json.value.Array? then 0 else |json.value.items|
  }

  /**
   * `swon_get_array_item`: Valid for any array whatever the index; an
   * index out of range gives a NULL handle that is still reported Valid.
   */
  function GetArrayItem(json: Handle, index: int, item: Handle): (r: (SwonResult, Handle))
    ensures r.0 == ResultNull <==> IsNullNode(json)
    ensures r.0 == ResultValid <==> json.Some? && json.value.Array?
    ensures r.0 == ResultValid ==>
              (r.1.Some? <==> 0 <= index < |json.value.items|) &&
              (r.1.Some? ==> r.1.value == json.value.items[index])
    ensures r.0 != ResultValid ==> r.1 == item
  {
    if IsNullNode(json) then (ResultNull, item)
    else if !json.value.Array? then (ResultInvalid, item)
    else if 0 <= index < |json.value.items| then (ResultValid, Some(json.value.items[index]))
    else (ResultValid, None)
  }

  /** Every index below the reported size is fetched Valid, with a non-NULL node. */
  lemma ArrayItemInRange(json: Handle, index: int, item: Handle)
    requires 0 <= index < ArraySize(json)
    ensures json.Some? && json.value.Array?
    ensures GetArrayItem(json, index, item) == (ResultValid, Some(json.value.items[index]))
  {
  }

  /**
   * A node of a sibling chain: the `string` key (NULL for array elements)
   * and the node's own value.  A map cursor is the rest of a chain; the
   * empty chain is the NULL handle.
   */
  datatype Node = Node(key: Option<string>, value: Value)

  type Cursor = seq<Node>

  /** The `child` chain of a node: members of an object, elements of an array, nothing otherwise. */
  function Children(v: Value): (r: Cursor)
    ensures v.Object? ==> |r| == |v.members|
    ensures v.Object? ==> forall i :: 0 <= i < |r| ==> r[i] == Node(Some(v.members[i].key), v.members[i].value)
    ensures v.Array? ==> |r| == |v.items|
    ensures v.Array? ==> forall i :: 0 <= i < |r| ==> r[i] == Node(None, v.items[i])
    ensures !v.Object? && !v.Array? ==> r == []
  {
    match v
    case Object(ms) => seq(|ms|, i requires 0 <= i < |ms| => Node(Some(ms[i].key), ms[i].value))
    case Array(items) => seq(|items|, i requires 0 <= i < |items| => Node(None, items[i]))
    case _ => []
  }

  /** `swon_get_map_first`: the first child (it dereferences the handle, so it needs a node). */
  function MapFirst(json: Value): Cursor {
    Children(json)
  }

  /** `swon_get_map_exists`: false exactly at the end of the chain. */
  function MapExists(c: Cursor): bool {
    c != []
  }

  /** `swon_get_map_key`: NULL at the end of the chain. */
  function MapKey(c: Cursor): Option<string> {
    if c == [] then None else c[0].key
  }

  /** `swon_get_map_next`: the following sibling. */
  function MapNext(c: Cursor): Cursor
    requires MapExists(c)
  {
    c[1..]
  }

  /** The cursor after `k` calls of `swon_get_map_next`. */
  function Walk(c: Cursor, k: nat): Cursor
    requires k <= |c|
  {
    if k == 0 then c else Walk(MapNext(c), k - 1)
  }

  /**
   * The map cursor visits the children in order: after `k` steps from
   * `first` it stands at the `k`-th child, `exists` holds exactly before
   * the end, and `key` is the `k`-th key (NULL at the end).
   */
  lemma {:induction false} CursorVisitsInOrder(c: Cursor, k: nat)
    requires k <= |c|
    ensures Walk(c, k) == c[k..]
    ensures MapExists(Walk(c, k)) <==> k < |c|
    ensures MapKey(Walk(c, k)) == if k < |c| then c[k].key else None
  {
    if k > 0 {
      CursorVisitsInOrder(MapNext(c), k - 1);
      assert c[1..][k - 1..] == c[k..];
    }
  }

  /** Walking an object from `first` yields its keys in insertion order. */
  lemma ObjectCursorKeys(v: Value, k: nat)
    requires v.Object? && k <= |v.members|
    ensures MapExists(Walk(MapFirst(v), k)) <==> k < |v.members|
    ensures k < |v.members| ==> MapKey(Walk(MapFirst(v), k)) == Some(v.members[k].key)
    ensures k == |v.members| ==> MapKey(Walk(MapFirst(v), k)) == None
  {
    CursorVisitsInOrder(MapFirst(v), k);
  }
}

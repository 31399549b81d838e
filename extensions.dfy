/**
 * The library's conformances of `Array` and `Set` (whose elements are
 * themselves decodable and encodable): decode a list element by element
 * through the accessor layer, encode it element by element through the
 * node builder, and a set by way of an array.
 *
 * The element codec is a parameter: `dec` is `Element(fromSWON:)` on an
 * item node, `enc` is the element's own `toSWON()`.
 */
module Extensions {
  import opened Wrappers
  import opened SwonC
  import opened Swon
  import opened Decoding
  import opened Encoding

  /** Decode `items` in order onto `list`; the first element error ends it. */
  function DecodeElements<T>(dec: Value -> Result<T, SwonError>, items: seq<Value>, list: seq<T>): Result<seq<T>, SwonError>
  {
    if |items| == 0 then Success(list)
    else
      var el :- dec(items[0]);
      DecodeElements(dec, items[1..], list + [el])
  }

  /**
   * `Array.init(fromSWON:)` as a value: `Required("Array")` unless the
   * root is an array node, otherwise its elements decoded in order.
   */
  function ArrayFromSwonSpec<T>(dec: Value -> Result<T, SwonError>, root: Handle): Result<seq<T>, SwonError>
  {
    var (result, node) := GetArray(root, None);
    if result != ResultValid then Failure(Required("Array"))
    else DecodeElements(dec, ArrayElements(node.value), [])
  }

  /**
   * `Array.init(fromSWON:)` step by step: fetch the array, then each item
   * below its size, guard the fetch, decode and append.
   */
  method ArrayFromSwon<T>(dec: Value -> Result<T, SwonError>, root: Handle) returns (r: Result<seq<T>, SwonError>)
    ensures r == ArrayFromSwonSpec(dec, root)
  {
    var list: seq<T> := [];
    var (result, node) := GetArray(root, None);
    if result != ResultValid {
      return Failure(Required("Array"));
    }
    ArrayElementsAreItems(node.value);
    var size := ArraySize(node);
    for i := 0 to size
      invariant DecodeElements(dec, ArrayElements(node.value)[i..], list)
             == DecodeElements(dec, ArrayElements(node.value), [])
    {
      var (itemResult, item) := GetArrayItem(node, i, None);
      assert ArrayElements(node.value)[i..][0] == item.value;
      assert ArrayElements(node.value)[i..][1..] == ArrayElements(node.value)[i + 1..];
      var el: Result<T, SwonError> :=
        if itemResult != ResultValid then Failure(Invalid("Array")) else dec(item.value);
      if el.Failure? {
        return Failure(el.error);
      }
      list := list + [el.value];
    }
    return Success(list);
  }

  /** The item guard of the decoding loop never fires: below the size every fetch is Valid. */
  lemma ItemGuardNeverFires(root: Handle, i: int)
    requires GetArray(root, None).0 == ResultValid
    requires 0 <= i < ArraySize(root)
    ensures GetArrayItem(GetArray(root, None).1, i, None).0 == ResultValid
  {
  }

  lemma {:induction false} DecodeElementsFacts<T>(dec: Value -> Result<T, SwonError>, items: seq<Value>, list: seq<T>)
    ensures var r := DecodeElements(dec, items, list);
            (r.Success? ==>
               |r.value| == |list| + |items| && r.value[..|list|] == list &&
               forall j :: 0 <= j < |items| ==> dec(items[j]) == Success(r.value[|list| + j])) &&
            (r.Failure? <==> exists j :: 0 <= j < |items| && dec(items[j]).Failure?) &&
            (r.Failure? ==> exists j :: 0 <= j < |items| && dec(items[j]) == Failure(r.error))
    decreases |items|
  {
    if |items| > 0 {
      var head := dec(items[0]);
      if head.Success? {
        DecodeElementsFacts(dec, items[1..], list + [head.value]);
        var r := DecodeElements(dec, items, list);
        assert r == DecodeElements(dec, items[1..], list + [head.value]);
        if r.Success? {
          forall j | 0 <= j < |items|
            ensures dec(items[j]) == Success(r.value[|list| + j])
          {
            if j > 0 {
              assert items[j] == items[1..][j - 1];
            }
          }
        }
        if r.Failure? {
          var j :| 0 <= j < |items[1..]| && dec(items[1..][j]) == Failure(r.error);
          assert items[j + 1] == items[1..][j];
        } else {
          forall j | 0 <= j < |items|
            ensures dec(items[j]).Success?
          {
            if j > 0 {
              assert items[j] == items[1..][j - 1];
            }
          }
        }
      }
    }
  }

  /**
   * What decoding an array promises: a root that is not an array node
   * (NULL, `null` or another kind) is `Required("Array")`; an array decodes
   * to one element per item, in order, each the element decoder's value;
   * it fails exactly when some item fails, with that item's error.
   */
  lemma ArrayFromSwonFacts<T>(dec: Value -> Result<T, SwonError>, root: Handle)
    ensures var r := ArrayFromSwonSpec(dec, root);
            (!(root.Some? && root.value.Array?) ==> r == Failure(Required("Array"))) &&
            (root.Some? && root.value.Array? ==>
               (r.Success? ==>
                  |r.value| == |root.value.items| &&
                  forall j :: 0 <= j < |r.value| ==> dec(root.value.items[j]) == Success(r.value[j])) &&
               (r.Failure? <==> exists j :: 0 <= j < |root.value.items| && dec(root.value.items[j]).Failure?) &&
               (r.Failure? ==> exists j :: 0 <= j < |root.value.items| && dec(root.value.items[j]) == Failure(r.error)))
  {
    if root.Some? && root.value.Array? {
      ArrayElementsAreItems(root.value);
      var none: seq<T> := [];
      DecodeElementsFacts(dec, root.value.items, none);
    }
  }

  /** Encode `list` in order onto the array node's `items`, adding each one. */
  function EncodeElements<T>(b: Builder, enc: T -> Result<Value, SwonError>, list: seq<T>, items: seq<Value>): Result<seq<Value>, SwonError>
  {
    if |list| == 0 then Success(items)
    else
      var item :- enc(list[0]);
      if !b.add(Array(items), None, item) then Failure(Invalid("Array: Element"))
      else EncodeElements(b, enc, list[1..], items + [item])
  }

  /**
   * `Array.toSWON()` as a value: `Invalid("Array")` when the array node
   * cannot be created, otherwise the elements encoded and added in order.
   */
  function ArrayToSwonSpec<T>(b: Builder, enc: T -> Result<Value, SwonError>, list: seq<T>): Result<Value, SwonError>
  {
    if !b.create(Array([])) then Failure(Invalid("Array"))
    else
      var items :- EncodeElements(b, enc, list, []);
      Success(Array(items))
  }

  /** `Array.toSWON()` step by step. */
  method ArrayToSwon<T>(b: Builder, enc: T -> Result<Value, SwonError>, list: seq<T>) returns (r: Result<Value, SwonError>)
    ensures r == ArrayToSwonSpec(b, enc, list)
  {
    if !b.create(Array([])) {
      return Failure(Invalid("Array"));
    }
    var items: seq<Value> := [];
    for i := 0 to |list|
      invariant EncodeElements(b, enc, list[i..], items) == EncodeElements(b, enc, list, [])
    {
      assert list[i..][0] == list[i] && list[i..][1..] == list[i + 1..];
      var item := enc(list[i]);
      if item.Failure? {
        return Failure(item.error);
      }
      if !b.add(Array(items), None, item.value) {
        return Failure(Invalid("Array: Element"));
      }
      items := items + [item.value];
    }
    return Success(Array(items));
  }

  lemma {:induction false} EncodeElementsFacts<T>(b: Builder, enc: T -> Result<Value, SwonError>, list: seq<T>, items: seq<Value>)
    ensures var r := EncodeElements(b, enc, list, items);
            (r.Success? ==>
               |r.value| == |items| + |list| && r.value[..|items|] == items &&
               forall j :: 0 <= j < |list| ==> enc(list[j]) == Success(r.value[|items| + j])) &&
            (r.Failure? ==>
               (r.error == Invalid("Array: Element") ||
                exists j :: 0 <= j < |list| && enc(list[j]) == Failure(r.error)))
    decreases |list|
  {
    if |list| > 0 {
      var head := enc(list[0]);
      if head.Success? && b.add(Array(items), None, head.value) {
        EncodeElementsFacts(b, enc, list[1..], items + [head.value]);
        var r := EncodeElements(b, enc, list, items);
        assert r == EncodeElements(b, enc, list[1..], items + [head.value]);
        if r.Success? {
          forall j | 0 <= j < |list|
            ensures enc(list[j]) == Success(r.value[|items| + j])
          {
            if j > 0 {
              assert list[j] == list[1..][j - 1];
            }
          }
        } else if r.error != Invalid("Array: Element") {
          var j :| 0 <= j < |list[1..]| && enc(list[1..][j]) == Failure(r.error);
          assert list[j + 1] == list[1..][j];
        }
      }
    }
  }

  /**
   * What encoding an array promises: on success an array node with one
   * item per element, in order, each the element's own encoding; a
   * failure is the creation error, the add error, or an element's error.
   */
  lemma ArrayToSwonFacts<T>(b: Builder, enc: T -> Result<Value, SwonError>, list: seq<T>)
    ensures var r := ArrayToSwonSpec(b, enc, list);
            (r.Success? ==>
               r.value.Array? && |r.value.items| == |list| &&
               forall j :: 0 <= j < |list| ==> enc(list[j]) == Success(r.value.items[j])) &&
            (r.Failure? ==>
               (r.error == Invalid("Array") || r.error == Invalid("Array: Element") ||
                exists j :: 0 <= j < |list| && enc(list[j]) == Failure(r.error))) &&
            (!b.create(Array([])) ==> r == Failure(Invalid("Array")))
  {
    var none: seq<Value> := [];
    EncodeElementsFacts(b, enc, list, none);
  }

  /** The element codec reads back what it writes. */
  ghost predicate ElementRoundTrips<T(!new)>(enc: T -> Result<Value, SwonError>, dec: Value -> Result<T, SwonError>) {
    forall x :: enc(x).Success? ==> dec(enc(x).value) == Success(x)
  }

  lemma {:induction false} DecodeEncoded<T>(dec: Value -> Result<T, SwonError>, items: seq<Value>, done: seq<T>, rest: seq<T>)
    requires |items| == |rest|
    requires forall j :: 0 <= j < |rest| ==> dec(items[j]) == Success(rest[j])
    ensures DecodeElements(dec, items, done) == Success(done + rest)
    decreases |items|
  {
    if |items| == 0 {
      assert done + rest == done;
    } else {
      forall j | 0 <= j < |rest[1..]|
        ensures dec(items[1..][j]) == Success(rest[1..][j])
      {
        assert items[1..][j] == items[j + 1];
      }
      DecodeEncoded(dec, items[1..], done + [rest[0]], rest[1..]);
      assert done + [rest[0]] + rest[1..] == done + rest;
    }
  }

  /** Decoding an encoded array gives the list back, given an element codec that round-trips. */
  lemma ArrayRoundTrip<T(!new)>(b: Builder, enc: T -> Result<Value, SwonError>, dec: Value -> Result<T, SwonError>, list: seq<T>)
    requires ElementRoundTrips(enc, dec)
    requires ArrayToSwonSpec(b, enc, list).Success?
    ensures ArrayFromSwonSpec(dec, Some(ArrayToSwonSpec(b, enc, list).value)) == Success(list)
  {
    var node := ArrayToSwonSpec(b, enc, list).value;
    ArrayToSwonFacts(b, enc, list);
    ArrayElementsAreItems(node);
    forall j | 0 <= j < |list|
      ensures dec(node.items[j]) == Success(list[j])
    {
      assert enc(list[j]) == Success(node.items[j]);
    }
    var none: seq<T> := [];
    DecodeEncoded(dec, node.items, none, list);
    assert none + list == list;
  }

  /** The elements of `list` as a set: duplicates collapse. */
  function ElementsOf<T(==)>(list: seq<T>): (s: set<T>)
    ensures forall x | x in s :: x in list
    ensures forall i | 0 <= i < |list| :: list[i] in s
  {
    set x | x in list
  }

  lemma {:induction false} ElementsOfSize<T>(list: seq<T>)
    ensures |ElementsOf(list)| <= |list|
    ensures (forall i, j :: 0 <= i < j < |list| ==> list[i] != list[j]) ==> |ElementsOf(list)| == |list|
    decreases |list|
  {
    if |list| > 0 {
      var rest := list[1..];
      ElementsOfSize(rest);
      assert ElementsOf(list) == ElementsOf(rest) + {list[0]};
      if forall i, j :: 0 <= i < j < |list| ==> list[i] != list[j] {
        forall i, j | 0 <= i < j < |rest|
          ensures rest[i] != rest[j]
        {
          assert rest[i] == list[i + 1] && rest[j] == list[j + 1];
        }
        forall k | 0 <= k < |rest|
          ensures rest[k] != list[0]
        {
          assert rest[k] == list[k + 1];
        }
      }
    }
  }

  /** `Set.init(fromSWON:)`: the array decoding, collapsed to a set. */
  function SetFromSwon<T(==)>(dec: Value -> Result<T, SwonError>, root: Handle): (r: Result<set<T>, SwonError>)
    ensures ArrayFromSwonSpec(dec, root).Failure? ==> r == Failure(ArrayFromSwonSpec(dec, root).error)
    ensures ArrayFromSwonSpec(dec, root).Success? ==>
              r.Success? && (forall x | x in r.value :: x in ArrayFromSwonSpec(dec, root).value) &&
              (forall i | 0 <= i < |ArrayFromSwonSpec(dec, root).value| :: ArrayFromSwonSpec(dec, root).value[i] in r.value) &&
              |r.value| <= |ArrayFromSwonSpec(dec, root).value|
  {
    var list :- ArrayFromSwonSpec(dec, root);
    ElementsOfSize(list);
    Success(ElementsOf(list))
  }

  /** An order Swift may iterate the set `s` in: each member exactly once. */
  predicate EnumeratesSet<T(==)>(order: seq<T>, s: set<T>) {
    ElementsOf(order) == s && forall i, j :: 0 <= i < j < |order| ==> order[i] != order[j]
  }

  /**
   * `Set.toSWON()`: the members, in the set's iteration order `order`,
   * encoded as an array; one item per member.
   */
  method SetToSwon<T(==)>(b: Builder, enc: T -> Result<Value, SwonError>, s: set<T>, order: seq<T>)
    returns (r: Result<Value, SwonError>)
    requires EnumeratesSet(order, s)
    ensures r == ArrayToSwonSpec(b, enc, order)
    ensures r.Success? ==> r.value.Array? && |r.value.items| == |s|
  {
    r := ArrayToSwon(b, enc, order);
    ArrayToSwonFacts(b, enc, order);
    ElementsOfSize(order);
  }

  /** Decoding an encoded set gives the set back, whatever its iteration order. */
  lemma SetRoundTrip<T(!new)>(b: Builder, enc: T -> Result<Value, SwonError>, dec: Value -> Result<T, SwonError>, s: set<T>, order: seq<T>)
    requires ElementRoundTrips(enc, dec)
    requires EnumeratesSet(order, s)
    requires ArrayToSwonSpec(b, enc, order).Success?
    ensures SetFromSwon(dec, Some(ArrayToSwonSpec(b, enc, order).value)) == Success(s)
  {
    ArrayRoundTrip(b, enc, dec, order);
  }
}

/**
 * The Swift side of the bridge: typed values as the generated
 * initialisers build them, and the abstract codec of nested types.
 */
module Typed {
  import opened Wrappers
  import opened SwonC
  import opened Swon
  import opened Helpers

  /**
   * A Swift value.  An optional that holds a value is that value (Swift's
   * promotion); `TNil` is `nil`.  A dictionary keeps the order in which
   * keys were first inserted; an integer-valued `Double` is an integer here.
   */
  datatype TValue =
    | TInt(i: int)
    | TDouble(d: int)
    | TBool(b: bool)
    | TString(s: string)
    | TList(items: seq<TValue>)
    | TDict(entries: seq<Entry>)
    | TNested(typeName: string, fields: seq<Entry>)
    | TCase(typeName: string, caseName: string, args: seq<Entry>)
    | TNil

  /** A named component: a dictionary entry, a struct field or an enum case parameter. */
  datatype Entry = Entry(key: string, value: TValue)

  /**
   * The codec of a type the macros treat as opaque (a `default:` scalar):
   * `T(fromSWON:)` and `T.toSWON()` by type name.
   */
  datatype Codec = Codec(
    decode: (string, Value) -> Result<TValue, SwonError>,
    encode: (string, TValue) -> Result<Value, SwonError>)

  /** No key occurs twice. */
  predicate DistinctKeys(entries: seq<Entry>) {
    forall i, j :: 0 <= i < j < |entries| ==> entries[i].key != entries[j].key
  }

  /** The value stored under `k`, if any. */
  function Get(entries: seq<Entry>, k: string): (r: Option<TValue>)
    ensures r.Some? <==> exists i :: 0 <= i < |entries| && entries[i].key == k
  {
    if entries == [] then None
    else if entries[0].key == k then Some(entries[0].value)
    else
      assert forall i :: 1 <= i < |entries| ==> entries[i] == entries[1..][i - 1];
      Get(entries[1..], k)
  }

  /** The keys, in order. */
  function Keys(entries: seq<Entry>): seq<string> {
    seq(|entries|, i requires 0 <= i < |entries| => entries[i].key)
  }

  /**
   * `map[k] = v`: an existing key keeps its place and takes the new value,
   * a new key is appended.
   */
  function Put(entries: seq<Entry>, k: string, v: TValue): (r: seq<Entry>)
    ensures Get(r, k) == Some(v)
    ensures forall k' :: k' != k ==> Get(r, k') == Get(entries, k')
    ensures DistinctKeys(entries) ==> DistinctKeys(r)
  {
    if entries == [] then [Entry(k, v)]
    else if entries[0].key == k then [Entry(k, v)] + entries[1..]
    else
      var rest := Put(entries[1..], k, v);
      assert DistinctKeys(entries) ==> forall i :: 0 <= i < |rest| ==> rest[i].key != entries[0].key by {
        if DistinctKeys(entries) {
          HeadKeyStaysAbsent(entries, rest);
        }
      }
      [entries[0]] + rest
  }

  /** A list that agrees with the tail on the head's key lacks that key too, when the keys are distinct. */
  lemma HeadKeyStaysAbsent(entries: seq<Entry>, rest: seq<Entry>)
    requires entries != [] && DistinctKeys(entries)
    requires Get(rest, entries[0].key) == Get(entries[1..], entries[0].key)
    ensures forall i :: 0 <= i < |rest| ==> rest[i].key != entries[0].key
  {
    forall j | 0 <= j < |entries[1..]| ensures entries[1..][j].key != entries[0].key {
      assert entries[1..][j] == entries[j + 1];
    }
    assert Get(entries[1..], entries[0].key).None?;
    forall i | 0 <= i < |rest| ensures rest[i].key != entries[0].key {
      assert Get(rest, rest[i].key).Some?;
    }
  }

  /** In a list with distinct keys, each entry is what `Get` finds under its key. */
  lemma {:induction false} GetDistinct(entries: seq<Entry>, i: nat)
    requires DistinctKeys(entries) && i < |entries|
    ensures Get(entries, entries[i].key) == Some(entries[i].value)
  {
    if i > 0 {
      GetDistinct(entries[1..], i - 1);
    }
  }

  /** The typing judgement: `x` is a value of the Swift type `t`. */
  predicate HasType(x: TValue, t: DecodedType) {
    match t
    case Scalar(name) =>
      if name == "Int" then x.TInt?
      else if name == "Double" then x.TDouble?
      else if name == "Bool" then x.TBool?
      else if name == "String" then x.TString?
      else (x.TNested? || x.TCase?) && x.typeName == name
    case ArrayOf(e) =>
      x.TList? && forall i :: 0 <= i < |x.items| ==> HasType(x.items[i], e)
    case Dictionary(_, v) =>
      x.TDict? && DistinctKeys(x.entries) &&
      forall i :: 0 <= i < |x.entries| ==> HasType(x.entries[i].value, v)
    case Optional(w) =>
      x.TNil? || HasType(x, w)
  }
}

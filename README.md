# swon, modelled in Dafny

swon lets Swift code read and write JSON by way of a small C accessor
layer (`swon_t`, `swon_result`) over cJSON. The `@SWON` macro generates
the code for a struct or an enum:

- `init(fromSWON:)` and `init(fromJSON:)` decode the type;
- `toSWON()` encodes it.

This project models:

- the accessor layer, as tri-state getters over a JSON value tree;
- the bridge from `swon_result` to `SWONError`;
- the type descriptor `DecodedType` and the syntax helpers;
- the three code generators:
  - the current decoder `SWONDecodeMacro`;
  - the older `SWONMacro`;
  - the encoder `SWONEncodeMacro`;
- the library's `Array` and `Set` conformances.

Generated code is modelled by its behaviour, not by its text.
Each expansion becomes a plan: a list of fields, a raw-value table, or a
list of enum cases. Each generated initialiser or `toSWON()` becomes an
interpreter of that plan over `DecodedType`, written in the same
recursive shape as `mapItem`. Two things are modelled as text as well:

- the statement layout of the encoder (`if let` wrapping, and where a
  collection is attached);
- the builtin-or-nested choice in `DecodedType.statements`.

The loops in the generated code (arrays, dictionaries, the field list,
`trimmingTrailingWhitespaces`, and the `Array` extension in both
directions) are methods. Each loop method is proved equal to the
recursive definition. The recursive definitions carry the promised
properties:

- the getters write their out-parameter only on Valid;
- `check` maps `swon_result` to `SWONError`;
- arrays decode in order, and the first element error aborts;
- dictionaries decode last-write-wins;
- an optional field that is missing or `null` becomes `nil`;
- a raw-value enum looks its case up in the raw-value table;
- for every struct and raw-value enum both macros expand, decoding what
  `toSWON()` produced gives the value back (`RoundTrip.EncodeThenDecode`),
  as long as every `Int` in the value lies within Int32 (see "## Left
  out");
- the same round trip holds for `Array` and `Set`, under the same
  condition on `Int` elements.

Modules: `Wrappers` (Option, Result, Outcome), `SwonC` (swon.c), `Swon`
(SWON.swift), `Helpers` (Helpers.swift), `Typed` (Swift values and the
codec of nested types), `Decoding` (Decoding.swift), `Legacy`
(SWONMacro.swift), `Encoding` (Encoding.swift), `RoundTrip` (encoding
followed by decoding) and `Extensions` (Extensions.swift).

Calls the model cannot see are parameters:

- `Codec`: `T(fromSWON:)` and `T.toSWON()` of a nested type `T`;
- `Builder`: whether a `swon_create_*` or `swon_*_add_item` call succeeds;
- the parse result and the text of `swon_error_ptr()`;
- how the key's C pointer prints in "Unknown enum case '…'" (an address);
- the order in which Swift iterates a `Set`.

## Model

| member | source | states |
|---|---|---|
| SwonC.Create | Sources/SWON_C/swon.c:20-25 | A failed parse or the literal `null` gives Null and leaves the root untouched. Otherwise it gives Valid with the parsed tree. It never gives Invalid. |
| SwonC.FirstMatch | Sources/SWON_C/swon.c:31-32 | Case-sensitive lookup finds the first member with the key, or reports that no member has it. |
| SwonC.GetObject | Sources/SWON_C/swon.c:31-36 | A missing member or a `null` member gives Null, and the out handle is not written. Otherwise it gives Valid with the member. It is never Invalid. |
| SwonC.GetNumber | Sources/SWON_C/swon.c:38-43 | Null for NULL or `null`; Valid exactly for a number, carrying its value; otherwise Invalid. The out value is written only on Valid. |
| SwonC.GetInteger | Sources/SWON_C/swon.c:45-51 | The same result as `swon_get_number`. The value is written only on Valid. |
| SwonC.GetBool | Sources/SWON_C/swon.c:53-58 | Valid exactly for a boolean, and the value is whether it is `true`. Null for NULL or `null`. The out value is written only on Valid. |
| SwonC.GetString | Sources/SWON_C/swon.c:60-65 | Valid exactly for a string, carrying its text. Null for NULL or `null`. The out value is written only on Valid. |
| SwonC.GetArray | Sources/SWON_C/swon.c:67-72 | Valid exactly for an array, and it hands back the same handle. Null for NULL or `null`. |
| SwonC.ArraySize | Sources/SWON_C/swon.c:74-77 | The item count of an array; 0 for anything else. |
| SwonC.GetArrayItem | Sources/SWON_C/swon.c:79-84 | Valid for any array whatever the index. An index in range gives that item; an index out of range gives a NULL handle. |
| SwonC.ArrayItemInRange | Sources/SWON_C/swon.c:74-84 | Every index below `swon_get_array_size` gives Valid and the item at that index. |
| SwonC.Children | Sources/SWON_C/swon.c:86-89 | The child chain holds an object's members, with their keys, or an array's items, with no keys. Any other node has no children. |
| SwonC.CursorVisitsInOrder | Sources/SWON_C/swon.c:86-103 | After k calls of `next`, the cursor is at the k-th child. `exists` holds exactly before the end. `key` is the k-th key, or NULL at the end. |
| SwonC.ObjectCursorKeys | Sources/SWON_C/swon.c:86-103 | Walking an object yields its keys in insertion order, then NULL. |
| Swon.Check | Sources/SWON/SWON.swift:19-30 | Null throws `required(field)`, Invalid throws `invalid(field)`, and Valid passes. The field is passed through unchanged, and no other error is thrown. |
| Helpers.DescriptionForms | Sources/SWONMacros/Helpers.swift:17-33 | An optional prints as the wrapped type followed by `?`, and an array prints in brackets. The two optional branches agree. |
| Helpers.DescriptionDelimiters | Sources/SWONMacros/Helpers.swift:17-33 | Collections print with a leading `[`, and optionals print with a trailing `?`. |
| Helpers.BuiltinDescriptionIsScalar | Sources/SWONMacros/Helpers.swift:17-33 | A type whose description is `Bool`, `Int`, `Double` or `String` is that scalar. So the dispatch on `description` never takes a collection or an optional for a builtin. |
| Helpers.DecodedTypeOf | Sources/SWONMacros/Helpers.swift:37-55 | Arrays, dictionaries and optionals translate structurally. Identifier types become a scalar of their name. Any other type becomes a scalar of its text. |
| Helpers.DecodedTypeStructural | Sources/SWONMacros/Helpers.swift:37-62 | `isOptional` holds exactly when the decoded type is an optional, and the translation commutes with each type constructor. |
| Helpers.Cases | Sources/SWONMacros/Helpers.swift:66-71 | The case declarations are exactly the case members, and there are no more of them than members. |
| Helpers.CasesKeepOrder | Sources/SWONMacros/Helpers.swift:66-71 | `cases` keeps declaration order: it distributes over concatenation. |
| Helpers.HasAssociatedValues | Sources/SWONMacros/Helpers.swift:73-79 | True exactly when some case member declares an element with a parameter clause. |
| Helpers.TrimTrailingSpec | Sources/SWONMacros/Helpers.swift:90-97 | The trimmed string is a prefix of the original and does not end in a space. Only spaces were removed. |
| Helpers.TrimTrailingIdempotent | Sources/SWONMacros/Helpers.swift:90-97 | Trimming twice is the same as trimming once. |
| Helpers.TrimTrailingSpaces | Sources/SWONMacros/Helpers.swift:90-97 | Any number of appended spaces trims away. |
| Helpers.TrimmingTrailingWhitespaces | Sources/SWONMacros/Helpers.swift:91-97 | The loop that drops the last character while it is a space computes the trimmed string. |
| Typed.Put | Sources/SWONMacros/Decoding.swift:256 | `map[key] = value`: the key then holds the value, and every other key keeps its value. Keys stay distinct. |
| Decoding.ScalarDecoding | Sources/SWONMacros/Decoding.swift:180-219 | For a builtin scalar, a node of the right kind gives its value. `null` gives `nil` when optional and `required(field)` otherwise. Any other kind gives `invalid(field)`. |
| Decoding.NestedDecoding | Sources/SWONMacros/Decoding.swift:220-221 | A non-builtin scalar is handed to that type's own `init(fromSWON:)`, without the field name. Even when it is optional, `null` is not turned into `nil`: the nested decoder alone decides. |
| Decoding.OptionalDecoding | Sources/SWONMacros/Decoding.swift:178-243 | `optional(t)` decodes as `t` in an optional context. A `null` node therefore gives `nil` only for a builtin scalar. An optional array gives `[]` and an optional dictionary `[:]`, since `null` has size 0 and no children. An optional nested type gives whatever its own decoder makes of `null`. |
| Decoding.ArrayElementsAreItems | Sources/SWONMacros/Decoding.swift:228-236 | Every fetch below the size is Valid, so the `continue` branch is never taken. The elements fetched are exactly the array's items, or none for a node that is not an array. |
| Decoding.DecodeListSpec | Sources/SWONMacros/Decoding.swift:225-243 | On success the list is the element decodings, in order. On failure the error is the first failing element's error. |
| Decoding.ArrayDecoding | Sources/SWONMacros/Decoding.swift:225-243 | A node that is not an array decodes to `[]`. On success there is one value per item, in order. A failure is an element's error. |
| Decoding.DecodeArrayLoop | Sources/SWONMacros/Decoding.swift:225-243 | The emitted loop computes exactly the array branch of `mapItem`. |
| Decoding.DecodeEntriesSpec | Sources/SWONMacros/Decoding.swift:248-260 | Last write wins: each key holds the decoding of the last node with that key, and keys stay distinct. A failure comes from a keyed node. |
| Decoding.KeylessNodesIgnored | Sources/SWONMacros/Decoding.swift:252 | Nodes without a key contribute nothing to the dictionary. |
| Decoding.DictionaryDecoding | Sources/SWONMacros/Decoding.swift:244-261 | A node that is not an object decodes to an empty dictionary. On success the dictionary holds exactly the keys of the chain, each with the decoding of its last node. |
| Decoding.DecodeDictionaryLoop | Sources/SWONMacros/Decoding.swift:244-261 | The emitted cursor loop computes exactly the dictionary branch of `mapItem`. |
| Decoding.FieldPlansSpec | Sources/SWONMacros/Decoding.swift:19-27 | The fields keep declaration order. A field is read with `try?` exactly when its type is optional. |
| Decoding.ExpandFields | Sources/SWONMacros/Decoding.swift:133-154 | The field loop yields one assignment per eligible stored property, in order. |
| Decoding.FieldDecoding | Sources/SWONMacros/Decoding.swift:146-152 | A missing or `null` member gives `nil` for an optional field and `required(name)` otherwise. Any error of an optional field becomes `nil`. A present member goes to `mapItem`. |
| Decoding.NullAndAbsentAgree | Sources/SWONMacros/Decoding.swift:146-152 | A member whose value is `null` decodes exactly as if it were absent. |
| Decoding.DecodeFieldsSpec | Sources/SWONMacros/Decoding.swift:133-159 | On success every field is decoded, in order, under its own name. A failure is the error of a required field. |
| Decoding.FindRaw | Sources/SWONMacros/Decoding.swift:113 | `init(rawValue:)` finds a case that has the raw value, or none when no case has it. |
| Decoding.RawDecoding | Sources/SWONMacros/Decoding.swift:107-126 | A listed raw value gives its case. An unlisted one gives `invalid("Enum.raw")`. For every raw type, `null` gives `required(Enum)` and a node of the wrong kind gives `invalid(Enum)`. Under `UInt` a non-negative number decodes as under `Int`, and a negative one traps in `UInt(num)`. |
| Decoding.ParamDecoding | Sources/SWONMacros/Decoding.swift:59-89 | A missing parameter gives `nil` when optional and `required("p in case")` otherwise. A builtin of the wrong kind gives `invalid("p in case")`. A present parameter goes to `mapItem` under "p in case", with the parameter's optionality. |
| Decoding.DecodeParamsSpec | Sources/SWONMacros/Decoding.swift:58-92 | The parameters are decoded in declaration order. On success there is one argument per parameter, under its name, holding that parameter's decoding. Otherwise the error is the first failing parameter's. |
| Decoding.FindCase | Sources/SWONMacros/Decoding.swift:51-56 | The arm for a key is a listed arm with that name, or none when no arm has it. |
| Decoding.CaseSelection | Sources/SWONMacros/Decoding.swift:44-96 | No first child gives "Unable to find enum dictionary". An unknown key gives "Unknown enum case '…'" with the key's pointer printed, not its text. A known key decodes that arm's parameters from the first child. |
| Decoding.CasePlansSpec | Sources/SWONMacros/Decoding.swift:51-54 | The switch has one arm per case element, in declaration order. |
| Decoding.CaseArm | Sources/SWONMacros/Decoding.swift:54-89 | An arm has its element's name and one parameter per declared parameter. Each parameter is looked up under its label, or `_i` when it has none. It is optional exactly when its declared type is, with that layer removed. |
| Decoding.Expansion | Sources/SWONMacros/Decoding.swift:16-155 | A declaration that is neither a struct nor an enum is fatal. An enum with associated values gets one arm per case element. Otherwise an enum's trimmed raw type picks the `String`, `Int` or `UInt` decoder, and any other raw type is fatal. An enum without an inheritance clause gets an empty initialiser. A struct gets one field per eligible property. A collection with non-`String` keys is fatal. |
| Decoding.ExpansionIgnoresTrailingSpaces | Sources/SWONMacros/Decoding.swift:99-100 | Trailing trivia after the raw type does not change the plan. |
| Decoding.FromJson | Sources/SWONMacros/Decoding.swift:162-172 | A failed parse or `null` gives `invalid("At …")`. Otherwise it gives `init(fromSWON:)` on the tree. |
| Legacy.LegacyExpansion | Sources/SWONMacros/SWONMacro.swift:16-93 | An enum without an inheritance clause is fatal. Enum cases with associated values are never planned. Every planned type has `String` dictionary keys. |
| Legacy.LegacyStructsAgree | Sources/SWONMacros/SWONMacro.swift:69-93 | Struct expansion is the same as the current decoder's. |
| Legacy.UntrimmedRawTypeEmitsNothing | Sources/SWONMacros/SWONMacro.swift:38-68 | For the raw type `Int ` (with trailing trivia), the legacy macro emits nothing, while the current decoder plans an `Int` raw enum. |
| Legacy.LegacyRawTypes | Sources/SWONMacros/SWONMacro.swift:45-68 | `String` and `Int` agree with the current decoder. `UInt` is supported only by the current one. |
| Legacy.SharedMapItem | Sources/SWONMacros/SWONMacro.swift:118-205 | The legacy `mapItem` gives the same scalar `null` and wrong-kind errors and the same array decoding. |
| Encoding.EncodeFatal | Sources/SWONMacros/Encoding.swift:163-231 | Generation stops only for a collection of optionals or a dictionary whose key is not `String`. |
| Encoding.SupportedTypes | Sources/SWONMacros/Encoding.swift:163-231 | Every type the encoder supports, the decoder supports too. No supported collection holds optionals. |
| Encoding.ScalarEncoding | Sources/SWONMacros/Encoding.swift:295-318 | `Bool`, `Int`, `Double` and `String` become the node of their value. A failed creation gives the item error. Any other type calls its own `toSWON()`. |
| Encoding.Statements | Sources/SWONMacros/Encoding.swift:295-318 | A builtin gives four statements: declare, guard create, throw, close. Any other type gives declare plus `toSWON()`, on `.value` inside a pair. |
| Encoding.OptionalWrapping | Sources/SWONMacros/Encoding.swift:140-290 | The statements are wrapped in `if let … { … }` exactly when the field is optional. |
| Encoding.NilSkippedWhereWrapped | Sources/SWONMacros/Encoding.swift:140-162 | The statement layout and the behaviour agree on `nil`: where the statements are wrapped in `if let`, a `nil` field leaves the parent object unchanged. |
| Encoding.AttachedUnlessNested | Sources/SWONMacros/Encoding.swift:214-285 | An array or dictionary is attached to its parent exactly when it is not an element of another collection. |
| Encoding.EncodeField | Sources/SWONMacros/Encoding.swift:131-162 | A field only ever appends to its parent object, under its own name, and adds at most one member. |
| Encoding.NilAddsNoKey | Sources/SWONMacros/Encoding.swift:141-162 | An optional field that is `nil` leaves the parent object unchanged. |
| Encoding.EncodeArrayLoop | Sources/SWONMacros/Encoding.swift:163-221 | The emitted array loop computes the array encoding: create, then build and add each element in order. |
| Encoding.EncodeElementsSpec | Sources/SWONMacros/Encoding.swift:196-213 | On success there is one node per element, in order, each that element's encoding. A failure is the add error or an element's error. |
| Encoding.EncodeDictionaryLoop | Sources/SWONMacros/Encoding.swift:222-285 | The emitted dictionary loop computes the dictionary encoding: create, then build and add each entry under its key. |
| Encoding.RawOf | Sources/SWONMacros/Encoding.swift:46-62 | `rawValue` is the raw value listed for the case, and there is none for an unlisted case. |
| Encoding.EncodeRaw | Sources/SWONMacros/Encoding.swift:46-104 | A string enum gives a string node and any other raw enum gives a number node. The errors are the root creation error, `invalid("E(String)")` and `invalid("E(Int)")`. |
| Encoding.FirstFatal | Sources/SWONMacros/Encoding.swift:67-89 | Field generation stops exactly when some field's type is unsupported. |
| Encoding.RawEncoderFor | Sources/SWONMacros/Encoding.swift:46-65 | Only `String` and `Int` raw types are supported. Any other stops with "Unsupported raw type". |
| Encoding.FieldsEncoderFor | Sources/SWONMacros/Encoding.swift:66-91 | A struct's encoder holds the fields in declaration order, all of them supported. |
| Encoding.EncodeExpansionAsWritten | Sources/SWONMacros/Encoding.swift:17-91 | As written, the untrimmed raw type must be exactly `String` or `Int`. An enum without an inheritance clause is fatal. |
| Encoding.UntrimmedRawTypeIsFatal | Sources/SWONMacros/Encoding.swift:38-65 | As written, the raw type `Int ` stops generation. Trimmed, it gives an `Int` raw encoder. |
| Encoding.EncodeExpansion | Sources/SWONMacros/Encoding.swift:17-91 | A declaration that is neither a struct nor an enum is fatal, and so is an enum without an inheritance clause. An enum succeeds exactly when its trimmed raw type is `String` or `Int`. Every encoder returned supports all of its field types. |
| Encoding.EncodeExpansionIgnoresTrailingSpaces | Sources/SWONMacros/Encoding.swift:39 | Trailing trivia after the raw type does not change the encoder. |
| RoundTrip.ScalarRoundTrip | Sources/SWONMacros/Encoding.swift:295-318 | A scalar node, once built, is not `null` and decodes back to the value. |
| RoundTrip.NodeRoundTrip | Sources/SWONMacros/Encoding.swift:131-291 | Every node `mapItem` builds decodes back through the decoder's `mapItem`, at every type. |
| RoundTrip.ArrayRoundTrip | Sources/SWONMacros/Encoding.swift:163-221 | An encoded array decodes back to the same list. |
| RoundTrip.DictionaryRoundTrip | Sources/SWONMacros/Encoding.swift:222-285 | An encoded dictionary decodes back to the same entries. |
| RoundTrip.ElementsRoundTrip | Sources/SWONMacros/Encoding.swift:196-213 | The element nodes are in order, and each decodes back to its element. |
| RoundTrip.MembersRoundTrip | Sources/SWONMacros/Encoding.swift:265-277 | The members keep the entry keys in order, and each value decodes back. |
| RoundTrip.DecodeListAll | Sources/SWONMacros/Decoding.swift:225-243 | When every element decodes, the list is all of them in order. |
| RoundTrip.DecodeDistinctEntries | Sources/SWONMacros/Decoding.swift:248-260 | A chain with distinct keys decodes to exactly its entries, in order. |
| RoundTrip.ObjectDecodesToEntries | Sources/SWONMacros/Decoding.swift:248-260 | An object with distinct keys whose values decode gives exactly those entries. |
| RoundTrip.FirstMatchAppend | Sources/SWON_C/swon.c:31-32 | Looking up in appended members finds the earlier part first. |
| RoundTrip.FieldRoundTrip | Sources/SWONMacros/Encoding.swift:141-162 | A `nil` field adds nothing. Any other field appends one non-`null` member under its name, and that member decodes back. |
| RoundTrip.FieldsAppend | Sources/SWONMacros/Encoding.swift:68-89 | The field statements only append to `root`, and only under field names. |
| RoundTrip.FirstFieldReadBack | Sources/SWONMacros/Decoding.swift:146-152 | A field read after later fields were appended still finds its own member. |
| RoundTrip.FieldsRoundTrip | Sources/SWONMacros/Encoding.swift:68-89 | Every field of an encoded struct decodes back to its value. |
| RoundTrip.StructRoundTrip | Sources/SWONMacros/Encoding.swift:98-111 | Decoding an encoded struct gives the struct back. |
| RoundTrip.FindOwnRaw | Sources/SWONMacros/Decoding.swift:113 | With distinct raw values, the lookup by raw value finds the case that owns it. |
| RoundTrip.RawRoundTrip | Sources/SWONMacros/Encoding.swift:46-62 | Decoding an encoded raw-value enum gives the case back. |
| RoundTrip.ExpansionsAgree | Sources/SWONMacros/Encoding.swift:17-91 | Every declaration the encoder expands is planned by the decoder in the matching form. |
| RoundTrip.EncodeThenDecode | Sources/SWONMacros/Encoding.swift:98-111 | `init(fromSWON:)` applied to what `toSWON()` returns gives the value back. Integers are unbounded here, so the source keeps this promise only for values whose `Int`s fit in Int32. |
| Extensions.ArrayFromSwon | Sources/SWON/Extensions.swift:6-21 | The loop computes the array decoding. |
| Extensions.ItemGuardNeverFires | Sources/SWON/Extensions.swift:15-16 | Once the root is an array, every fetch below its size is Valid, so `invalid("Array")` is never thrown. |
| Extensions.DecodeElementsFacts | Sources/SWON/Extensions.swift:12-18 | The elements decode in order. The loop fails exactly when some element fails, with that element's error. |
| Extensions.ArrayFromSwonFacts | Sources/SWON/Extensions.swift:6-21 | A root that is not an array gives `required("Array")`. An array gives one element per item, in order. It fails exactly when an item fails. |
| Extensions.ArrayToSwon | Sources/SWON/Extensions.swift:23-34 | The loop computes the array encoding. |
| Extensions.EncodeElementsFacts | Sources/SWON/Extensions.swift:27-32 | The items are in order, one per element. A failure is the add error or an element's error. |
| Extensions.ArrayToSwonFacts | Sources/SWON/Extensions.swift:23-34 | A failed creation gives `invalid("Array")`. On success the node has one item per element, each that element's encoding. |
| Extensions.DecodeEncoded | Sources/SWON/Extensions.swift:12-18 | Items that decode to given values give exactly those values. |
| Extensions.ArrayRoundTrip | Sources/SWON/Extensions.swift:5-35 | Decoding an encoded array gives the list back, given an element codec that round-trips. |
| Extensions.ElementsOf | Sources/SWON/Extensions.swift:38-40 | The set holds exactly the list's elements. |
| Extensions.ElementsOfSize | Sources/SWON/Extensions.swift:38-40 | Duplicates collapse, so the set is no larger than the list. A list without duplicates gives a set of the same size. |
| Extensions.SetFromSwon | Sources/SWON/Extensions.swift:38-40 | The array's errors pass through unchanged. On success the set holds exactly the decoded elements. |
| Extensions.SetToSwon | Sources/SWON/Extensions.swift:42-44 | The set is encoded as an array in its iteration order, with one item per member. |
| Extensions.SetRoundTrip | Sources/SWON/Extensions.swift:37-45 | Decoding an encoded set gives the set back, whatever the iteration order. |

## Left out

- Parsing and printing JSON (cJSON, `swon_encode`, `swon_error_ptr`) are
  not modelled. The parse result and the error text are parameters.
- Memory is not modelled: `swon_free` and `swon_free_string`, and the
  leaks this leaves out:
  - a raw-value enum's `toSWON()` creates a root object it never frees
    (Encoding.swift:98-104 with 46-62);
  - building a dictionary item (Encoding.swift:266) happens outside the
    `do`/`catch`, so when it throws, the dictionary node `<var>JSON` is
    not freed (a failed add at :267-274 frees both);
  - `Array.toSWON()` does not free the array node when an element throws
    (Extensions.swift:28-31).
- The model only states that no partial result is returned.
- A runtime trap is the error `Trap`, kept apart from the cases of
  `SWONError`: `UInt(num)` on a negative number traps
  (Decoding.swift:122).
- Double and Int32: JSON numbers are mathematical integers. Two things
  are therefore not modelled:
  - the `(int)` truncation in `swon_get_integer` (swon.c:49);
  - the `Double(rawValue)` conversion.
  As a consequence, an `Int` outside Int32 does not come back in the
  source. It is encoded as `Double(x)` (Encoding.swift:304) and read
  through `var num: Int32` and the `(int)` cast (Decoding.swift:199-204,
  swon.c:49), and that cast is undefined behaviour in C for such a value.
  An example is 3_000_000_000 in a field, an element or a raw value.
- SwiftSyntax itself, diagnostics, and the generated source text are not
  modelled. Declarations are small datatypes, and the emitted code is
  modelled by what it does. Only the encoder's statement layout is
  modelled as text.
- Several calls in the sources do not match swon.h, so the model follows
  swon.h:
  - Decoding.swift and Extensions.swift pass the out-parameter first;
  - Decoding.swift calls `swon_parse` and `swon_parse_error_ptr`.
- The `swon_create_*` and `swon_*_add_item` functions that Encoding.swift
  and Extensions.swift call are not in swon.c or swon.h. Whether each
  call succeeds is the `Builder` parameter.
- SwonC.MapFirst: `swon_get_map_first` dereferences its argument, so a
  NULL handle is not modelled (the model takes a node).
- Swift's synthesised `init(rawValue:)` is modelled as a lookup in the
  raw-value table (`Decoding.FindRaw`). When two cases share a raw value,
  the first listed one is taken.
- A Swift dictionary is modelled as a list of entries in insertion order.
  The encoder visits them in that order; Swift's iteration order is not
  modelled.
- The iteration order of a `Set` is a parameter of `Extensions.SetToSwon`.
- `RoundTrip.EncodeThenDecode` has three hypotheses, and the first two
  are preconditions:
  - nested types (`T.toSWON()` and `T(fromSWON:)`) round-trip
    (`RoundTrip.CodecRoundTrips`);
  - struct field names are distinct, and raw values are distinct;
  - every `Int` in the value, raw values included, lies within Int32.
    The model does not state this one, because its integers are
    unbounded (see "Double and Int32" above). The same holds for
    `Extensions.ArrayRoundTrip` and `Extensions.SetRoundTrip`.
- Typed.Put: keys are compared as sequences of characters. Swift's
  `String` equality and hashing use canonical equivalence instead, so
  `map[String(cString: key)] = …` (Decoding.swift:256) merges a
  precomposed "é" (U+00E9) with a decomposed one (e + U+0301), while the
  model keeps two entries. Likewise, `String(cString:)` replaces invalid
  UTF-8 with U+FFFD, and the model does not.
- Decoding.DecodeEntries: builds its dictionary with `Typed.Put`, so it
  has the same key comparison.
- Decoding.FindCase: `switch String(cString: key)` (Decoding.swift:51)
  matches a case name up to canonical equivalence; the model compares
  characters. The same holds for `Decoding.FindRaw` on `String` raw
  values.
- Encoding an enum with associated values is not modelled: Encoding.swift
  has no branch for it and stops with "Enumeration must inherit a raw
  type" when there is no inheritance clause.
- Where the code differs from what it evidently intends, the model
  follows the code:
  - an array element that fails to decode aborts the whole decode, rather
    than being skipped, which the unreachable `continue` at
    Decoding.swift:234-235 suggests was intended
    (`Decoding.ArrayElementsAreItems`);
  - a node of the wrong kind for an array or dictionary decodes to `[]`
    or `[:]`.
- Macros.swift registers only `SWONMacro`. Which generator a build uses
  is not modelled; all three are modelled.
- Protocols.swift, Package.swift, the example program and the tests are
  not part of this model.

## Findings

| source | as written | input that shows it | evidently intended | confidence | as-written member | corrected member |
|---|---|---|---|---|---|---|
| Sources/SWONMacros/SWONMacro.swift:38 | the raw type is `inheritedType.type.description` and keeps its trailing trivia, so `switch` misses `"Int"` and no code is emitted | `enum E: Int { … }`, where the description of the raw type is `Int ` (`Legacy.UntrimmedRawTypeEmitsNothing`) | compare the trimmed raw type, as Decoding.swift:100 does | not executed | Legacy.LegacyExpansion | Decoding.Expansion |
| Sources/SWONMacros/Encoding.swift:39 | the raw type is compared untrimmed, so generation stops with "Unsupported raw type 'Int '" | `enum E: Int { … }` (`Encoding.UntrimmedRawTypeIsFatal`) | compare the trimmed raw type (`Encoding.EncodeExpansionIgnoresTrailingSpaces`) | not executed | Encoding.EncodeExpansionAsWritten | Encoding.EncodeExpansion |

# arraybuffer-struct in Dafny

`arraybuffer-struct.js` lays a nested record of typed fields over one
`ArrayBuffer`. Each leaf field has a tag such as `i32`, `u8[4]` or
`utf8[2][6]`. The constructor (`new Struct(obj, options)`) works in this order:

1. It parses every tag into a kind, a list of dimensions, an element count and a byte size.
2. It flattens the nested record into a list of leaves, each named by its path of field names.
3. It optionally sorts the leaves by total size, largest first (`layoutOpt`).
4. It walks the leaves, aligning each offset to its element size (`align`).
5. It opens a `DataView` of exactly the laid-out length, over a fresh buffer or a caller's buffer at `byteOffset`.
6. It writes each leaf's initial value.
7. It defines accessors under `data`, so that reading or writing `data.a.b[1]` reads or writes the bytes behind it.

Given `{layout, view, useTypedArray}` from an earlier instance, it
rebuilds the accessors over the same view instead.

The model follows that structure, one module per stage:

| module | models |
|---|---|
| `Common` | `Result`/`Option`, the error kinds the constructor can raise, zero-filled buffers |
| `Arith`, `Bytes` | powers of two, little-endian encoding and decoding of integers, two's complement |
| `Align` | the as-written `alignOffset` with JavaScript's 32-bit `&`/`~`, and the intended round-up `AlignUp` |
| `Kinds` | the type table: every kind with its element size, name and typed-array behaviour |
| `TypeTag` | `parseType`: identifier, bracketed dimensions, element count, total size |
| `Values` | JavaScript initial values (`undefined`, `null`, numbers, booleans, strings, nested arrays), `flat(Infinity)`, and nesting a flat list back into a shape |
| `Fields` | the nested record and `parseStruct`'s flattening into named leaves |
| `Planner` | the `layoutOpt` sort and the offset walk with and without alignment |
| `Codec` | the buffer: `DataView` scalar get/set for each kind, typed-array element access, the `utf8` text accessors with `cString`, `fillMultiDimsUtf8`, and the initial array write |
| `Binder` | the accessor tree: `defineProperty`, `defineReshape` and `defineArrayProperty` as data (which bytes each accessor reads and writes) |
| `Reader` | what the accessor tree reads back from a buffer, and the round trip from an initial value to what `data` shows |
| `Struct` | the constructor and the rebuild path, end to end |
| `Examples` | the layouts and stores that test/test.js prints |

Accessors become data. A scalar accessor is its kind and byte offset. An
array accessor is either a typed-array window or per-element
`DataView` accessors. A `utf8` accessor is a text window, and a
multi-dimensional leaf is a tree of rows with a `flatView`. Reading and
writing through an accessor are functions on the byte buffer.

## Model

| member | source | states |
|---|---|---|
| Align.AlignUp | arraybuffer-struct.js:320-322 | the aligned offset is a multiple of the alignment, is at least the offset, and is less than offset plus alignment |
| Align.AlignUpLeast | arraybuffer-struct.js:172 | no multiple of the alignment at or after the cursor lies before the chosen offset, so the alignment padding is minimal |
| Align.AlignOffsetAgrees | arraybuffer-struct.js:320-322 | for element sizes 1, 2, 4 and 8 and offsets whose sum with alignment-1 stays below 2^31, the 32-bit mask expression equals the intended round-up |
| Align.AlignOffsetPow2 | arraybuffer-struct.js:320-322 | up to 2^32 the mask expression is the intended round-up read back as a signed 32-bit integer |
| Align.AlignOffsetWrapsNegative | arraybuffer-struct.js:320-322 | offset 2^31 with alignment 4 yields -2^31 where the intended result is 2^31 |
| Bytes.DecodeEncode | arraybuffer-struct.js:29-80 | decoding the little-endian bytes of an integer gives the integer modulo 256^n, so stores of in-range values read back unchanged |
| Bytes.EncodeDecode | arraybuffer-struct.js:29-80 | re-encoding the decoded value of n bytes gives the same n bytes |
| Bytes.DecodeSignedEncode | arraybuffer-struct.js:28-80 | the signed reading of an n-byte store is the two's-complement wrap of the stored integer |
| Bytes.ToIntNIdentity | arraybuffer-struct.js:28-80 | the signed wrap leaves exactly the values in the signed n-byte range unchanged |
| Kinds.SizeIsPowerOfTwo | arraybuffer-struct.js:27-122 | every element size in the type table is 1, 2, 4 or 8 bytes |
| Kinds.Lookup | arraybuffer-struct.js:27-125 | a found kind has exactly the looked-up name, and a miss means no kind has that name |
| Kinds.LookupName | arraybuffer-struct.js:27-122 | every kind in the table is found under its own name |
| Kinds.PlaceholdersRejected | arraybuffer-struct.js:123-124 | the `utf16` and `utf32` placeholders are not usable kinds |
| TypeTag.Identifier | arraybuffer-struct.js:308 | the type name is the longest word-character prefix starting with a letter, `_` or `$`, and is absent exactly when the tag does not start with one |
| TypeTag.ParseType | arraybuffer-struct.js:306-315 | a tag fails with the tag's own text exactly when its identifier is missing or unknown; otherwise it yields that kind, the bracketed dimensions, and consistent length and total size |
| TypeTag.ParseRender | arraybuffer-struct.js:306-315 | writing a kind and dimensions as a tag and parsing the tag gives back that kind and those dimensions |
| TypeTag.ProductZero | arraybuffer-struct.js:312 | the element count is zero exactly when one dimension is zero |
| TypeTag.DecimalValue | arraybuffer-struct.js:309 | the digits of a dimension read back as that number |
| Values.NestFlat | arraybuffer-struct.js:193 | flattening a value of a given shape and nesting the flat list back by those dimensions gives the value, and the flat list has product-of-dimensions elements |
| Values.NestRowsFlat | arraybuffer-struct.js:193 | the same round trip for a list of equally shaped rows |
| Fields.Flatten | arraybuffer-struct.js:161-166 | flattening succeeds exactly when every tag parses; each leaf's path extends the prefix by a top-level field name, its array flags extend the prefix's flags, and distinct field names give leaves with separate paths |
| Fields.FlattenNode | arraybuffer-struct.js:161-165 | the same for one field: its leaves are all named under the field |
| Fields.FlattenCount | arraybuffer-struct.js:161-166 | flattening yields exactly one item per leaf of the record tree |
| Fields.FlattenLeafAt | arraybuffer-struct.js:161-165 | with distinct field names at every level, each item's path below the prefix leads through the record tree to a leaf whose tag parses to the item's type and whose initial value is the item's; the item's flags are the records' `isArray` values on the way down followed by whether that value is an array |
| Fields.FlattenCovers | arraybuffer-struct.js:161-165 | every leaf of the record tree has an item named by the prefix followed by the leaf's path |
| Fields.FlattenOrder | arraybuffer-struct.js:161-165 | with distinct field names, the items come depth first in declaration order: where an earlier item's path and a later one's part, the earlier one's field is declared first, as `Object.entries` enumerates them |
| Fields.ApartAcross | arraybuffer-struct.js:161-165 | leaves of two sibling fields never share a path, because their paths differ at the sibling's level |
| Planner.Insert | arraybuffer-struct.js:169 | inserting into a size-ordered list keeps it ordered and adds exactly that leaf |
| Planner.SortPermutes | arraybuffer-struct.js:169 | sorting by total size keeps exactly the same leaves |
| Planner.SortStable | arraybuffer-struct.js:169 | leaves of equal total size keep their declaration order, as the stable `Array.prototype.sort` does |
| Planner.SortApart | arraybuffer-struct.js:169 | sorting keeps the leaves' paths pairwise separate |
| Planner.Order | arraybuffer-struct.js:169 | the planned order has the same leaves, is the declaration order without `layoutOpt`, and is ordered by decreasing total size with it |
| Planner.PlaceEntry | arraybuffer-struct.js:170-177 | each layout entry records its leaf's name, kind, length, dimensions and array flags, and lies between the start and the final cursor |
| Planner.PlaceExact | arraybuffer-struct.js:176-181 | the final cursor, which is the view's length, is the end of the last entry |
| Planner.PlaceOrdered | arraybuffer-struct.js:170-177 | entries follow one another without overlap, in planned order |
| Planner.PlaceAligned | arraybuffer-struct.js:172 | with `align` on, every entry's offset is a multiple of its element size |
| Planner.PaddingMinimal | arraybuffer-struct.js:172 | with `align` on, no aligned offset at or after the previous entry's end lies before the chosen one |
| Planner.PlacePacked | arraybuffer-struct.js:170-177 | with `align` off, an entry's offset is the start plus the total sizes of the entries before it |
| Planner.PlacePackedTotal | arraybuffer-struct.js:170-177 | with `align` off, the layout's length is the sum of all total sizes |
| Codec.SpliceFrame | arraybuffer-struct.js:205 | writing a block of bytes changes nothing outside it |
| Codec.Clamp | arraybuffer-struct.js:40-45 | a clamped byte keeps in-range values, sends negatives to 0 and sends values above 255 to 255 |
| Codec.DecodeEncodeScalar | arraybuffer-struct.js:28-107 | a scalar's stored bytes decode to the stored form of the written value |
| Codec.GetScalar | arraybuffer-struct.js:255 | a scalar read fails with a range error exactly when it runs past the view, and otherwise decodes the bytes at that offset |
| Codec.SetScalar | arraybuffer-struct.js:256 | a scalar write of `undefined` or `null` to an `i64` or `u64` field is a type error wherever the field lies, because the value is converted before the index is checked; any other write fails exactly when it runs past the view, and otherwise changes no byte outside its element |
| Codec.ScalarSetGet | arraybuffer-struct.js:100-112 | an `i64` or `u64` field refuses `undefined` and `null`; reading any other scalar right after writing it gives the stored form of the written value: the wrapped integer, the truth flag for `bool`, and for `utf8` the first byte of the value's text, which is 0 for `undefined` (whose encoding is empty) and `n` for `null` |
| Codec.ScalarRoundTrip | arraybuffer-struct.js:28-80 | an integer read back after a write is in the kind's range, equals the written integer exactly when that was in range, and differs from it by a multiple of 256^size |
| Codec.BoolSetGet | arraybuffer-struct.js:100-104 | a `bool` write stores 1 for a truthy value and 0 otherwise, and reads back as that truth value |
| Codec.ScalarFrame | arraybuffer-struct.js:254-259 | a scalar write leaves every non-overlapping scalar's reading unchanged |
| Codec.ConvertedIdentity | arraybuffer-struct.js:31-98 | a typed-array store keeps exactly the integers that lie in the kind's range |
| Codec.TypedSet | arraybuffer-struct.js:32-98 | a BigInt64Array or BigUint64Array element write of `undefined` or `null` is a type error at any index; any other element write changes no byte outside that element, and an index past the end changes nothing |
| Codec.TypedSetGet | arraybuffer-struct.js:32-98 | a 64-bit element refuses `undefined` and `null`; reading any other typed-array element right after writing it gives the written value converted to the kind |
| Codec.CString | arraybuffer-struct.js:26 | the result is the longest NUL-free prefix of the bytes |
| Codec.CStringTerminated | arraybuffer-struct.js:26 | text followed by a NUL and any bytes reads as that text |
| Codec.TextSet | arraybuffer-struct.js:118 | a `utf8` array write fails when the value's text plus its NUL does not fit, and otherwise writes the text and a NUL and nothing beyond them; `null` and `undefined` are written as the words `null` and `undefined` |
| Codec.TextSetGet | arraybuffer-struct.js:117-118 | reading a `utf8` array right after writing a value gives the value's text up to its first NUL, so `null` reads back as `null` |
| Codec.FillSlots | arraybuffer-struct.js:217-223 | padding fails exactly when an entry is missing |
| Codec.FillSlotsWindows | arraybuffer-struct.js:217-223 | when every string fits its slot, padding yields one slot of exactly the slot width per string, and each slot reads back as its string |
| Codec.StreamText | arraybuffer-struct.js:201 | in stream mode the strings are joined with nothing between them |
| Codec.WriteElemsAt | arraybuffer-struct.js:205 | the initial array write puts the bytes of the i-th input element at the i-th element position |
| Codec.WriteElemsFrame | arraybuffer-struct.js:205 | the initial array write changes no byte outside the written elements |
| Codec.InitArray | arraybuffer-struct.js:189-205 | a successful initial array write is aligned to the element size, lies inside the buffer, has no more input than the array's length, and for `i64` or `u64` has no `undefined` or `null` input; a source-too-large error means there was more input than that |
| Codec.InitArrayOutcome | arraybuffer-struct.js:189-205 | the write fails with a type error when a fixed-mode text slot is `undefined` or `null`, then as misaligned exactly when the start is not a multiple of the element size, then out of bounds when the window passes the buffer's end, then source-too-large when there is more input than elements, then with a type error again when an `i64` or `u64` input holds `undefined` or `null`; it succeeds exactly when none of these holds |
| Codec.InitText | arraybuffer-struct.js:198-203 | preparing `utf8` input fails exactly when fixed slots meet a missing entry |
| Binder.ArrayLeaf | arraybuffer-struct.js:285-304 | with typed arrays (or `utf8`) the accessor is a window that fails when misaligned or out of bounds; otherwise it is a list of per-element accessors at offset plus i times the element size |
| Binder.DefineLeaf | arraybuffer-struct.js:243-260 | a scalar leaf gets a scalar accessor, a one-dimensional leaf gets an array accessor, and a multi-dimensional leaf gets first-dimension rows plus a `flatView` over the whole length; a multi-dimensional leaf whose length is the product of its dimensions binds exactly when its `flatView` does |
| Binder.ReshapeState | arraybuffer-struct.js:268-281 | the reshape walk advances its element counter by the product of the inner dimensions per row |
| Binder.ReshapeRowCount | arraybuffer-struct.js:268-281 | the reshape walk creates one innermost row per combination of the outer indices |
| Binder.ReshapeRowAt | arraybuffer-struct.js:268-281 | the t-th innermost row is the array accessor at element t times the innermost dimension |
| Binder.RowsTile | arraybuffer-struct.js:243-281 | the innermost rows of a multi-dimensional leaf tile its `flatView` exactly, each starting one row width after the previous |
| Binder.Lookup | arraybuffer-struct.js:239 | a member is found exactly when one has that name, and the node found is that of the first member with the name |
| Binder.Assign | arraybuffer-struct.js:239-254 | assigning a member makes that name resolve to the new node and leaves every other name unchanged, as `Object.defineProperty` does (see Left out for `target[name] = []` over an existing accessor) |
| Binder.ResolveDefine | arraybuffer-struct.js:228-262 | after defining a leaf at a path, the path resolves to that leaf |
| Binder.ResolveDefineOther | arraybuffer-struct.js:228-262 | defining a leaf leaves every path that is separate from it resolving as before |
| Binder.DefineCreates | arraybuffer-struct.js:239 | every proper prefix of a newly defined path is an object, or an array when its flag says so |
| Binder.BindFrom | arraybuffer-struct.js:145-147 | binding the layout's entries one after another succeeds exactly when every entry's accessor can be built, and fails with the error of such an entry (for paths apart from each other; see Left out) |
| Binder.BindResolves | arraybuffer-struct.js:145-147 | after binding a layout with separate paths, each entry's path resolves to that entry's accessor |
| Reader.ElementsGetElems | arraybuffer-struct.js:295-298 | the i-th per-element accessor reads the i-th element of the array window |
| Reader.TypedGetElems | arraybuffer-struct.js:32-98 | the i-th typed-array element reads the i-th element of the array window |
| Reader.ArrayLeafReads | arraybuffer-struct.js:285-304 | an array accessor reads its whole window element by element, whichever accessor form it has |
| Reader.ReshapeReads | arraybuffer-struct.js:268-281 | the reshaped rows read the flat window nested by the inner dimensions |
| Reader.GridNest | arraybuffer-struct.js:243-252 | a multi-dimensional accessor reads its `flatView` nested by the leaf's dimensions |
| Reader.InitArrayReads | arraybuffer-struct.js:205 | after a successful initial array write (which for `i64` and `u64` rules out `undefined` and `null` inputs), element j reads the converted j-th input where there is one, and its old value beyond the input |
| Reader.GridRoundTrip | arraybuffer-struct.js:189-205 | a multi-dimensional integer value that fits its kind and shape reads back through its accessor exactly as written |
| Reader.TextGridRow | arraybuffer-struct.js:196-205 | with fixed slots and strings that fit the innermost width, the t-th innermost `utf8` row reads back the t-th string of the initial value, and a row past the last string reads its old bytes up to their first NUL |
| Reader.TextStreamRow | arraybuffer-struct.js:196-205 | in stream mode the t-th innermost `utf8` row reads its window of the joined strings written from the leaf's start, up to the first NUL; where the joined bytes end inside or before the window, the bytes that were there before follow |
| Struct.MakeView | arraybuffer-struct.js:180-182 | the view fails exactly when a caller's buffer is too short; otherwise it has the layout's length, at the byte offset over the caller's buffer or at 0 over a fresh zeroed buffer |
| Struct.InitEntry | arraybuffer-struct.js:186-209 | writing one leaf's initial value keeps the view's frame, and a missing value leaves the view as it is |
| Struct.Construct | arraybuffer-struct.js:134-211 | construction fails with an unknown-type error whenever a tag does not parse; a success has the planned layout and a view of exactly the layout's length |
| Struct.Rebuild | arraybuffer-struct.js:138-147 | rebuilding succeeds only when every entry's accessor can be built, and, when the layout's paths are apart from each other, exactly then; it keeps the given layout, view and typed-array flag |
| Struct.RebuildAgrees | arraybuffer-struct.js:138-147 | rebuilding from a constructed instance's layout, view and flag gives back that same instance |
| Struct.ConstructEntry | arraybuffer-struct.js:170-182 | each layout entry describes its leaf, has a non-empty path, has the product of its dimensions as its length, and ends within the view |
| Struct.ConstructLeaf | arraybuffer-struct.js:161-177 | with distinct field names, the layout has one entry per leaf of the record, and each entry's name path leads to a leaf whose tag parses to the entry's kind and dimensions and whose array flags are the entry's |
| Struct.ConstructCovers | arraybuffer-struct.js:161-177 | every leaf of the record has a layout entry at its name path |
| Struct.ConstructDisjoint | arraybuffer-struct.js:170-177 | no two layout entries overlap |
| Struct.ConstructAligned | arraybuffer-struct.js:172 | with `align` on, every layout entry's offset is a multiple of its element size |
| Struct.ConstructLength | arraybuffer-struct.js:176-182 | the view's length is the end of the last entry, or 0 for a record with no leaves |
| Struct.ConstructPacked | arraybuffer-struct.js:170-182 | with `align` off, the view's length is the sum of the leaves' total sizes |
| Struct.ConstructApart | arraybuffer-struct.js:161-166 | with distinct field names at every level, layout paths are pairwise separate |
| Struct.ConstructResolves | arraybuffer-struct.js:210 | with distinct field names, every layout entry's path in `data` resolves to that entry's accessor |
| Struct.PopulateFrame | arraybuffer-struct.js:185-211 | the initial writes change no byte outside the layout's entries |
| Struct.ConstructScalar | arraybuffer-struct.js:207 | a non-float scalar leaf with an initial value reads back the stored form of that value from the constructed view |
| Struct.ConstructFrame | arraybuffer-struct.js:180-211 | every byte window outside all entries is as the view was opened: the caller's bytes, or zeros |
| Examples.SmallRecordPlain | test/test.js:54-58 | `{a: i8, b: i64}` aligned in declaration order takes 16 bytes |
| Examples.SmallRecordSorted | test/test.js:54-63 | the same record aligned and sorted takes 9 bytes |
| Examples.SmallRecordPacked | test/test.js:60 | the same record without alignment takes 9 bytes |
| Examples.LayoutOptSorted | arraybuffer-struct.js:169-177 | sorting `i64` and `u8[9]` by size gives a 24-byte layout, larger than the 17 bytes of Examples.LayoutOptPlain |
| Examples.LayoutOptPlain | arraybuffer-struct.js:170-177 | `i64` then `u8[9]` in declaration order takes 17 bytes |
| Examples.UnknownTagFails | arraybuffer-struct.js:310 | a tag naming no kind fails the construction with an unknown-type error |
| Examples.Utf8GridFixed | test/test.js:66-73 | `utf8[2][6]` with `['123', '456789']` and fixed slots reads back `123` and `456789` |
| Examples.Utf8GridStream | test/test.js:66-72 | the same in stream mode reads back `123456` and `789` |
| Examples.Utf8GridShortFixed | arraybuffer-struct.d.ts:74 | `utf8[4][10]` with `['a', 'b', 'c']` and fixed slots reads back `a`, `b`, `c` and an empty row |
| Examples.Utf8GridShortStream | arraybuffer-struct.d.ts:77 | the same in stream mode reads back `abc` and three empty rows |
| Examples.MisalignedTypedArray | arraybuffer-struct.js:205 | an `i32` initial array at an odd byte offset is refused as misaligned |
| Examples.BigIntArrayRejected | arraybuffer-struct.js:205 | an `i64[2]` initial value `[1n, undefined]` (or with `null`) is refused with a type error although it fits |
| Examples.BigIntScalarRejected | arraybuffer-struct.js:100-112 | `i64` and `u64` scalar writes of `undefined` or `null` are refused with a type error, while an `i32` field stores `undefined` as 0 |

## Where the code and its documentation differ

The model follows the code in each case below.

- Stream-mode `utf8` rows: arraybuffer-struct.d.ts:60-80 describes `utf8FixedSize: false` as joining the strings into one stream, with an example whose join fits the first row. In the code every innermost row decodes its own window of the joined bytes, so a join longer than one row continues into the following rows (Examples.Utf8GridStream reads `123456` and `789`).
- Sorting by size: arraybuffer-struct.d.ts:83-99 presents `layoutOpt` as reordering members to reduce padding. The code sorts by total size, largest first, which can add padding: Examples.LayoutOptPlain and Examples.LayoutOptSorted show a record that it grows from 17 to 24 bytes.
- `u8c`: it is in the code's type table but not in the `StructType` union of arraybuffer-struct.d.ts:6. It is modelled, with a clamping typed array and a wrapping `DataView` setter.
- Unknown tags: an unknown type name fails at the table lookup on line 310 with a type error. The `Invalid type` check on line 311 is never reached for such a name. The model reports both as an unknown-type error.
- The second record in test/test.js (line 59) is built with `layoutOpt: false` although its expected length, 9, is the sorted layout's. Examples.SmallRecordSorted states the 9 for `layoutOpt: true`.

## Findings

| source | as written | input that shows it | evidently intended | confidence | as-written member | corrected member |
|---|---|---|---|---|---|---|
| arraybuffer-struct.js:320-322 | `alignOffset` rounds up with 32-bit signed `&` and `~` | offset 2^31 with alignment 4 gives -2^31 (a cursor whose offset + alignment - 1 lies between 2^31 and 2^32 goes negative; beyond 2^32 the result wraps, so offset 2^32 with alignment 1 gives 0) | the least multiple of the alignment at or after the offset | not executed | Align.AlignOffsetWrapsNegative | Align.AlignUp |

The layout walk in the model uses Align.AlignUp. Align.AlignOffsetAgrees
shows that both definitions agree on every offset the code can reach
below 2^31.

## Left out

- Floating-point kinds (`f16`, `f32`, `f64`) are modelled only by their sizes and layout. Reading, writing and initialising float values is not modelled, because IEEE 754 conversion is out of scope. The initial writer skips float scalars, and for float arrays it keeps the alignment, bounds and length errors but leaves the bytes unchanged.
- Text is modelled as UTF-8 bytes. `TextEncoder` and `TextDecoder` are the identity on those bytes, and `fillMultiDimsUtf8` pads by byte length (JavaScript pads by UTF-16 length, which agrees only for ASCII).
- The scalar `utf8` accessor (lines 110-112) stores and reads a single byte. Decoding a lone non-ASCII byte is left to the decoder and not modelled.
- JavaScript `Number` and `BigInt` are not distinguished. Every integer value is an unbounded integer, and the 64-bit kinds take and return it. The one BigInt refusal modelled is that of `undefined` and `null` (Codec.BigIntRejects); a Number given to a 64-bit kind, which the code refuses with a TypeError too, is taken as its integer.
- Binder.BindFrom: when a path passes through an earlier entry's accessor (an earlier path is a prefix of, or equal to, a later one), the model replaces the accessor with a fresh object. The code, through `target[head] ||=` on line 239, throws when the accessor is a scalar or a string (after calling its setter with `{}` when its value is falsy) and hangs the rest of the path on it when it is an array. Its success iff therefore holds of the code only for paths apart from each other, which every constructed layout has (Struct.ConstructApart).
- Struct.Rebuild: its success iff is stated only for layouts whose paths are apart from each other, for the reason given for Binder.BindFrom; a captured layout is not checked, so a hand-made one can break this.
- Binder.Define: an accessor met part-way along a path is replaced by a fresh object, as described for Binder.BindFrom.
- Binder.Assign: a name that already holds an accessor is given the new node. That matches the code where the new accessor is installed with `Object.defineProperty` (lines 253 and 289), which replaces a configurable property. It does not match the plain-array paths, `target[head] = []` on line 246 and `target[name] = []` on line 292: on an existing scalar or string accessor these call its setter, writing into the buffer, and the following `Object.defineProperty` on the getter's primitive result throws a TypeError. Only two entries at the same path reach this, which no constructed layout has (Struct.ConstructApart).
- Struct.Construct: a construction that fails part-way returns only its error. The writes already made are not modelled: the initial values of earlier entries (lines 205 and 207) and, for a BigInt array refused by `set`, the elements before the `undefined` or `null` one. In a fresh buffer they are lost with the instance, but in a caller's `buffer` they remain after the throw. For example, with a 24-byte buffer, `{a: {value: 7, type: 'i32'}, b: {value: [1n, undefined], type: 'i64[2]'}}` throws, leaving 7 in bytes 0-3 and 1 in bytes 8-15.
- `shared` and `SharedArrayBuffer`: the buffer is a sequence of bytes, and sharing across workers (test/test-worker.js) is concurrency, which is out of scope.
- The `console.warn` messages on lines 149-152 and `Struct.noWarn` are left out, because they are output only.
- Accessors are data, not closures. The `enumerable` and `configurable` property flags and the non-enumerable `data` property are not modelled.
- Non-array objects as initial values: lines 193-195 pass an object that is not an array, such as the typed array of test/test.js:95, to `set` unchanged. `Value` has no such case, so these initial values are not modelled.
- `ToIntegral` treats any non-number as 0 and a boolean as 0 or 1. JavaScript's full `ToNumber` on strings and objects is not modelled.
- The test on line 138 that tells a saved instance from a record is not a function of the model. Struct.Construct takes a record and Struct.Rebuild takes a saved layout and view, and the caller picks one. Beyond their types, the code does not check the saved layout and view either.
- Reader.GridRoundTrip: stated for the view right after that leaf's own initial write. Its composition through the whole construction rests on Struct.PopulateFrame (later writes do not touch the leaf) and is not stated as one lemma.
- Struct.ConstructScalar: only non-float scalars, because float values are not modelled.
- The five-field C-struct layout printed by test/test.c is not restated as a lemma.

# A verified model of a schema-driven binary serializer

The library scans a Go type into a tree of codecs, writes values in a compact format that does not
describe itself, and reads them back through fast paths that must agree with simple ones. This project
models that machinery in Dafny and proves what it is for.

It is layered.

1. **The format as functions.** `Wire`, `Bits` and `Varint` hold bytes, bit operators and varints.
   `Codec` holds codec trees, values, the encoding `Enc` and the grammar `Dec`. A decoder is a function
   from a byte string to a failure, or to a value and the bytes it did not consume.
2. **Laws of the format.** `RoundTrip` and `Compatibility`: one theorem about a writer's and a reader's
   schema that differ in union arms gives round trip, forward and backward compatibility. `Analysis`:
   the two static analyses are exact, decoding is local, truncation is detected.
3. **The decoder with its shortcuts.** `Destination` decodes into memory that may hold stale data, with
   the early checks, for an in-memory reader or a stream. `Agreement` proves that whatever the grammar
   accepts is decoded all the same, and `Acceptance` and `Truncation` say exactly what is accepted
   besides. `FieldWords` is the packed table of a struct codec, `DirectPath` the switch on the packed kind.
4. **The code as it runs.** `Reader`, `Encoder`, `Decoder` and `Arena` are classes with the source's
   fields: cursor, scratch array, sticky error, swapped buffer, append-only arena with a ghost list of
   every view handed out. Each method is proved against the functions above. `Session` runs them over
   whole sequences of calls.
5. **Around the tree.** `Scanner` turns types into trees, with the errors it reports, the dense union
   table and the packed table. `Permutation`, `SortedInts` and `Series` are the sorted package, `NoCopy`
   the maps of the nocopy package.
6. **The format said a second time.** A writer and a reader that share a definition can share a mistake, so
   everything they share is compared with a description that uses none of it. `GoFormat` says, by recursion
   on Go types and in literal numbers, what the values of a type are, which byte string is the message of a
   value, and which byte strings are read as a value. `GoValues`, `GoWrites` and `GoReads` prove that scanning
   a type and then encoding or decoding does exactly that, both ways, with `GoLeaves` for the leaves and
   `FieldTags` for the tags. `GoMaps` does the same for the order of map entries, `StreamFormat` for the
   sorted package and `NoCopyFormat` for the nocopy maps. `Format` states laws of the format for every codec
   tree, and `WireFormat` fixes it by whole messages, those of the repository's tests among them.

## How to read it

- Values identify nil and empty slices and maps, which share an encoding, and carry included fields only.
  A map lists its entries in the order Go happens to iterate it; `MapOrder.IterationOrder` says the
  order does not matter, at any depth. `Typed` gives the values of a type within the decoder's limits, `Encodable` those
  the encoder accepts: no union with two arms set, no string key over 65535 bytes.
- `Destination.Cell` is the memory of a Go variable. Slices keep what lies between length and capacity.
  `View` is what a program sees in it.
- `Encoder.Reports` is the contract of an encoding step. Whatever happens, a prefix of the encoding is
  written. A step is accepted only if the value is encodable, and then everything is written unless the
  error is set. So buffered and unbuffered paths cannot differ.
- A sort is any run of in-range swaps that leaves the keys sorted. The run is a parameter, so results hold
  for every order a sort may leave equal keys in.
- A struct codec's table is read at run time as `FieldWords.Packs` allows: the tables `Scanner.ScanStruct`
  fills satisfy it, and inside a tree the codecs are run over any such table, with fields skipped anywhere.
- Go's `int` is 64 bits. Sizes that Go bounds by the address space are natural numbers here. Inputs of at
  most half of maxInt bytes are assumed where an in-memory decoder is compared with a stream, which refuses
  larger blocks, and lists short enough that ten bytes an element can be addressed.

## What is not true of the code

Decoding over a destination that was used before accepts more than the format allows. `Acceptance` says
exactly when, for every codec tree, destination and input.

- The direct struct path reads a `[]byte` field without checking that enough input remains when the
  capacity suffices. An in-memory read may then come up short and still succeed, and old bytes are kept.
  `DirectPath.ShortReadSlips` is a truncated struct that gets through. A union arm is always decoded in
  memory, from its body, so the same can happen inside a body read from a stream: `Truncation.ArmSlips`.
- A slice of elements without wire data that is already long enough is not held to the allocation limit.

Nothing else slips (`Acceptance.IntoExactly`), and nothing slips into a fresh destination. A truncated
encoding can be accepted over a used destination in memory, exactly when it slips, but never on a stream,
because a body that is cut short is not handed out (`Truncation.TruncationExactly`). For one struct,
`DirectPath.DirectPathExact` gives the condition under which the direct path and the field-by-field path
part.

## Model

| member | source | states |
|---|---|---|
| Varint.AcceptedGroups | reader.go:91-108 | a read succeeds exactly when the input starts with a terminated group of at most ten bytes whose base-128 sum is below 2^64; the result is that sum and the rest of the input |
| Varint.TenthByte | reader.go:99-104 | the decoder's only range test, on the tenth byte, decides exactly whether the sum of a ten-byte group fits 64 bits |
| Varint.UvarintShape | encoder.go:158-172 | the encoder writes one terminated group whose sum is the number and whose length is `uvarintSize` |
| Varint.SizeExact | codecs.go:299-306 | `uvarintSize(x) <= k` exactly when x < 128^k |
| Varint.SizeAtMostTen | encoder.go:158-172 | no 64-bit number needs an eleventh byte of the scratch array |
| Varint.SizeMonotone | codecs.go:299-306 | larger numbers never take fewer bytes |
| Varint.UvarintRoundTrip | encoder.go:158-172 | every 64-bit number is read back before any suffix |
| Varint.ReadUvarintShape | reader.go:91-108 | a successful read consumes one to ten bytes, a prefix, and never fewer than the encoder would write: the encoder's form is the shortest accepted |
| Varint.ReadUvarintLocal | reader.go:91-108 | a read depends only on the bytes it consumes |
| Varint.StopsExactly | reader.go:91-108 | a read meets the end of input exactly when fewer than ten bytes are left and all continue, overflows exactly when nine continue and the tenth is above 1, and stops after the first byte that does not continue, the tenth or the last |
| Varint.ZigZagBijection | encoder.go:143-147 | zigzag and its inverse undo each other, and map int64 exactly onto uint64 |
| Varint.ZigZagMatchesBits | reader.go:169 | the shift-and-xor forms used by the encoder and by `decodeVarint` compute the arithmetic zigzag and its inverse on all 64-bit words |
| Varint.VarintValueRoundTrip | reader.go:162-167 | narrowing a decoded pattern gives back every value of the slot's type, for each width and signedness |
| Wire.LERoundTrip | encoder.go:174-187 | fixed-width little-endian words are read back |
| Wire.LEOfFromLE | decoder.go:77-99 | the value read from any fixed-width word is written as the same bytes |
| Wire.LEDigit | encoder.go:174-187 | byte j of a fixed-width word is its digit for 256^j: the low byte comes first |
| Bits.XorSelfInverse | sorted/timeseries.go:32-36 | XOR with the same word twice is the identity |
| Bits.XorBits | sorted/timeseries.go:35 | XOR sets a bit exactly when its operands differ there, for every bit |
| Bits.OrBits | reader.go:105 | or sets a bit exactly when one of its operands has it, for every bit |
| Bits.ReverseInvolution | sorted/timeseries.go:34 | reversing k bits twice is the identity on k-bit words |
| Bits.ReverseBits | sorted/timeseries.go:34 | reversal exchanges bit i and bit k - 1 - i, for every i below k |
| Reader.Reader.Read | reader.go:64-71 | fewer bytes than asked for when fewer remain, and end of input only when none do; what is read and what remains is what was there |
| Reader.Reader.ReadByte | reader.go:73-80 | one byte, or end of input with the offset unchanged |
| Reader.Reader.Slice | reader.go:82-89 | succeeds exactly when n bytes remain (and, on a stream, n is at most half of maxInt), and hands out exactly those |
| Reader.Reader.ReadUvarint | reader.go:91-108 | the byte loop with its shifts and ors returns the group's value, the error (none, end of input, overflow) and the offset that the arithmetic grammar gives, in success and in failure |
| Reader.Reader.ReadVarint | reader.go:171-174 | the same through zigzag |
| Reader.Reader.ReadEach | codecs.go:669-678 | the one-at-a-time loop: elements written before stopping, error, offset |
| Reader.Reader.ReadVarints | reader.go:115-160 | the unrolled bulk decoder leaves what the one-at-a-time loop leaves, for every buffer, offset, width and signedness: same elements, same error, same offset, later slots untouched |
| Reader.Reader.NextGroup | reader.go:123-138 | the inline one- and two-byte cases agree with the plain read of one group |
| Reader.Reader.NextLongGroup | reader.go:139-155 | so does the inner loop, overflow and end of input included |
| Reader.AccumulateAdds | reader.go:106 | or-ing a shifted seven-bit group into the value is addition: nothing overlaps, and nothing is cut off as long as a tenth byte is at most 1 |
| Codec.Lookup | union.go:38-43 | the arm that carries a tag, or none when no arm does |
| Codec.Selected | union.go:95-113 | the first arm that is set, or none |
| RoundTrip.PrimRoundTrip | codecs.go:1634-1734 | every primitive is read back before any suffix |
| RoundTrip.PrimKeyRoundTrip | codecs.go:1544-1628 | so is every primitive map key in its own fixed-width or short-length form |
| Format.PointerFlag | codecs.go:756-763 | for every element codec and value the first byte of a pointer is the wire byte of the bool `is nil`, which is 1 for true and 0 for false, and what follows is nothing or the target |
| Format.FlagRead | codecs.go:764-777 | for every flag byte and rest: the byte 1 alone is nil, and true; any other is a set pointer read from the rest, and false |
| Format.IntegerKey | codecs.go:1549-1609 | for each of the six kinds with a width of their own: a key has 2, 4 or 8 bytes that spell it modulo 2^bits, low byte first; too few bytes are rejected, and any others are read, from exactly that many, as the number of the type with those low bytes |
| Format.OtherKeys | codecs.go:1561-1627 | a string key is two bytes of length and the text, in both directions; every other primitive key is written and read as a value is |
| Format.PutAssigns | codecs.go:1538 | assigning to a key gives it the new value and changes no other, so the last value of a repeated key is the one that stays |
| RoundTrip.CrossSchema | union.go:117-149 | for writer and reader schemas that differ only in union arms: the reader gets the written value with exactly the arms it does not know cleared, all else intact, and consumes exactly the encoding |
| RoundTrip.CrossUnion | union.go:44-149 | the union step: an unknown tag clears all slots and skips the body, a known one sets its slot alone |
| RoundTrip.CrossEntries | codecs.go:1462-1542 | the map step: entries with distinct keys come back in the order they were written |
| Compatibility.RoundTripLaw | codecs.go:73-156 | decoding the encoding of any value of any codec tree, before any suffix, returns the value and the suffix |
| Compatibility.PrefixFree | codecs.go:73-93 | no encoding is a proper prefix of another, and equal encodings come from equal values |
| Compatibility.ForwardCompatible | union.go:117-149 | a reader with arms deleted anywhere in the tree gets the projected value and the same bytes consumed, and the whole value exactly when it keeps every arm the value selects |
| Compatibility.BackwardCompatible | scanner.go:242-251 | a reader with arms added reads old payloads with nothing lost |
| Compatibility.ErasesSelf | union.go:117-149 | every schema is a version of itself |
| Compatibility.ArmsChosen | union.go:117-149 | any choice of a union's arms, in any order and each replaced by a version of its own codec, is a version of the union |
| Compatibility.ArmDeleted | union.go:117-149 | deleting any one arm of any union gives a version of it |
| Compatibility.VersionInside | union.go:117-149 | a version of a part makes a version of the whole, behind a pointer, in a slice or array, as a map value or as any field of a struct |
| Compatibility.WholeIffKept | union.go:117-149 | nothing is lost in translation if and only if every selected arm is known to the reader |
| Compatibility.EntryOrder | codecs.go:1462-1475 | in whatever order Go iterates one map, the decoded map is the same and the encoding has the same length |
| MapOrder.SameOnWire | codecs.go:1462-1475 | listing the maps of a value in another order, at every level, leaves it as representable and as long on the wire |
| MapOrder.OuterOrder | codecs.go:1462-1475 | two listings of one map's entries are the same value up to order |
| GoMaps.SameExactly | codecs.go:1462-1475 | two values of a type are the same up to order if and only if they are one Go value, with real maps in place of lists of entries at every level |
| MapOrder.IterationOrder | codecs.go:1462-1475 | in whatever order Go iterates the maps of a value, maps inside maps too, the encoding decodes before any suffix to the same value up to that order |
| Analysis.EncAtLeast | codecs.go:827-863 | every encoding has at least `wireMinBytes` bytes |
| Analysis.DecAtLeast | codecs.go:827-863 | every successful decode consumes a prefix of at least `wireMinBytes` bytes |
| Analysis.EntriesAtLeast | codecs.go:1477-1542 | decoding n map entries consumes at least n times the least entry |
| Analysis.EarlyMinSound | codecs.go:1354-1489 | the constants of the early checks (3 for string maps, 9 for uint64 maps, the computed minimum otherwise) never exceed the least entry |
| Analysis.ZeroIffMin | codecs.go:812-863 | `wireMinBytes(c) == 0` exactly when `isZeroWireCodec(c)` |
| Analysis.ZeroWireExactly | codecs.go:812-825 | `isZeroWireCodec(c)` exactly when every encodable value has the empty encoding |
| Analysis.ZeroWireDecode | codecs.go:142-145 | skipping the element loop is right: a zero-wire codec decodes any input to its zero value and consumes nothing |
| Analysis.DecLocal | codecs.go:95-156 | a successful decode depends only on the bytes it consumed: anything may follow them |
| Analysis.TruncationDetected | reader.go:82-108 | every strict prefix of an encoding is rejected |
| Agreement.IntoOk | codecs.go:95-156 | whatever the grammar accepts, the library's decoder accepts, in memory and from a stream, into any destination, and leaves the decoded value visible there: the early checks, the reuse of memory and the direct struct path change nothing |
| Acceptance.IntoExactly | codecs.go:95-156 | for every codec tree, destination and input, in memory and from a stream: the decoder accepts what the grammar accepts and what slips past one of two guards (`SlipsIn`), nothing else, and nothing the grammar accepts slips |
| SlipGuards.DirectBytesSlip | codecs.go:1042-1058 | the first guard: the direct `[]byte` branch accepts beyond the grammar exactly in memory, when the capacity suffices and some but not all bytes remain |
| SlipGuards.ShortReadLeaves | codecs.go:1042-1062 | after a short read the value has the length on the wire: what remained of the input and then, byte for byte, what the memory held |
| SlipGuards.BytesLeave | codecs.go:227-257 | a byte slice keeps its memory when it is large enough, and what lies behind the value in it; otherwise, and from a stream, its capacity is its length |
| SlipGuards.BoolsLeave | codecs.go:363-391 | a bool slice keeps its memory in the same way, in memory and from a stream |
| SlipGuards.SliceLeaves | codecs.go:109-156 | a slice keeps its elements' memory when there is room, those behind its new length as they were, and otherwise has room for its elements and no more |
| SlipGuards.ZeroWireLeaves | codecs.go:99-109 | a slice of elements without wire data that need not grow takes the length on the wire and reads nothing, above the limit too, where the grammar fails |
| Acceptance.SliceExactly | codecs.go:33-42 | the second guard: a slice without wire data that need not grow is not held to the allocation limit; other slices slip through their elements only |
| Acceptance.UnionExactly | union.go:117-149 | a union slips exactly when its arm is already set and slips in memory on the body alone, on a stream too |
| SlipGuards.FreshNeverSlips | codecs.go:1503-1519 | nothing slips into a fresh destination, so nothing slips inside a map |
| FreshStart.IntoOnly | codecs.go:95-156 | into a fresh destination the decoder accepts nothing but what the grammar accepts |
| Agreement.SliceCheckPasses | decoder.go:204-222 | no early availability check of a slice codec refuses a count whose elements would decode |
| Agreement.ArrayCheckPasses | codecs.go:334-338 | nor does one of an array codec |
| Agreement.MapCheckPasses | codecs.go:1484-1489 | nor does one of a map codec |
| FreshStart.SliceStreamAgree | decoder.go:178-222 | for every byte string and schema, in-memory and stream decoding into a fresh variable agree on success, value and consumption |
| Agreement.DestinationIndependent | codecs.go:33-42 | for any encoding and any prior destination (stale elements and capacity, set pointers, other arms, populated maps) the result is the value |
| Agreement.ForwardInto | union.go:117-149 | forward compatibility into any destination, in memory and from a stream |
| Truncation.SlipsOnStream | union.go:117-149 | what slips on a stream is rejected by the grammar however the input goes on |
| Truncation.TruncationExactly | decoder.go:204-222 | over any destination a strict prefix of an encoding is accepted exactly when it slips; never over a fresh one, and never on a stream, whatever the destination held |
| Truncation.ArmSlips | union.go:163-185 | a complete message on a stream, with a short record in its body, that slips over an arm already set |
| Truncation.SlipsInside | codecs.go:764-777 | what slips slips inside any type that holds it and reuses the old value: behind a set pointer, in an array, in a struct, in a slice with the room |
| Truncation.SlipsInArm | union.go:117-149 | what slips in memory slips inside the body of an arm that is set, in memory and from a stream |
| FieldWords.PackedApart | codecs.go:783-799 | offset, kind and the three flags packed in one word are read back unchanged, whatever the others are |
| FieldWords.KindCodeFaithful | codecs.go:868-870 | the kind read from the word is the kind of the field's codec, for every codec |
| FieldWords.PackFields | scanner.go:191-236 | the packing loop fills a table in which every included field's entry gives back its codec, offset and kind and is marked included and writable, skipped ones are not, and the first word carries the direct flag exactly when an included field is a primitive |
| FieldWords.SlotReads | codecs.go:871-944 | slot by slot, the fields the table's flags let through are the included fields in order, each with its own kind |
| DirectPath.DirectEncSame | codecs.go:871-935 | for every field the switch on its kind writes the bytes the field's codec writes; the running encoder takes the kind from the packed word |
| DirectPath.DirectDecSame | codecs.go:945-1090 | for every field the switch on its kind is the per-field decoder of the direct path; the running decoder takes the kind from the packed word |
| DirectPath.DirectBytesExact | codecs.go:1042-1058 | the direct `[]byte` branch has the outcome of `byteSliceCodec` if and only if the reader is a stream, or the capacity is too small, or all n bytes remain, or none does |
| DirectPath.DirectVaruintsSame | codecs.go:1059-1091 | skipping the availability check for unsigned slices never changes the outcome |
| DirectPath.EmptyInput | codecs.go:812-825 | at the end of input exactly the zero-wire codecs decode, whatever the destination |
| DirectPath.DirectPathExact | codecs.go:945-1110 | for every field list, destination and input, on a stream and in memory: decoding one struct's fields directly or through their codecs has the same outcome if and only if the reader is a stream or no short read of a `[]byte` field is followed by fields without wire data only; structs inside are decoded alike on both sides, and for whole trees `Acceptance.IntoExactly` compares with the grammar |
| DirectPath.ShortReadSlips | codecs.go:1042-1058 | a concrete truncated input that the direct path accepts, keeping a stale byte, and the field-by-field path rejects |
| Arena.Arena.Open | codecs.go:1216-1225 | the arena becomes available unless nothing remains to be read; an existing one is kept; no view changes |
| Arena.Arena.Append | codecs.go:1227-1237 | the view handed out shows the bytes appended and, in place or after a move to larger memory, every view ever handed out still shows its own and no two overlap |
| Arena.Arena.Grow | codecs.go:1229 | growing moves the arena to fresh memory and leaves every view intact |
| Arena.Arena.Drop | union.go:171-173 | forgetting the arena leaves every view intact |
| Arena.Arena.HandOut | codecs.go:1231 | the view's capacity stops where the view does, and all views stay intact and apart |
| Arena.GoAppend | codecs.go:1229 | Go's append on a slice of memory: in place over whatever lies behind while the capacity lasts, nothing else touched, and otherwise in new memory |
| Arena.Arena.Extend | codecs.go:1227-1232 | appending through any view ever handed out leaves every view intact, that one included: its capacity is its length, so the bytes go to new memory |
| Arena.RoomyAppend | codecs.go:1231 | without the third index it fails: appending through a view with room behind it overwrites the view that follows |
| Decoder.Decoder.ReadLen | decoder.go:185-190 | a length is accepted exactly when it fits an int |
| Decoder.Decoder.ReadSlice | decoder.go:231-255 | a length and that many bytes |
| Decoder.Decoder.HasBytes | decoder.go:204-212 | in memory, whether n bytes remain; a stream never refuses |
| Decoder.Decoder.HasElements | decoder.go:214-222 | in memory, whether n elements of the given least size can remain; a stream never refuses |
| Decoder.Decoder.DecodeBytes | codecs.go:227-257 | the cursor, the copy and the resize compute the `[]byte` grammar into the destination |
| Decoder.Decoder.DecodeBools | codecs.go:363-392 | the same for `[]bool` |
| Decoder.Decoder.DecodeDirectBytes | codecs.go:1042-1058 | the direct branch computes its own variant, short reads included |
| Decoder.Decoder.DecodeTo | codecs.go:95-156 | for every codec tree, destination, input and reader, the running decoder computes `DecInto`; the reader has its buffer back, every earlier view is intact and still listed |
| Decoder.Decoder.DecodePointer | codecs.go:764-777 | a set pointer's target is reused, a nil one gets a new target |
| Decoder.Decoder.DecodeCells | codecs.go:140-156 | the element loop all slice and array codecs share |
| Decoder.Decoder.DecodeInts | codecs.go:640-678 | integer slices: bulk decoder in memory, single reads on a stream, same result |
| Decoder.Decoder.DecodeFixed | codecs.go:469-553 | fixed-width slices: one block of bytes cut into words gives what reading word by word gives |
| Decoder.Decoder.DecodeArray | codecs.go:307-349 | arrays of every flavour, with their early checks |
| Decoder.Decoder.DecodeSlice | codecs.go:95-156 | slices of every flavour, with their early checks and reuse of capacity |
| Decoder.Decoder.DecodeFields | codecs.go:945-1110 | the loop over all slots of the packed table, skipping by the writable flag, direct or through the codecs by the first word's flag, computes the field grammar |
| Decoder.Decoder.DecodeDirect | codecs.go:954-1090 | the switch on the kind read from the packed word computes the direct decoder's field |
| Decoder.Decoder.DecodeScalar | codecs.go:955-1041 | its primitive cases |
| Decoder.Decoder.DecodeKey | codecs.go:1574-1628 | map keys, through the arena or not: the key the grammar reads (whose widths `Format.IntegerKey` and `GoReads.ReadsExactly` fix by number), and a plain string is the text of a view handed out |
| Decoder.Decoder.DecodeVal | codecs.go:1510-1533 | map values, through the arena or not: same value, and a plain string or non-empty byte slice is the text of a view handed out |
| Decoder.Decoder.DecodeEntries | codecs.go:1507-1539 | the entry loop: every plain string or byte slice in the resulting list is the text of a view that is listed and intact |
| Decoder.Decoder.DecodeMap | codecs.go:1477-1542 | all three map codecs: early check, cleared destination, entries in input order, last value of a repeated key wins; decoded in memory, every plain string or byte slice in the map is the text of an intact arena view |
| Decoder.NoEntries | codecs.go:1216-1225 | with nothing left to read no arena is opened, and no entry with a plain string decodes either |
| Decoder.FindArm | union.go:38-43 | the running decoder finds the arm through the dense table |
| Decoder.Decoder.DecodeUnion | union.go:117-149 | window discipline: once the tagged header is read the reader ends with its own buffer exactly past the body, on success and on arm failure; an unknown tag and a failed arm leave no arm set; an arena born in the window does not outlive it |
| Decoder.Decoder.DecodeArm | union.go:163-185 | the arm decodes the body alone, swapped in or on another decoder; the caller's buffer and offset are given back either way |
| Decoder.Decoder.Decode | decoder.go:46-63 | one value with a new arena; views of earlier calls stay intact |
| Session.Run | decoder.go:21-28 | any run of jobs on one pooled decoder: each result is that of its input alone, and at the end every view ever handed out is intact and no two overlap |
| Session.Unmarshal | decoder.go:21-28 | decodes in memory what the grammar of destinations gives |
| Session.Exchange | encoder.go:55-67 | marshal with one schema, unmarshal with one that lacks arms, into any destination: exactly the encodable values get through, and the projected value arrives |
| Encoder.Encoder.Write | encoder.go:136-141 | the error sticks: nothing is written after it, and what a failing write left is a prefix |
| Encoder.Encoder.PutUvarint | encoder.go:163-170 | the scratch loop stays within ten bytes and leaves exactly the varint |
| Encoder.Encoder.WriteUvarint | encoder.go:158-172 | asks the writer for exactly the varint |
| Encoder.Encoder.WriteVarint | encoder.go:143-156 | asks the writer for exactly the varint of the zigzag number, computed with shifts and complement |
| Encoder.Encoder.WriteTagged | encoder.go:224-230 | tag, length, body; no write for an empty body |
| Encoder.Encoder.EncodeTo | codecs.go:73-93 | for every codec tree and value, whichever path is taken: accepted exactly when the value is encodable (a failed writer may also surface as a refusal), a prefix of the encoding is written in every case and all of it unless the error is set |
| Encoder.Encoder.EncodePointer | codecs.go:756-763 | the encoding of the pointer, whose flag `Format.PointerFlag` fixes as 1 for nil and 0 before a target |
| Encoder.Encoder.EncodeSeq | codecs.go:266-298 | buffered and step-by-step encoding of slices and arrays emit the same bytes |
| Encoder.Encoder.EncodeVarints | codecs.go:570-715 | one buffer of varints or one write for each: same bytes |
| Encoder.Encoder.ElementsSize | codecs.go:271-276 | the size reserved for a slice of strings or fixed-width words is exactly the size of its elements' encoding |
| Encoder.Encoder.SizeOfUvarint | codecs.go:299-306 | the counting loop gives the number of bytes written |
| Encoder.Encoder.BufferMany | codecs.go:283-292 | the appended buffer is the encoding of the elements |
| Encoder.Encoder.EncodeFields | codecs.go:871-944 | the loop over all slots of the packed table, skipping by the included flag, direct or through the codecs by the first word's flag, writes the struct fields in order and stops at the first that is refused |
| Encoder.Encoder.EncodeDirect | codecs.go:879-933 | the switch on the kind read from the packed word writes what the field's codec would |
| Encoder.Encoder.FindArm | union.go:95-113 | reports several arms exactly when at least two are set, and otherwise the one that is, if any |
| Encoder.Encoder.EncodeUnion | union.go:44-67 | a union with two arms set, or whose arm cannot be encoded, leaves the output untouched; otherwise tag and body of the arm, encoded apart, or tag 0 and an empty body |
| Encoder.Encoder.EncodeMap | codecs.go:1311-1352 | refused exactly when a key is too long or a part cannot be encoded; otherwise the length and the entries |
| Encoder.Encoder.EncodeMapAtOnce | codecs.go:1313-1333 | the buffered path, which sizes and fills in two unrelated iteration orders, has the outcome of the step-by-step path, and writes nothing when it refuses |
| Encoder.Encoder.WriteKey | codecs.go:1544-1572 | keys in their own form, whose widths `Format.IntegerKey` fixes by number; a string key over 65535 bytes is refused before anything of it is written |
| Encoder.Encoder.EntriesRoom | codecs.go:1315-1321 | the sizing pass refuses exactly the maps with a long key |
| Encoder.Encoder.BufferEntries | codecs.go:1325-1330 | the filling pass appends the entries' encoding |
| Encoder.RoomAnyOrder | codecs.go:1316-1321 | the room summed does not depend on the order of iteration |
| Encoder.RoomSuffices | codecs.go:1403-1428 | room summed in one order holds the bytes appended in any other: exactly for string maps, as an upper bound for uint64 maps |
| Encoder.Encoder.Encode | encoder.go:113-134 | succeeds exactly when the value is encodable and the writer did not fail; then the encoding was appended; otherwise at most a prefix of it |
| Encoder.Marshal | encoder.go:55-67 | into memory exactly the encodable values succeed, with exactly their encoding |
| Scanner.AcceptedTypes | scanner.go:30-57 | a type is accepted if and only if it is scannable: valid and distinct arm tags on pointer fields, no mix of arms and plain fields, and parts that are scannable |
| Scanner.ScannedWellFormed | scanner.go:30-57 | every tree the scanner builds from a type whose map keys are compared by content satisfies the well-formedness that all the laws assume |
| Scanner.ModelledKinds | scanner.go:275-284 | all sixteen primitive kinds are modelled, named or not |
| Scanner.ModelledParts | scanner.go:42-52 | pointers, arrays, slices and structs of modelled types are modelled, and so are maps to them from exactly the types compared by content |
| GoValues.ValuesExactly | scanner.go:30-57 | for every modelled type that scans, the values of the codec tree are exactly the values of the Go type, defined by recursion on the type with literal ranges: kinds, pointers, arrays, slices, bytes, bools, the fields with wire data in order, arms, maps |
| GoValues.SendsExactly | union.go:44-52 | the encoder of the scanned tree refuses exactly the values of the type with two arms of one union set, or a string key over 65535 bytes, at any depth |
| GoWrites.WrittenExactly | codecs.go:73-93 | for every modelled type and value, a byte string is the encoding by the scanned tree if and only if it is the type's own message, said without scanner, codec or encoder: shortest groups, words digit by digit, flags, parts in order, key widths by kind |
| GoReads.ReadsExactly | codecs.go:95-156 | for every modelled type, byte string, value and rest, the scanned tree reads the string as the value, leaving the rest, if and only if the type reads it so: tolerated zeros, narrowing to the one number in range, flags, unknown tags, skipped ends of bodies, repeated keys |
| GoLeaves.SpellsExactly | encoder.go:158-172 | the encoder's group for a number is the one group for it that does not end in a zero digit |
| GoLeaves.WrapExactly | reader.go:162-167 | narrowing to a signed type gives the one number in the type's range with the same low bits, for every integer |
| GoLeaves.PrimReadsExactly | codecs.go:1672-1734 | every primitive kind is read from exactly its own byte strings, numbers out of range included |
| Scanner.KindOfType | scanner.go:203-222 | the kind that is packed is the number Go gives the field's own type, or one of the four for slices with a fast path |
| Scanner.TableDescribes | scanner.go:191-236 | a table that mirrors the slots tells the Go struct's fields apart: included or not, offset, codec, kind, and the direct flag on the first word exactly when an included field is primitive |
| FieldTags.FieldKinds | scanner.go:139-150 | which fields have no wire data, which are arms and which are plain, by name, visibility and tag |
| FieldTags.DecimalExactly | scanner.go:154 | the digits of a tag are a number exactly when they are a decimal numeral for it, by place value |
| FieldTags.ArmTagExactly | scanner.go:146-158 | a field has arm number n exactly when its tag is a numeral for n, from 1 to 255, followed by a comma and `union` |
| FieldTags.UnionErrors | scanner.go:151-187 | the error for a bad tag, an arm that is no pointer, a number used twice, and a plain field beside an arm |
| Scanner.ScanStruct | scanner.go:127-238 | the two loops give the tree of the recursive description, whose values and messages are the Go type's own by `GoValues` and `GoWrites`, or its first error; for a plain struct a table that tells of every Go field whether it is included, its offset, the codec of its type and the number of its type's own kind |
| Scanner.CollectArms | scanner.go:135-184 | the arm loop: same arms, same first error, the largest tag bounds all |
| Scanner.CollectFields | scanner.go:191-233 | the field loop: same codecs, same first error, and a packed table whose kinds are those of the fields' types by number |
| Scanner.UnionTable.constructor | scanner.go:242-251 | the dense table holds every arm under its tag and nothing else |
| Scanner.UnionTable.Find | union.go:38-43 | for every 64-bit tag the table lookup is the search through the arms |
| Permutation.Sort | sorted/codecs.go:90-92 | making a sort's swaps in place leaves the run's result in the caller's array |
| Permutation.IsSorted | sorted/codecs.go:184-191 | comparing neighbours decides whether the whole list is sorted |
| Permutation.ApplyPermutes | sorted/types.go:83-86 | any run of in-range swaps preserves the multiset |
| Permutation.ApplyZip | sorted/types.go:83-86 | the same run on two lists moves pairs as wholes |
| Permutation.SortedUnique | sorted/codecs.go:90-92 | a multiset has one sorted listing |
| Permutation.SortExists | sorted/codecs.go:90-92 | every list can be sorted by in-range swaps, so the contract asked of the standard sort is never asked in vain |
| SortedInts.Telescopes | sorted/codecs.go:61-86 | adding a decoded difference to the previous word gives the element back for every width, also when the difference wrapped around 64 bits |
| SortedInts.DeltasRoundTrip | sorted/codecs.go:43-86 | differences decode to the list they came from, sorted or not |
| SortedInts.AppendDeltas | sorted/codecs.go:43-60 | the loop appends exactly the list's differences |
| SortedInts.CountVarints | sorted/codecs.go:175-182 | counts the bytes that end a varint |
| SortedInts.CountIsLength | sorted/codecs.go:175-182 | whenever bytes decode at all, that count is the number of elements and every byte is consumed |
| SortedInts.DecodeDeltas | sorted/codecs.go:61-86 | for arbitrary bytes and a destination sized by the count no index is out of range; success exactly when all bytes decode, and then exactly that many elements are written and no others touched |
| SortedInts.EncodeSorted | sorted/codecs.go:88-121 | sorts the caller's slice in place unless it is sorted, then writes its differences as one blob |
| SortedInts.DecodeSorted | sorted/codecs.go:122-168 | reads them back, reusing the destination's memory when it is large enough |
| SortedInts.SortedRoundTrip | sorted/codecs.go:88-168 | for every width and whatever swaps the sort makes: the slice ends sorted with the same elements and decodes to itself before any suffix, and any list with these elements ends as the same slice, so encoding again gives the same bytes |
| SortedInts.SortedCanonical | sorted/codecs.go:88-121 | lists with the same elements have the same encoding, whatever their order and whatever the sort does |
| SortedInts.DeltasNoLonger | sorted/timeseries.go:99-107 | for every non-decreasing unsigned list the differences take no more bytes than the plain varints |
| SortedInts.ReadDelta | sorted/timeseries.go:109-121 | fills n slots and returns how many bytes it used: where the next stream starts |
| SortedInts.EncodeStamps | sorted/codecs.go:197-207 | timestamps: sorted in place, count, size, differences |
| SortedInts.DecodeStamps | sorted/codecs.go:208-243 | reads them back, with the early check on the count |
| SortedInts.StampsRoundTrip | sorted/codecs.go:197-243 | timestamps end sorted with the same elements and decode to themselves before any suffix |
| SortedInts.StampsCheckSound | sorted/codecs.go:224-226 | the early check refuses nothing the loop would accept |
| StreamFormat.SortedMessage | sorted/codecs.go:88-121 | a byte string is the encoding of a sorted slice if and only if it is a size and that many bytes of shortest groups, one for each difference of neighbours modulo 2^64 |
| StreamFormat.SortedReads | sorted/codecs.go:122-168 | a list is read from exactly the blobs that are groups to their end, each element having the low bits of the sum of all differences up to it |
| StreamFormat.StampsMessage | sorted/codecs.go:197-207 | the same for timestamps: number, size, differences |
| StreamFormat.StampsReads | sorted/codecs.go:208-243 | timestamps are read from exactly a count and a body that starts with that many differences |
| Series.XorUndone | sorted/timeseries.go:31-36 | one step of the XOR stream gives back every 32-bit pattern |
| Series.XorsRoundTrip | sorted/timeseries.go:31-91 | XORs of bit-reversed patterns decode to the patterns before any suffix |
| Series.Pairs.Swap | sorted/types.go:83-86 | exchanges time and value together |
| Series.Pairs.Append | sorted/types.go:77-80 | extends both lists |
| Series.Pairs.Sort | sorted/types.go:81-86 | the same run of swaps on both lists |
| Series.Pairs.EncodeTo | sorted/timeseries.go:20-43 | lists of different lengths are refused before anything is touched or written; otherwise both lists are sorted together in place and the message of `StreamFormat.SeriesMessage` goes out |
| Series.DecodeSeries | sorted/counters.go:30-74 | both codecs' decoder computes the two-stream grammar, which `StreamFormat.SeriesReads` fixes bit by bit, into the two destinations |
| Series.WireRoundTrip | sorted/counters.go:14-74 | the boundary between the streams is recovered, and the check n > size/2 lets every encoder's output through |
| Series.SeriesRoundTrip | sorted/timeseries.go:20-95 | whatever swaps the sort makes: times end sorted, the (time, value) pairs are the same multiset, and decoding returns both lists before any suffix |
| Series.SeriesCheckSound | sorted/timeseries.go:61-63 | the early check refuses nothing the two loops would accept |
| StreamFormat.FlippedBits | sorted/timeseries.go:34 | bit i of a word of the XOR stream is bit 31 - i of the pattern, for every i below 32, by division and parity |
| StreamFormat.SeriesMessage | sorted/timeseries.go:20-43 | a byte string is the encoding of a series if and only if it is a count, a size, the differences of the times and, right behind them, the values: differences, or words whose every bit is that of the reversed pattern flipped by the one before |
| StreamFormat.SeriesReads | sorted/timeseries.go:44-94 | a series is read from exactly such messages: times by sums, patterns by the parity of each bit in all the words so far; what is left of the body is skipped |
| NoCopy.Encode | nocopy/types.go:268-299 | all three map codecs: refused exactly when the map has no room on the wire, before anything is written; buffered or step by step, the bytes are the map's message (`NoCopyFormat.MapWrittenExactly`) in the order of one pass |
| NoCopy.Fits | nocopy/types.go:345-354 | the limits on the number of entries and on the length of each value |
| NoCopy.Buffered | nocopy/types.go:273-290 | sized in one order, filled in another: the bytes of the filling order, and exactly the room reserved |
| NoCopy.SizeAnyOrder | nocopy/types.go:275-278 | the size summed in one order is exactly the size written in any other |
| NoCopy.Decode | nocopy/types.go:300-339 | clears the destination and computes the map grammar, which `NoCopyFormat.MapReadsExactly` fixes by number, with the capacity check |
| NoCopy.MapRoundTrip | nocopy/types.go:268-423 | whatever the order of the pass that wrote it, every map decodes to itself before any suffix, in memory and from a stream |
| NoCopy.RoomSound | nocopy/types.go:431-439 | the capacity check never refuses a count whose entries would all decode, for 2 and for 12 bytes an entry |
| NoCopy.MemoryStreamAgree | nocopy/types.go:453-480 | in memory and from a stream the same inputs decode, to the same map, leaving the same bytes |
| NoCopyFormat.MapWrittenExactly | nocopy/types.go:268-452 | for every order, a byte string is the encoding of a map if and only if it is the number of entries in four bytes (hashes) or two, low byte first, and the entries: an 8-byte key, a 4-byte length and the value, or two texts |
| NoCopyFormat.EncodedSize | nocopy/types.go:273-290 | whatever the order of writing, the message is as long as any pass over the map adds up: 4 and 12 + |v| for each hash, or 2 and two texts with their lengths |
| NoCopyFormat.MapReadsExactly | nocopy/types.go:300-423 | a map is read from exactly its own messages, whatever follows; the last value of a repeated key stays |
| NoCopyFormat.RefusedExactly | nocopy/types.go:345-354 | refused exactly from 2^16 entries on, or for hashes from 2^32 entries or a value of 2^32 bytes on |
| WireFormat.SmallStruct | codecs_test.go:23-31 | the bytes of a struct of two strings and an int16 |
| WireFormat.IntegerSlices | codecs_test.go:240-241 | the bytes of a signed and of an unsigned slice |
| WireFormat.OneEntryMap | codecs_test.go:71-73 | the bytes of a string map with one entry |
| WireFormat.OneFloat | codecs_test.go:71-73 | the bytes of the float64 100 |
| WireFormat.EmptyUnion | union_test.go:85 | the bytes of a union with no arm set |
| WireFormat.Flags | codecs.go:165-179 | the bytes of false and true, of a nil pointer, of a pointer to the byte 5 and of a slice of the two |
| WireFormat.ShortKey | codecs.go:1549-1550 | the bytes of a `map[int16]string` with one entry |
| WireFormat.OneArm | union.go:64 | the bytes of a union with its second arm set |
| WireFormat.OneComplex | codecs.go:1644-1649 | the bytes of the complex64 1+2i |
| WireFormat.RepeatedKey | codecs.go:1538 | a repeated key keeps its place and the last of its values |
| WireFormat.SortedOneToEight | sorted/codecs_test.go:28-33 | the bytes of the sorted int32s 1 to 8 |
| WireFormat.TwoStamps | sorted/codecs.go:197-207 | the bytes of the timestamps 1 and 3 |
| WireFormat.TwoCounters | sorted/counters.go:14-29 | the bytes of two counters |
| WireFormat.OnePoint | sorted/timeseries.go:20-43 | the bytes of a time series with the value 1.0, and its reversed pattern |
| WireFormat.OneText | nocopy/types.go:441-452 | the bytes of a dictionary, and of a byte map, with one entry |
| WireFormat.OneHash | nocopy/types.go:368-374 | the bytes of a hash map with one entry |
| WireFormat.Overflows | reader_test.go:36-39 | ten continuation bytes, and a tenth byte above 1, overflow; a lone continuation byte is the end of input |

## Left out

- Decoder.Decoder.DecodeTo: destinations are values, so aliasing between destinations and what a failed decode leaves half-written are not captured; the cursor, the arena and its views are heap objects.
- Decoder.Decoder.DecodeSlice: of `validateSliceLength` only the bound maxInt/2 is modelled; the bound by element size in memory and failing allocations are not.
- FieldWords.PackFields: offsets are packed and read back, but the address arithmetic behind them is not modelled; native `int` and `uint` are 64 bits wide.
- FreshStart.SliceStreamAgree: error kinds are not compared; they are modelled for varint reads only.
- Decoder.Decoder.DecodeMap: the tie between strings and arena views is stated for the entries of one map; for maps inside its values each inner call states it in turn.
- Series.SeriesRoundTrip: float values are 32-bit patterns; the rounding of float64 values to float32 is not modelled.
- Session.Exchange: the sides share no memory; pools, the schema cache and the recycling of buffers are not modelled.
- User hooks (`GetBinaryCodec`, `MarshalBinary`) and the append loop for elements without a known least size, which only they can reach.
- Recursive types: the scanner does not terminate on them, so codec trees are finite.
- Map keys that hold pointers or floats, which Go does not compare by content.
- Bytes other than 0 and 1 in the memory of a `[]bool`: they are kept as raw bytes, as the source keeps them.
- Floats and complex numbers are bit patterns of fixed width.
- Real I/O: a stream is a cursor that does not know how many bytes remain; a writer accepts some number of bytes and then fails.
- The standard library's sort, varint and float functions are represented by their contracts.
- The raw memory-cast slices of the nocopy and unsafe packages, and the sharing of memory between nocopy values and the input.
- JSON methods, conversions between strings and byte slices, capacity hints other than the sizes above, and the benchmark program.

# nanopb model

A Dafny model of the Protocol Buffers codec nanopb 0.3.9.6 (`EuroBond_Customer/Pods/nanopb`),
with proofs about whole messages. Check it with `dafny verify dfyconfig.toml`.

The codec reads and writes C structures described by arrays of `pb_field_t`. The model
follows the program: streams, the field iterator, the encoder and the decoder are classes and
methods with loops over mutable state, and each method is proved against a function. What the
codec is for is then proved about those functions, for all inputs.

| files | part of the program |
|---|---|
| `Bits`, `Wire`, `Varint32`, `Narrow` | varints, zigzag, fixed words, tags, blocks; the 32-bit reader and the 32-bit encoder of negative numbers |
| `Streams` | `pb_istream_t`, `pb_ostream_t`, substreams, the sizing stream |
| `Fields`, `Layout`, `FieldIterator` | descriptors, the macros that make them of C structures, the circular iterator of pb_common.c |
| `Encoding`, `Decoding`, `Records` | what the encoder writes and what the decoder makes of bytes, as functions; where records end |
| `Encoder`, `Decoder` | pb_encode.c and pb_decode.c as methods over streams, proved equal to those functions |
| `Footprint`, `Images`, `FlatDefaults`, `FlatDecoder`, `Readback` | pb_decode.c writing to the bytes of the destination: which bytes it may write, and that they hold the decoded message |
| `Schema`, `Transfer`, `RoundTrip`, `Messages` | valid structures, merging, schema evolution, round trip, delimited messages |
| `Format`, `Reception`, `Runs` | the wire format in numerals; what is made of arbitrary payloads; what a structure holds after its defaults and after a run |
| `Values`, `Locality`, `Order`, `Packed`, `Required`, `Framing`, `EmptyTypes`, `FixedArrays`, `Replacing`, `Submessages` | scalars, concatenation, field order, packed runs, required fields, well-typed structures, empty message types, fixed-count arrays, repeated submessages |
| `Nesting`, `Graphs`, `Cyclic`, `Termination`, `Unfolding`, `CyclicDecoder` | recursion depth; message types that contain themselves, when decoding them returns, and what |
| `Heap`, `Contents`, `Release`, `Allocation`, `PointerDecoder`, `Unions` | pointer fields: ownership, contents, pb_release, allocation sizes, decoding with an arbitrary allocator, unions that own allocations |

How the parts fit: `Transfer.MsgTransfer` says that decoding the encoding of a valid structure
is a merge of values (`Schema.Absorb`), which no byte takes part in. Round trip, evolution and
merging follow from it. `Encoder` and `Decoder` carry these results over to the imperative
programs: `Encoder.Encode` emits exactly `EncMsg`, and `Decoder.DecodeNoinit` computes exactly
`DecMsg`. `FlatDecoder.DecodeNoinit` leaves the same message in the bytes of the structure, and
`PointerDecoder.DecodeNoinit` builds it out of allocations. `Format`, `Reception` and `Runs` tell
the functions from outside, one without the other: which bytes are sent for a value, which payloads
are accepted as what, and which slot a run leaves. `Order`, `Packed`, `Required`, `Framing`,
`EmptyTypes`, `Submessages`, `Footprint` and `Nesting` are about arbitrary bytes, not only encoder
output.

Build parameters are constants left open: the width of `pb_size_t` (8, 16 or 32 bits), of
`size_t` (16, 32 or 64 bits) and of pointers. Arithmetic that wraps in C is written out.
`uint_fast8_t` is taken to be 8 bits wide, and `PB_MAX_REQUIRED_FIELDS` has its default, 64.

Structures appear in three forms. The specification has a map from member offsets to slots; a
slot holds the member together with its has-flag, count or which-tag, and `VRaw` stands for
memory that was not written. `FlatDecoder` works on an array of bytes, at the addresses of the
iterator; `Images.Holds` says that they hold a message. `PointerDecoder` has cells with addresses
into a map of live allocations; `realloc` may fail or place the block anywhere free, and
`Contents.ViewMsg` is the message that cells and allocations make up.

Where the code does not have the plain property, the model keeps the code, gives an input, and
states the exact condition:

- skipping where a length is not a `size_t`: `Wire.SkipTruncates`, `Wire.SkipExact`;
- the 32-bit varint reader: `Wire.Varint32OnCanonical`, `Varint32.LowWordOfVarint`;
- strings that fill their buffer: `Values.StringReceived`;
- a gap between oneofs that the iterator takes for a union: `Layout.GapMistaken`, `Layout.TrueOffsetsIff`;
- the default count of an array without one, which is written over its data or past it:
  `Footprint.DefaultCountOutside`, `Footprint.DefaultCountInside`; the entries of such an array are
  not initialized, but one that is received is received whole (`FixedArrays.ReceivedWhole`);
- a zero tag inside concatenated input: `Order.TerminatorHidesRest`, `Order.MergesUnlessTerminated`;
- repeated records of a submessage in a oneof or behind a pointer, which replace instead of merging:
  `Submessages.FirstIsLost`, `Submessages.MergingIff`; and in a oneof they lose what was allocated:
  `Unions.RepeatedIsLost`, `Unions.LosesIff`;
- defaults of types that contain themselves: `Termination.SelfDiverges`, `Termination.EntryDiverges`,
  `Termination.DecodeReturnsIff`;
- tag zero in an empty message type: `Framing.EmptyNested`, `Framing.EmptyDescriptor` for one level and
  `EmptyTypes.TypedIff` for all. That no record has such a tag (`Records.NoZeroTag`) is sufficient
  (`Framing.MsgTyped`) but not necessary: `EmptyTypes.LaterRecordMends`.

Preconditions that come from the source: tags are distinct, nonzero and at most 2^29-1
and sizes are those of objects (`Schema.WellFormed`); counts are within `array_size` and embedded
lengths are 32-bit numbers and `size_t` (`Schema.Valid`), as those of encoder output are; values
that are present fit their C types (`Encoder.Matches`, which every valid structure meets);
descriptors are those of C structures and default values fit their members (`Footprint.Fits`, which
`StructureFits` derives from the macros and the layout of the members); the destination of `PointerDecoder.Decode`
owns no allocation, array entries past the counts included, as in zeroed storage: pb_decode
overwrites pointers, and on a broken length prefix it releases an array entry that it has not
initialized.

## Model

| member | source | states |
|---|---|---|
| Wire.VarintRoundTrip | EuroBond_Customer/Pods/nanopb/pb_decode.c:255-275 | every 64-bit value is read back from its encoding, which is consumed exactly and has at most 10 bytes |
| Wire.Varint32OnCanonical | EuroBond_Customer/Pods/nanopb/pb_decode.c:187-247 | the separate 32-bit reader on the encoding of any 64-bit value: the exact set it rejects, and the low 32 bits with exact consumption otherwise |
| Wire.Varint32Cases | EuroBond_Customer/Pods/nanopb/pb_decode.c:187-247 | 32-bit values and sign-extended negative ones are read as their low 32 bits; everything in [2^32, 2^63) is rejected |
| Wire.Varint32AcceptsNonExtension | EuroBond_Customer/Pods/nanopb/pb_decode.c:211-226 | counterexample: an accepted 64-bit value that is neither 32-bit nor a sign extension |
| Varint32.LowWordOfVarint | EuroBond_Customer/Pods/nanopb/pb_decode.c:187-275 | on arbitrary bytes: what the 32-bit reader accepts is the low word of what the 64-bit reader reads, from the same bytes, if and only if one of the first ten bytes ends it; longer encodings the 64-bit reader refuses |
| Varint32.Varint32Accepts | EuroBond_Customer/Pods/nanopb/pb_decode.c:187-247 | of all varints of at most ten bytes, canonical or not, the 32-bit reader accepts those whose fifth byte, if it is the last, has four bits, and whose later bytes are zero or extend the sign of the low word |
| Varint32.Varint32Wraps | EuroBond_Customer/Pods/nanopb/pb_decode.c:205-234 | counterexample: an overlong encoding wraps the 8-bit position counter and yields a nonzero value from a late group, which the 64-bit reader refuses |
| Wire.ZigZagRoundTrip | EuroBond_Customer/Pods/nanopb/pb_encode.c:630-639 | zigzag decoding inverts zigzag encoding on every signed 64-bit integer, and the code is a 64-bit word |
| Wire.FixedRoundTrip | EuroBond_Customer/Pods/nanopb/pb_encode.c:641-667 | little-endian words of any width are read back |
| Wire.TagRoundTrip | EuroBond_Customer/Pods/nanopb/pb_decode.c:298-319 | a tag with its wire type is read back for every nonzero key below 2^32 |
| Wire.BlockRoundTrip | EuroBond_Customer/Pods/nanopb/pb_decode.c:372-385 | a length-delimited block below 2^32 bytes is cut out of any continuation exactly |
| Wire.SkipLocal | EuroBond_Customer/Pods/nanopb/pb_decode.c:321-331 | skipping a payload depends on no byte behind it |
| Wire.SkipExact | EuroBond_Customer/Pods/nanopb/pb_decode.c:289-296 | skipping is exact (the announced block, or failure if it is not there) if and only if the announced length is a size_t, or its truncation is not there either |
| Wire.SkipTruncates | EuroBond_Customer/Pods/nanopb/pb_decode.c:289-296 | counterexample: with a 16-bit size_t a block of 65536 bytes is skipped as an empty one |
| Format.VarintSent | EuroBond_Customer/Pods/nanopb/pb_encode.c:608-628 | a varint is the base-128 digits of the number, least significant first and none too many, the continuation bit on all bytes but the last |
| Format.VarintRead | EuroBond_Customer/Pods/nanopb/pb_decode.c:255-275 | arbitrary bytes are read as such a number exactly when one of the first ten ends it, modulo 2^64 |
| Format.RecordSent | EuroBond_Customer/Pods/nanopb/pb_encode.c:675-707 | a record starts with the varint of eight times its tag plus 0, 1, 2 or 5 by the type of the field |
| Format.ArraySent | EuroBond_Customer/Pods/nanopb/pb_encode.c:147-236 | an array of numbers is one block under wire type 2, any other array one record for each entry, an empty one nothing |
| Format.EntriesSent | EuroBond_Customer/Pods/nanopb/pb_encode.c:190-236 | entries are sent in their order |
| Format.MessageSent | EuroBond_Customer/Pods/nanopb/pb_encode.c:528-550 | fields are sent in the order of the descriptor, one behind the other |
| Format.SubmessageSent | EuroBond_Customer/Pods/nanopb/pb_encode.c:717-765 | a submessage is its encoding behind the length of that |
| Format.Omitted | EuroBond_Customer/Pods/nanopb/pb_encode.c:341-428 | nothing is sent of a field exactly when it is an empty array, its has-flag is false, another member of its union is in effect, or it is zero and has no has-flag |
| Format.NothingSent | EuroBond_Customer/Pods/nanopb/pb_encode.c:240-338 | the default check holds of a valid structure with known union tags exactly when its encoding is empty |
| Format.SignedSent | EuroBond_Customer/Pods/nanopb/pb_encode.c:776-797 | a signed number of any width is sent as a 64-bit two's complement word, in ten bytes exactly when it is negative |
| Format.WiderReceiver | EuroBond_Customer/Pods/nanopb/pb_encode.c:784-796 | a receiver with a wider member reads the same number |
| Format.UnsignedSent | EuroBond_Customer/Pods/nanopb/pb_encode.c:799-815 | an unsigned number is sent as it is |
| Format.ZigZagSent | EuroBond_Customer/Pods/nanopb/pb_encode.c:817-833 | 0, -1, 1, -2 are sent as 0, 1, 2, 3, and so on |
| Format.BoolSent | EuroBond_Customer/Pods/nanopb/pb_encode.c:769-774 | a bool is one byte, 0 or 1 |
| Format.FixedSent | EuroBond_Customer/Pods/nanopb/pb_encode.c:835-850 | fixed words are four or eight bytes, the least significant first |
| Format.DataSent | EuroBond_Customer/Pods/nanopb/pb_encode.c:852-914 | bytes are sent behind their length, a string up to its first NUL |
| Format.Refused | EuroBond_Customer/Pods/nanopb/pb_encode.c:784-896 | a scalar is refused exactly for a width that no integer has, or bytes that their member has no room for |
| Format.MessageRefused | EuroBond_Customer/Pods/nanopb/pb_encode.c:147-160 | a message is refused exactly when some array has too large a count or some value that would be sent is refused |
| Reception.TagRead | EuroBond_Customer/Pods/nanopb/pb_decode.c:298-319 | the tag word is eight times the tag plus the wire type; zero is the terminator |
| Reception.SkipTakes | EuroBond_Customer/Pods/nanopb/pb_decode.c:321-331 | an unknown field takes a varint for wire type 0, eight bytes for 1, a block for 2 and four bytes for 5, if they are there; other wire types are refused |
| Reception.SignedRead | EuroBond_Customer/Pods/nanopb/pb_decode.c:1329-1364 | on arbitrary bytes: a signed number is accepted exactly when the varint is congruent to it modulo 2^32 (in eight bytes, 2^64) within the range of the word, and it fits its member |
| Reception.SignedReceived | EuroBond_Customer/Pods/nanopb/pb_decode.c:1337-1346 | the same for the encoding of any 64-bit word: -1 may come in five bytes or in ten |
| Reception.UnsignedRead | EuroBond_Customer/Pods/nanopb/pb_decode.c:1366-1388 | an unsigned number is accepted exactly when the varint is it and fits |
| Reception.ZigZagRead | EuroBond_Customer/Pods/nanopb/pb_decode.c:1390-1412 | even words are the numbers from zero up, odd ones those from -1 down; accepted when they fit |
| Reception.BoolRead | EuroBond_Customer/Pods/nanopb/pb_decode.c:1318-1327 | every 32-bit varint but zero is true |
| Reception.FixedRead | EuroBond_Customer/Pods/nanopb/pb_decode.c:1414-1429 | the next four or eight bytes, the least significant first, if they are there |
| Reception.BlockRead | EuroBond_Customer/Pods/nanopb/pb_decode.c:372-385 | a block is a 32-bit length and as many bytes, if they are there |
| Reception.KindRead | EuroBond_Customer/Pods/nanopb/pb_decode.c:1318-1548 | each decoder yields a value of the type of its field |
| Reception.DataRead | EuroBond_Customer/Pods/nanopb/pb_decode.c:1431-1548 | a string needs room for its terminator and bytes for their count of 1, 2 or 4 bytes; inline bytes come whole or not at all and are zero then |
| Reception.DataAllocated | EuroBond_Customer/Pods/nanopb/pb_decode.c:1437-1500 | behind a pointer only the 32-bit length, the count and size_t are limits |
| Streams.IStream.FromBuffer | EuroBond_Customer/Pods/nanopb/pb_decode.c:159-181 | a fresh stream has the whole buffer to read |
| Streams.IStream.Read | EuroBond_Customer/Pods/nanopb/pb_decode.c:102-137 | succeeds exactly when enough bytes are left, returns them and consumes exactly those; a failure consumes nothing |
| Streams.IStream.ReadByte | EuroBond_Customer/Pods/nanopb/pb_decode.c:141-157 | the same for one byte |
| Streams.IStream.DecodeVarint | EuroBond_Customer/Pods/nanopb/pb_decode.c:255-275 | the shifting loop computes the base-128 specification, accepts the same inputs and consumes the same bytes |
| Streams.IStream.DecodeVarint32 | EuroBond_Customer/Pods/nanopb/pb_decode.c:187-247 | the 32-bit loop with its wrapping position counter refines DecVarint32; eof is set exactly on an empty stream |
| Streams.IStream.DecodeTag | EuroBond_Customer/Pods/nanopb/pb_decode.c:298-319 | a tag, a zero terminator and the end of the stream are told apart exactly |
| Streams.IStream.SkipVarint | EuroBond_Customer/Pods/nanopb/pb_decode.c:278-287 | skips exactly the bytes up to the first one without continuation bit |
| Streams.IStream.SkipField | EuroBond_Customer/Pods/nanopb/pb_decode.c:321-331 | skips exactly one payload of the wire type, or reports that it cannot |
| Streams.IStream.SkipString | EuroBond_Customer/Pods/nanopb/pb_decode.c:289-296 | skips as many bytes as the announced length has when it is converted to size_t |
| Streams.IStream.MakeSubstream | EuroBond_Customer/Pods/nanopb/pb_decode.c:372-385 | substream and parent share the buffer: cursor, sub-limit and remaining limit add up to the old end, and the substream sees exactly the block |
| Streams.IStream.CloseSubstream | EuroBond_Customer/Pods/nanopb/pb_decode.c:387-400 | the parent resumes at the end of the delimited region however much of it was read |
| Streams.IStream.DecodeSvarint | EuroBond_Customer/Pods/nanopb/pb_decode.c:1269-1281 | complement and shift compute the inverse of zigzag |
| Streams.IStream.DecodeFixed | EuroBond_Customer/Pods/nanopb/pb_decode.c:1283-1315 | or-ing shifted bytes computes the little-endian value |
| Streams.OStream.FromBuffer | EuroBond_Customer/Pods/nanopb/pb_encode.c:86-101 | an empty stream over a buffer with a limit |
| Streams.OStream.Write | EuroBond_Customer/Pods/nanopb/pb_encode.c:103-124 | appends exactly the data if and only if it fits, with wrapping size arithmetic; bytes outside [cursor, limit) never change; a sizing stream counts |
| Streams.OStream.BufWrite | EuroBond_Customer/Pods/nanopb/pb_encode.c:74-84 | the copy loop appends the data at the cursor and changes nothing else |
| Streams.OStream.EncodeVarint | EuroBond_Customer/Pods/nanopb/pb_encode.c:608-628 | emits the base-128 encoding if and only if it fits |
| Streams.FillVarint | EuroBond_Customer/Pods/nanopb/pb_encode.c:608-628 | the loop that sets continuation bits and clears the last one never leaves its 10-byte buffer and computes the encoding |
| Streams.OStream.EncodeSvarint | EuroBond_Customer/Pods/nanopb/pb_encode.c:630-639 | shift and complement at 64 bits compute the zigzag encoding |
| Streams.OStream.EncodeFixed | EuroBond_Customer/Pods/nanopb/pb_encode.c:641-667 | emits the little-endian bytes |
| Streams.OStream.EncodeString | EuroBond_Customer/Pods/nanopb/pb_encode.c:709-715 | emits length and contents if and only if both fit |
| Streams.OStream.Resume | EuroBond_Customer/Pods/nanopb/pb_encode.c:743-757 | the parent takes over exactly what the substream wrote |
| Narrow.EncodeNegativeVarint | EuroBond_Customer/Pods/nanopb/pb_encode.c:583-605 | the 32-bit-only encoder emits, for every value with the top bit set, the same 10 bytes as the 64-bit encoder for its sign extension |
| Narrow.FillNegative | EuroBond_Customer/Pods/nanopb/pb_encode.c:583-605 | its loop terminates after exactly 10 rounds inside its buffer |
| Narrow.Feed | EuroBond_Customer/Pods/nanopb/pb_encode.c:591-600 | one round of compensation: value and pending sign bits together are the wide value shifted by seven |
| Layout.TrueOffset | EuroBond_Customer/Pods/nanopb/pb.h:399-409 | the iterator's running sums are the struct offsets of the member and of its has_, _count or which_ member, for descriptors made by the PB_DATAOFFSET macros and pb_delta, across arrays, pointers and unions |
| Layout.TrueOffsetsIff | EuroBond_Customer/Pods/nanopb/pb_common.c:44-50 | they are the true offsets of all fields if and only if no gap of PB_SIZE_MAX bytes between two oneofs is mistaken for a union |
| Layout.GapMistaken | EuroBond_Customer/Pods/nanopb/pb_common.c:44-50 | counterexample: with 8-bit sizes, two oneofs 256 bytes apart get one address |
| Layout.LaidSeparate | EuroBond_Customer/Pods/nanopb/pb_common.c:41-75 | what the C compiler guarantees of members, count cells included (inside the structure, apart from each other), holds of the addresses the iterator computes |
| Layout.SeparateLayout | EuroBond_Customer/Pods/nanopb/pb_common.c:41-75 | and so does what the storage results assume |
| Fields.StorageDisjoint | EuroBond_Customer/Pods/nanopb/pb_common.c:41-75 | fields have one address exactly when they are members of one union; all others occupy disjoint bytes |
| Fields.EntryInside | EuroBond_Customer/Pods/nanopb/pb_decode.c:452-464 | every entry of a static array lies inside the bytes of its field; FlatDecoder stores entries at that address |
| FieldIterator.FieldIter.constructor | EuroBond_Customer/Pods/nanopb/pb_common.c:8-18 | starts at the first field with its true addresses, in every structure the descriptor was made for |
| FieldIterator.FieldIter.Begin | EuroBond_Customer/Pods/nanopb/pb_common.c:8-18 | restarts with the true addresses; false exactly for an empty descriptor |
| FieldIterator.FieldIter.Next | EuroBond_Customer/Pods/nanopb/pb_common.c:20-76 | running sums keep data address, size address and required index those of the member at the position, as offsetof gives them, and wrap around to the first field |
| FieldIterator.FieldIter.Find | EuroBond_Customer/Pods/nanopb/pb_common.c:78-95 | within one lap from any position: a nonzero tag is found if and only if some non-extension field has it, and it is the nearest such field; otherwise the iterator is back where it started |
| Values.ScalarRoundTrip | EuroBond_Customer/Pods/nanopb/pb_encode.c:769-912 | every value of every scalar type and width (1, 2, 4, 8 bytes, signed, unsigned, zigzag, fixed, bool, string, bytes, inline bytes) is decoded from its encoding with exact consumption |
| Values.RangeChecked | EuroBond_Customer/Pods/nanopb/pb_decode.c:1366-1412 | the unsigned and zigzag decoders accept exactly the values that fit the width of the field |
| Values.StringReceived | EuroBond_Customer/Pods/nanopb/pb_decode.c:1468-1501 | every string of at most data_size bytes is encoded, but it is decoded if and only if it leaves room for the terminator |
| Transfer.MsgTransfer | EuroBond_Customer/Pods/nanopb/pb_decode.c:925-1073 | decoding what any valid structure encodes to, with any compatible descriptor and into any structure, equals the value-level merge: success, result, exact consumption, and failure exactly when an array of the receiver is too small |
| Transfer.FromTransfer | EuroBond_Customer/Pods/nanopb/pb_decode.c:943-1021 | the same for any suffix of the fields, in any state of the decoding loop and before any further bytes |
| Transfer.FieldTransfer | EuroBond_Customer/Pods/nanopb/pb_decode.c:406-480 | the same for one field: single, packed and unpacked |
| Transfer.RecordsTransfer | EuroBond_Customer/Pods/nanopb/pb_decode.c:452-464 | an unpacked array record by record |
| Transfer.PackedTransfer | EuroBond_Customer/Pods/nanopb/pb_decode.c:424-451 | a packed run entry by entry |
| Transfer.ValueTransfer | EuroBond_Customer/Pods/nanopb/pb_decode.c:1503-1525 | a submessage is received by recursion as its merged value |
| Transfer.SkipUnknown | EuroBond_Customer/Pods/nanopb/pb_decode.c:957-986 | a field that the receiver does not know is skipped exactly and leaves no trace |
| Transfer.AllRequired | EuroBond_Customer/Pods/nanopb/pb_decode.c:1030-1070 | a receiver that requires nothing its sender does not know has seen all its required fields |
| Messages.WholeMessage | EuroBond_Customer/Pods/nanopb/pb_encode.c:528-550 | round trip: pb_decode of what pb_encode wrote succeeds, consumes every byte and rebuilds the structure up to contents of absent fields |
| Messages.Evolution | EuroBond_Customer/Pods/nanopb/pb_decode.c:957-986 | schema evolution: decoding with another version of the descriptor, into memory with any contents, yields exactly the fields both know, recursively; every other field is as pb_message_set_to_defaults leaves it, for an array with a fixed count that is uninitialized memory behind a zeroed count |
| RoundTrip.AbsorbAgrees | EuroBond_Customer/Pods/nanopb/pb_decode.c:1075-1087 | merging a valid structure into the defaults over any old contents agrees with it on every field both versions know; the others are as the defaults leave them |
| RoundTrip.DefaultIsAbsent | EuroBond_Customer/Pods/nanopb/pb_encode.c:240-337 | what the default check accepts is not present, so skipping a default structure loses nothing (the converse is false of a oneof with another member selected) |
| Messages.MergeOfTwo | EuroBond_Customer/Pods/nanopb/pb_decode.c:925-1073 | decoding two encodings after each other merges the two structures one by one, and fails exactly when an array overflows |
| FixedArrays.ReceivedWhole | EuroBond_Customer/Pods/nanopb/pb_decode.c:988-1028 | after a successful decode, an array with a fixed count of which any record occurred has every entry written, though its defaults wrote none |
| Records.StepTakes | EuroBond_Customer/Pods/nanopb/pb_decode.c:943-1021 | a step of the loop takes exactly the record at the front, as the bytes alone tell |
| Records.StoppedIsTerminated | EuroBond_Customer/Pods/nanopb/pb_decode.c:953-956 | a run ends early if and only if a zero tag stands between its records |
| Order.ConcatenationMerges | EuroBond_Customer/Pods/nanopb/pb_decode.c:925-1073 | for arbitrary bytes: if decoding a and then b into one structure succeeds and a ends no message, one call on the concatenation gives the same structure |
| Order.MergesUnlessTerminated | EuroBond_Customer/Pods/nanopb/pb_decode.c:925-1073 | the exact condition: the concatenation merges, taking all bytes, if and only if no zero tag stands between the records of a |
| Order.StoppedIgnoresRest | EuroBond_Customer/Pods/nanopb/pb_decode.c:953-956 | behind a zero tag nothing is looked at |
| Order.TerminatorLosesRest | EuroBond_Customer/Pods/nanopb/pb_decode.c:953-956 | then one call on the concatenation gives what a alone gives |
| Order.TerminatorHidesRest | EuroBond_Customer/Pods/nanopb/pb_decode.c:953-956 | counterexample: two messages of a bool whose concatenation loses the second |
| Submessages.SubmessagesMerge | EuroBond_Customer/Pods/nanopb/pb_decode.c:1503-1525 | two records of a required or optional submessage have the effect of one with both contents |
| Submessages.RestartForgets | EuroBond_Customer/Pods/nanopb/pb_decode.c:466-475 | a oneof submessage is zeroed for every record, and one behind a pointer released: what it held before makes no difference |
| Submessages.MergingIff | EuroBond_Customer/Pods/nanopb/pb_decode.c:406-592 | where every field of the message type can hold something other than its default: two records merge whatever they contain if and only if the field is neither a oneof nor a pointer, or every field of the type, at every depth, is required and tracked |
| Submessages.OneofCases | EuroBond_Customer/Pods/nanopb/pb_decode.c:466-475 | both cases occur: a oneof of one required bool merges, of one optional bool it does not |
| Replacing.ForgetfulIffDetermined | EuroBond_Customer/Pods/nanopb/pb_decode.c:1012-1070 | the message before makes no difference if and only if every message of the type sets every field |
| Replacing.MsgAnew | EuroBond_Customer/Pods/nanopb/pb_decode.c:1030-1070 | messages of such a type are read alike into any two structures |
| Replacing.SomethingSurvives | EuroBond_Customer/Pods/nanopb/pb_decode.c:925-1073 | for any other type, two messages that show what is lost |
| Replacing.ScalarSample | EuroBond_Customer/Pods/nanopb/pb_decode.c:406-423 | a scalar field qualifies as soon as it can hold a value that is not its default |
| Submessages.FirstIsLost | EuroBond_Customer/Pods/nanopb/pb_decode.c:466-592 | counterexample: two records into a oneof, or behind a pointer, of which the first is lost |
| Order.FieldOrder | EuroBond_Customer/Pods/nanopb/pb_decode.c:943-1021 | exchanging two adjacent records of fields with different storage leaves the outcome of the whole run unchanged, success or failure |
| Order.MessageFieldOrder | EuroBond_Customer/Pods/nanopb/pb_decode.c:925-1073 | the same inside a whole message, including the required-field and fixed-count checks |
| Order.KnownCommute | EuroBond_Customer/Pods/nanopb/pb_decode.c:988-1020 | the records of two fields with different storage commute in every state |
| Packed.PackedEquivalence | EuroBond_Customer/Pods/nanopb/pb_decode.c:424-464 | any two ways of cutting a list into packed runs (empty ones too) and single entries give the same structure or both fail |
| Packed.ChunksStored | EuroBond_Customer/Pods/nanopb/pb_decode.c:424-464 | any such cut stores the list entry by entry |
| Packed.ListStored | EuroBond_Customer/Pods/nanopb/pb_decode.c:424-464 | what is stored is the old array with the list appended (or put behind what a fixed-count array has received); a list too long is refused |
| Runs.DefaultsSet | EuroBond_Customer/Pods/nanopb/pb_decode.c:836-919 | after the defaults every required or optional member holds the default of its descriptor and is marked absent, recursively in submessages; pointers are null, counts and which-tags zero; an array with a fixed count keeps the entries that no byte of a count covers |
| Runs.LastWins | EuroBond_Customer/Pods/nanopb/pb_decode.c:406-480 | after a whole run a field that is not an array, nor a submessage that merges, holds the value of the last record for it or its union and is marked present; without any record it is as it was |
| Runs.LastWinsAnew | EuroBond_Customer/Pods/nanopb/pb_decode.c:1075-1087 | after pb_decode a field without a record is at its default, whatever the memory held |
| Runs.ArraysGrow | EuroBond_Customer/Pods/nanopb/pb_decode.c:424-464 | a run appends to an array the entries of all its records, packed or not, in their order |
| Runs.BlocksMerge | EuroBond_Customer/Pods/nanopb/pb_decode.c:1503-1525 | a static required or optional submessage is what the blocks of all its records merge to |
| Runs.ScalarAccepted | EuroBond_Customer/Pods/nanopb/pb_decode.c:406-464 | a scalar record is accepted exactly when its payload is, whatever its wire type; only wire type 2 makes a packed run, which must be made of whole entries that the array has room for |
| Runs.SubmessageAccepted | EuroBond_Customer/Pods/nanopb/pb_decode.c:1503-1525 | a submessage is accepted exactly when its block is, merged or over defaults, and an array has room |
| Runs.RequiredReceived | EuroBond_Customer/Pods/nanopb/pb_decode.c:1038-1065 | pb_decode_noinit succeeds exactly when the run ends, the array received last is complete and each of the first 64 required fields had a record |
| Required.MissingIffAbsent | EuroBond_Customer/Pods/nanopb/pb_decode.c:1012-1070 | "missing required field" is reported exactly when one of the first 64 required fields occurred in no record |
| Required.SeenIffRead | EuroBond_Customer/Pods/nanopb/pb_decode.c:1012-1017 | a tracked field is marked as seen exactly when a record had its tag |
| Framing.MsgTyped | EuroBond_Customer/Pods/nanopb/pb_decode.c:406-480 | from any bytes without zero tags for empty message types, at every nesting level: values stay within their types and buffers, counts within array_size, and members that no record addressed keep their contents |
| Framing.KnownTyped | EuroBond_Customer/Pods/nanopb/pb_decode.c:988-1020 | one record keeps every value in its type and changes only the slot of its own field |
| Framing.DecodeTyped | EuroBond_Customer/Pods/nanopb/pb_decode.c:1075-1087 | pb_decode of such bytes leaves a well-typed structure well-typed |
| Framing.DefaultTyped | EuroBond_Customer/Pods/nanopb/pb_decode.c:908-919 | the defaults over a well-typed structure form one; entries of arrays with a fixed count stay unwritten |
| Framing.EmptyDescriptor | EuroBond_Customer/Pods/nanopb/pb_common.c:78-95 | for an empty message type the decoder writes to the structure if and only if some record has tag zero, which matches the terminator |
| Framing.EmptyNested | EuroBond_Customer/Pods/nanopb/pb_common.c:78-95 | counterexample: four bytes that write into a nested structure without members |
| EmptyTypes.TypedIff | EuroBond_Customer/Pods/nanopb/pb_decode.c:925-1073 | the exact condition for every descriptor: a well-typed structure stays well-typed if and only if no record that counts has tag zero for an empty message type, at any depth; of a oneof the last record counts, of an array with a fixed count the last record for each entry |
| EmptyTypes.DecodeTypedIff | EuroBond_Customer/Pods/nanopb/pb_decode.c:1075-1087 | the same of pb_decode |
| EmptyTypes.TypedUnlessSpoilt | EuroBond_Customer/Pods/nanopb/pb_decode.c:466-475 | a structure that is well-typed but for what such records left is well-typed if and only if none counts |
| EmptyTypes.FieldBut | EuroBond_Customer/Pods/nanopb/pb_decode.c:406-480 | one record adds its contents to what its field has received, replaces that in a oneof, and overwrites the next entry of an array with a fixed count |
| EmptyTypes.SpoiltIfLasting | EuroBond_Customer/Pods/nanopb/pb_decode.c:988-1020 | without submessages in oneofs and arrays with a fixed count every record counts |
| EmptyTypes.LaterRecordMends | EuroBond_Customer/Pods/nanopb/pb_decode.c:466-475 | an input where the last record of a oneof makes up for a zero tag in an earlier one |
| Footprint.DefaultCountInside | EuroBond_Customer/Pods/nanopb/pb_decode.c:862-869 | the count that the defaults write stays inside its array if and only if the array has a count or is at least as large as one |
| Footprint.DefaultCountOutside | EuroBond_Customer/Pods/nanopb/pb_decode.c:862-869 | counterexample: for one bool with a fixed count, a wider count is written past the structure |
| Footprint.TouchedInside | EuroBond_Customer/Pods/nanopb/pb_decode.c:925-1073 | what a run may write lies inside the structure, through every level of nesting |
| Footprint.TouchedAddressed | EuroBond_Customer/Pods/nanopb/pb_decode.c:988-1020 | every byte a run may write belongs to the data or the count of a field that one of its records is for |
| Footprint.UnaddressedKept | EuroBond_Customer/Pods/nanopb/pb_decode.c:988-1020 | the data and count bytes of a field stay as they are unless a record is for it or for a member of its union |
| Footprint.StructureFits | EuroBond_Customer/Pods/nanopb/pb.h:399-409 | descriptors that the macros make of C structures, nested ones included, meet the layout conditions of the byte results |
| FlatDecoder.Decode | EuroBond_Customer/Pods/nanopb/pb_decode.c:1075-1087 | on the bytes of the destination: the call succeeds if and only if Decoding.Decode does, and then the bytes hold its message; nothing outside the structure is written, and inside it only data and counts of fields |
| FlatDecoder.DecodeNoinit | EuroBond_Customer/Pods/nanopb/pb_decode.c:925-1073 | succeeds if and only if DecMsg does, and then the bytes hold what the structure held merged with the input; only bytes of fields that the records are for are written, at every level |
| FlatDecoder.DecodeRecord | EuroBond_Customer/Pods/nanopb/pb_decode.c:943-1021 | one round on the bytes is one step of the specification on the message they hold, and writes only the bytes of its field |
| FlatDecoder.DecodeTagged | EuroBond_Customer/Pods/nanopb/pb_decode.c:957-1020 | the same after the tag; an unknown record writes nothing |
| FlatDecoder.DecodeKnown | EuroBond_Customer/Pods/nanopb/pb_decode.c:988-1020 | one slot of the message is changed; the counter of an array with a fixed count stays out of the structure and only such an array changes it |
| FlatDecoder.DecodeTerminator | EuroBond_Customer/Pods/nanopb/pb_common.c:78-95 | tag zero in an empty type writes a bool to the first byte of the structure and nothing else |
| FlatDecoder.DecodeField | EuroBond_Customer/Pods/nanopb/pb_decode.c:406-480 | the bytes of the field hold the slot of DecField; data and count of one field, entries from the old count on |
| FlatDecoder.DecodeSingle | EuroBond_Customer/Pods/nanopb/pb_decode.c:412-420 | has-flag or which-tag, and the value, are stored inside the field |
| FlatDecoder.DecodePacked | EuroBond_Customer/Pods/nanopb/pb_decode.c:424-451 | the bytes hold the entries there were and those of the run; only entries from the old count on, and the count, are written |
| FlatDecoder.DecodeAppend | EuroBond_Customer/Pods/nanopb/pb_decode.c:452-464 | an entry is stored at its place in the array and counted; the entries before it stay |
| FlatDecoder.DecodeSubmessage | EuroBond_Customer/Pods/nanopb/pb_decode.c:1503-1525 | a nested structure is merged into the bytes of its entry, or decoded over its defaults, inside it |
| FlatDecoder.DecodeScalar | EuroBond_Customer/Pods/nanopb/pb_decode.c:1318-1548 | the value is stored with the bytes of its type; a failure leaves at most the member changed |
| FlatDecoder.MarkPresent | EuroBond_Customer/Pods/nanopb/pb_decode.c:412-475 | has-flag or which-tag are set; a new union member holds the defaults of its type, any other submessage what it held |
| FlatDefaults.SetToDefaults | EuroBond_Customer/Pods/nanopb/pb_decode.c:908-919 | afterwards the bytes hold the default message; cells and data of fields are written, nothing between them |
| FlatDefaults.SetToDefault | EuroBond_Customer/Pods/nanopb/pb_decode.c:836-906 | the same for one field: an array entry that no count was written over keeps its value |
| FlatDefaults.StoreCount | EuroBond_Customer/Pods/nanopb/pb_decode.c:862-869 | a count is stored in its own bytes and read back |
| Images.SetSlot | EuroBond_Customer/Pods/nanopb/pb_decode.c:925-1073 | when the bytes of one field hold a new slot and no others changed, the structure holds the message with that slot changed; members of a union share it |
| Images.Frame | EuroBond_Customer/Pods/nanopb/pb_decode.c:1503-1525 | what a structure holds, at every level, depends on its own bytes only |
| Readback.CheckBytes | EuroBond_Customer/Pods/nanopb/pb_encode.c:318-335 | the loop over the bytes of a number decides whether the number is zero, for every width and sign |
| Readback.NumberStored | EuroBond_Customer/Pods/nanopb/pb_decode.c:1329-1429 | a number is stored in two's complement with the bytes of its member, the least significant first |
| Readback.DataStored | EuroBond_Customer/Pods/nanopb/pb_decode.c:1431-1548 | a string is stored with its terminator, bytes behind their count |
| Readback.EncodedOnce | EuroBond_Customer/Pods/nanopb/pb_encode.c:528-550 | the bytes determine what is transmitted: two valid messages held by the same bytes have the same encoding, and the same emptiness under pb_check_proto3_default_value |
| Messages.DelimitedExact | EuroBond_Customer/Pods/nanopb/pb_decode.c:1104-1117 | a delimited message is decoded from exactly its region, whatever follows |
| Messages.DelimitedStream | EuroBond_Customer/Pods/nanopb/pb_encode.c:552-555 | a sequence of delimited messages is read back message by message up to the end |
| Messages.NullTerminated | EuroBond_Customer/Pods/nanopb/pb_encode.c:557-565 | a null-terminated message is decoded, terminator included, whatever follows it |
| Nesting.Depth | EuroBond_Customer/Pods/nanopb/pb_decode.c:1503-1525 | submessages are at most half as deep as the input is long, whatever the descriptors; the depth that Decoder reaches is this one |
| Nesting.DepthReached | EuroBond_Customer/Pods/nanopb/pb_decode.c:1503-1525 | the bound is sharp: two bytes of input for every level |
| Termination.DefaultsReturn | EuroBond_Customer/Pods/nanopb/pb_decode.c:908-919 | on types that refer to each other, or to themselves, by index: setting a structure to defaults returns if and only if no type reaches itself through static required and optional submessages, and then nests at most as many calls as there are types |
| Termination.NodeReturns | EuroBond_Customer/Pods/nanopb/pb_decode.c:925-1073 | if every type that can start anew has finite defaults, merging any input into any structure returns, with at most half the input plus the number of types (and one) nested calls |
| Termination.NoinitReturnsIff | EuroBond_Customer/Pods/nanopb/pb_decode.c:925-1073 | pb_decode_noinit returns on all inputs and in all structures if and only if every type that an array entry, a union member or an allocation can have, at any depth, has finite defaults |
| Termination.DecodeReturnsIff | EuroBond_Customer/Pods/nanopb/pb_decode.c:1075-1087 | pb_decode returns on all inputs if and only if the type itself has finite defaults, too |
| Termination.UnsafeInput | EuroBond_Customer/Pods/nanopb/pb_decode.c:466-475 | otherwise some input of at most ten bytes for each type makes it recurse without end |
| Termination.MoreCalls | EuroBond_Customer/Pods/nanopb/pb_decode.c:925-1073 | once enough calls may be nested, the result does not depend on how many |
| Termination.ListReturns | EuroBond_Customer/Pods/nanopb/pb_decode.c:890-899 | a type with a pointer to itself is safe |
| Termination.SelfDiverges | EuroBond_Customer/Pods/nanopb/pb_decode.c:871-877 | counterexample: a type that contains itself is never set to its defaults |
| Termination.EntryDiverges | EuroBond_Customer/Pods/nanopb/pb_decode.c:1517-1518 | counterexample: two bytes that start an array entry of such a type |
| Unfolding.DecodedAlike | EuroBond_Customer/Pods/nanopb/pb_decode.c:925-1073 | for any table, recursive or not: as far as nested calls reach, merging by the table accepts exactly what DecMsg accepts on the unfolded descriptor, takes as many bytes, and leaves the structure that holds the message of DecMsg at every level |
| Unfolding.DecodedAnew | EuroBond_Customer/Pods/nanopb/pb_decode.c:1075-1087 | the same of pb_decode, defaults included |
| Unfolding.NewShown | EuroBond_Customer/Pods/nanopb/pb_decode.c:908-919 | defaults over the table are the default message of the unfolded descriptor |
| Unfolding.SubAfter | EuroBond_Customer/Pods/nanopb/pb_decode.c:452-475 | a record of a repeated submessage leaves the entries before it in place and puts the decoded one behind them, or at the counter of a fixed count; any other replaces the only one |
| Unfolding.SlotShown | EuroBond_Customer/Pods/nanopb/pb_decode.c:988-1020 | the other fields of the structure are unchanged |
| Unfolding.UnfoldWhole | EuroBond_Customer/Pods/nanopb/pb_decode.c:871-877 | a type that does not contain itself has one unfolding, whatever the number of levels beyond its own |
| CyclicDecoder.Decode | EuroBond_Customer/Pods/nanopb/pb_decode.c:1075-1087 | the decoder on such types terminates on every input where they are safe; it accepts exactly what pb_decode accepts on the unfolded descriptor, and the structure holds its message |
| CyclicDecoder.DecodeNoinit | EuroBond_Customer/Pods/nanopb/pb_decode.c:925-1073 | the same for merging, with measures on the input alone |
| CyclicDecoder.SetToDefaults | EuroBond_Customer/Pods/nanopb/pb_decode.c:908-919 | defaults by recursion over the types, where that is finite |
| CyclicDecoder.DecodeEntry | EuroBond_Customer/Pods/nanopb/pb_decode.c:452-475 | an entry, member or allocation starts from its defaults, any other submessage from what is there |
| CyclicDecoder.DecodeSubmessage | EuroBond_Customer/Pods/nanopb/pb_decode.c:1503-1525 | substream, recursion, close |
| CyclicDecoder.DecodeKnown | EuroBond_Customer/Pods/nanopb/pb_decode.c:988-1020 | one record of a field that was found |
| Encoder.Encode | EuroBond_Customer/Pods/nanopb/pb_encode.c:528-550 | succeeds if and only if the structure is encodable and the encoding fits; then exactly the specified bytes are appended; a failure touches nothing outside the limit |
| Encoder.EncodedSize | EuroBond_Customer/Pods/nanopb/pb_encode.c:567-576 | the sizing pass returns the length of what the writing pass writes |
| Encoder.EncodeSubmessage | EuroBond_Customer/Pods/nanopb/pb_encode.c:717-765 | size pass, prefix and limited substream emit the block of the submessage; "submsg size changed" is unreachable |
| Encoder.EncodeNullTerminated | EuroBond_Customer/Pods/nanopb/pb_encode.c:557-565 | appends the encoding and a zero byte if and only if both fit |
| Encoder.EncodeArray | EuroBond_Customer/Pods/nanopb/pb_encode.c:147-236 | packed or record by record, exactly when count and room allow |
| Encoder.EncodePacked | EuroBond_Customer/Pods/nanopb/pb_encode.c:161-207 | the length prefix equals the bytes of the entries that follow |
| Encoder.PackedSize | EuroBond_Customer/Pods/nanopb/pb_encode.c:168-191 | the precomputed or measured size is that of the entries |
| Encoder.EncodeRecords | EuroBond_Customer/Pods/nanopb/pb_encode.c:208-233 | unpacked entries, each with its tag |
| Encoder.EncodeField | EuroBond_Customer/Pods/nanopb/pb_encode.c:341-426 | has-flag, count, which-tag and default check select exactly the present fields |
| Encoder.EncodeRecord | EuroBond_Customer/Pods/nanopb/pb_encode.c:675-707 | tag and value of one field |
| Encoder.EncodeValue | EuroBond_Customer/Pods/nanopb/pb_encode.c:901-907 | a value, or a submessage by recursion |
| Encoder.EncodeScalar | EuroBond_Customer/Pods/nanopb/pb_encode.c:769-912 | the specified bytes of one scalar if and only if its width is legal and it fits |
| Encoder.EncodeInt | EuroBond_Customer/Pods/nanopb/pb_encode.c:776-815 | sign extension to 64 bits |
| Encoder.EncodeZigZag | EuroBond_Customer/Pods/nanopb/pb_encode.c:817-833 | zigzag of every width |
| Encoder.StringLength | EuroBond_Customer/Pods/nanopb/pb_encode.c:875-899 | the bounded length scan stops at the first NUL or at the buffer size |
| Encoder.EncodeCString | EuroBond_Customer/Pods/nanopb/pb_encode.c:875-899 | emits the string up to its terminator |
| Encoder.EncodeTag | EuroBond_Customer/Pods/nanopb/pb_encode.c:669-673 | emits the tag varint |
| Encoder.CheckDefault | EuroBond_Customer/Pods/nanopb/pb_encode.c:240-337 | the default check computes IsDefault |
| Encoder.CheckZero | EuroBond_Customer/Pods/nanopb/pb_encode.c:269-337 | the byte-wise zero test of one value |
| Encoder.CheckAll | EuroBond_Customer/Pods/nanopb/pb_encode.c:289-309 | a submessage is default if and only if all its fields are |
| Encoder.ValidEncodes | EuroBond_Customer/Pods/nanopb/pb_encode.c:528-550 | every valid structure meets the preconditions of the encoder and is encoded without error, given room |
| Decoder.Decode | EuroBond_Customer/Pods/nanopb/pb_decode.c:1075-1087 | the imperative decoder accepts exactly the inputs of the specification and returns its structure with exact consumption, recursing at most half as deep as the input is long |
| Decoder.DecodeNoinit | EuroBond_Customer/Pods/nanopb/pb_decode.c:925-1073 | the same for merging into an existing structure: record loop, fixed-count bookkeeping and both final checks; the recursion depth is that of Nesting |
| Decoder.DecodeDelimited | EuroBond_Customer/Pods/nanopb/pb_decode.c:1104-1117 | on success the stream is exactly behind the region; on failure its limit is reduced by the region all the same |
| Decoder.DecodeRecord | EuroBond_Customer/Pods/nanopb/pb_decode.c:943-1021 | one round of the loop: terminator, unknown field, known field |
| Decoder.DecodeTagged | EuroBond_Customer/Pods/nanopb/pb_decode.c:957-1020 | a record after its tag, found from whatever position the iterator has |
| Decoder.DecodeKnown | EuroBond_Customer/Pods/nanopb/pb_decode.c:988-1020 | switching between fixed-count arrays needs the previous one complete |
| Decoder.DecodeField | EuroBond_Customer/Pods/nanopb/pb_decode.c:406-480 | the static field decoder refines its specification |
| Decoder.DecodePacked | EuroBond_Customer/Pods/nanopb/pb_decode.c:424-451 | the packed loop stores while there is room and leaves nothing unread |
| Decoder.DecodeSubmessage | EuroBond_Customer/Pods/nanopb/pb_decode.c:1503-1525 | substream, recursion, close |
| Decoder.DecodeScalar | EuroBond_Customer/Pods/nanopb/pb_decode.c:1318-1548 | each scalar decoder accepts and returns what the specification says |
| Decoder.DecodeNumber | EuroBond_Customer/Pods/nanopb/pb_decode.c:1329-1412 | casts to the field width reject exactly the values that change |
| Decoder.DecodeData | EuroBond_Customer/Pods/nanopb/pb_decode.c:1431-1548 | string, bytes and inline bytes are stored exactly when they fit their buffer |
| Decoder.CheckSize | EuroBond_Customer/Pods/nanopb/pb_decode.c:1431-1482 | the size checks, with the 32-bit sum of a string, accept exactly what fits |
| Decoder.SetToDefaults | EuroBond_Customer/Pods/nanopb/pb_decode.c:908-919 | writes the defaults of all fields over what the structure held |
| Decoder.SetToDefault | EuroBond_Customer/Pods/nanopb/pb_decode.c:836-906 | has-flags, counts, which-tags and defaults of one field; the entries of arrays are not initialized, and where an array has no count, the zero overwrites its first entries |
| Decoder.FindField | EuroBond_Customer/Pods/nanopb/pb_common.c:78-95 | finding by tag from any position gives the field the specification looks up |
| Decoder.MarkField | EuroBond_Customer/Pods/nanopb/pb_decode.c:1012-1017 | the bit words represent the set of required fields seen |
| Decoder.CheckRequired | EuroBond_Customer/Pods/nanopb/pb_decode.c:1030-1070 | whole words and remaining bits are all set if and only if every tracked required field was seen |
| Decoder.CountRequired | EuroBond_Customer/Pods/nanopb/pb_decode.c:1034-1044 | the count is right from wherever the iterator stopped |
| PointerDecoder.Decode | EuroBond_Customer/Pods/nanopb/pb_decode.c:1075-1087 | for any input and any allocator: after success the structure holds exactly the message of the specification, in cells and allocations, exactly the allocations reachable from it are new, and no two owners share one; a failed call leaves the live allocations exactly as they were, and fails only where the specification fails or an allocation was denied |
| PointerDecoder.DecodeNoinit | EuroBond_Customer/Pods/nanopb/pb_decode.c:925-1073 | merging yields the message of the specification and keeps every allocation outside the structure unchanged and every reachable one uniquely owned, on success and failure |
| PointerDecoder.DecodeRecord | EuroBond_Customer/Pods/nanopb/pb_decode.c:943-1021 | one round of the loop is one step of the specification on the contents |
| PointerDecoder.DecodeTagged | EuroBond_Customer/Pods/nanopb/pb_decode.c:957-1020 | known and unknown records |
| PointerDecoder.DecodeFound | EuroBond_Customer/Pods/nanopb/pb_decode.c:988-1020 | the change to one field is a change of one slot of the contents, and carries over to the ownership of the whole structure |
| PointerDecoder.DecodeField | EuroBond_Customer/Pods/nanopb/pb_decode.c:550-675 | each allocation strategy stores the values of the specification and consumes exactly its record |
| PointerDecoder.DecodeSingle | EuroBond_Customer/Pods/nanopb/pb_decode.c:560-592 | a submessage that is already there is released before its replacement, which does not depend on it; text and scalars are reallocated |
| PointerDecoder.ReplaceScalar | EuroBond_Customer/Pods/nanopb/pb_decode.c:581-592 | the value is in the allocation |
| PointerDecoder.AppendPacked | EuroBond_Customer/Pods/nanopb/pb_decode.c:595-652 | a packed run appends exactly its values, each stored below the capacity of the growing array |
| PointerDecoder.Reserve | EuroBond_Customer/Pods/nanopb/pb_decode.c:608-632 | after reserving, the capacity exceeds the index stored to and is at most PB_SIZE_MAX, and the entries are those before |
| PointerDecoder.AppendScalar | EuroBond_Customer/Pods/nanopb/pb_decode.c:654-669 | reallocation for one more scalar, which is appended |
| PointerDecoder.AppendText | EuroBond_Customer/Pods/nanopb/pb_decode.c:654-669 | the text is appended; the new pointer of an array is null until its text is allocated, so a failure leaves nothing dangling |
| PointerDecoder.GrowEntries | EuroBond_Customer/Pods/nanopb/pb_decode.c:533-547 | the new entry holds the defaults and owns nothing, in an array that may have moved with its entries |
| PointerDecoder.AppendSubmessage | EuroBond_Customer/Pods/nanopb/pb_decode.c:654-669 | the submessage decoded from the delimited bytes is appended, or is the only entry |
| PointerDecoder.DecodeStaticScalar | EuroBond_Customer/Pods/nanopb/pb_decode.c:406-480 | static values next to pointer fields are those of the specification, and own nothing |
| PointerDecoder.DecodeStaticSubmessage | EuroBond_Customer/Pods/nanopb/pb_decode.c:452-464 | the entry is merged or appended as specified; a full static array fails with its count one past the end, and is still released correctly |
| PointerDecoder.DecodeSubmessage | EuroBond_Customer/Pods/nanopb/pb_decode.c:1503-1525 | array entries are initialized and released on failure, others are merged; the contents are those of the delimited bytes |
| PointerDecoder.DecodeText | EuroBond_Customer/Pods/nanopb/pb_decode.c:1431-1501 | the received text is in the allocation, with room for its terminator or length |
| PointerDecoder.SetToDefaults | EuroBond_Customer/Pods/nanopb/pb_decode.c:908-919 | a structure that owns nothing is set to defaults that own nothing and are those of the specification |
| PointerDecoder.DefaultsAnew | EuroBond_Customer/Pods/nanopb/pb_decode.c:908-919 | without arrays of a fixed count the defaults do not depend on what was there |
| PointerDecoder.ZeroSep | EuroBond_Customer/Pods/nanopb/pb_decode.c:533-547 | zeroed storage owns nothing in any heap |
| Contents.ViewFrame | EuroBond_Customer/Pods/nanopb/pb_decode.c:1245-1259 | what a structure holds depends only on the allocations it owns |
| Contents.SetView | EuroBond_Customer/Pods/nanopb/pb_decode.c:988-1020 | a change of one field changes one slot of the message |
| Contents.SetViewItem | EuroBond_Customer/Pods/nanopb/pb_decode.c:654-669 | a change of one entry leaves the contents of the others |
| Release.Release | EuroBond_Customer/Pods/nanopb/pb_decode.c:1245-1259 | frees exactly the allocations reachable from the structure, none twice, nothing else; a second call frees nothing |
| Release.ReleaseField | EuroBond_Customer/Pods/nanopb/pb_decode.c:1154-1243 | the same for one field, whose pointer is null and whose count is zero afterwards |
| Release.ReleaseItems | EuroBond_Customer/Pods/nanopb/pb_decode.c:1180-1216 | static submessages up to the clamped count |
| Release.ReleaseEntries | EuroBond_Customer/Pods/nanopb/pb_decode.c:1180-1216 | the entries of an allocated array |
| Release.ReleaseTexts | EuroBond_Customer/Pods/nanopb/pb_decode.c:1219-1231 | the strings of an array of pointers, each once |
| Heap.Frame | EuroBond_Customer/Pods/nanopb/pb_decode.c:1245-1259 | what a structure owns depends only on the owned allocations |
| Heap.SetField | EuroBond_Customer/Pods/nanopb/pb_decode.c:988-1020 | a change confined to what one field owns keeps all other fields intact and separate |
| Unions.EnterMember | EuroBond_Customer/Pods/nanopb/pb_decode.c:1128-1152 | a record for a static union member: another member in effect is released, the same one is not, and is zeroed with all it owns |
| Unions.LosesIff | EuroBond_Customer/Pods/nanopb/pb_decode.c:466-475 | allocations are lost if and only if the record repeats the member in effect and that owns some |
| Unions.RepeatedIsLost | EuroBond_Customer/Pods/nanopb/pb_decode.c:466-475 | counterexample: a submessage with a string behind a pointer, received twice |
| Heap.SetItem | EuroBond_Customer/Pods/nanopb/pb_decode.c:654-669 | the same for one entry of an array of structures |
| Allocation.CheckSizes | EuroBond_Customer/Pods/nanopb/pb_decode.c:491-519 | the half-word and division tests accept sizes if and only if they are nonzero and their product is a size_t |
| Allocation.AllocateField | EuroBond_Customer/Pods/nanopb/pb_decode.c:487-530 | on failure the old allocation remains; on success a nonzero size that did not overflow was requested and the entries that fit are kept |
| Allocation.Grow | EuroBond_Customer/Pods/nanopb/pb_decode.c:617-625 | the new capacity exceeds the count, is at most PB_SIZE_MAX and at most one entry per remaining byte; the unsigned difference does not underflow |
| Allocation.TextSize | EuroBond_Customer/Pods/nanopb/pb_decode.c:1437-1482 | the 32-bit and size_t sums are detected exactly when they overflow |

## Left out

- The Swift application, its view models and tests, and the BoringSSL error table: no logic to prove.
- User callbacks, custom stream callbacks and extension fields: foreign code and user-built lists. Callback fields are not part of any descriptor of the model.
- `PB_ENCODE_ARRAYS_UNPACKED`, `PB_BUFFER_ONLY`, `PB_WITHOUT_64BIT` (other than `pb_encode_negative_varint`), the AVR workaround, error strings: build variants.
- Raw memory as a source of values: overlapping reads of union members, padding and invalid bool bytes (`safe_read_bool`). Entries of an array past its count and the bytes of a string past its terminator are not represented in slots. In `FlatDecoder` numbers are little-endian.
- The contents of the structure after a failed `Decoder` call: the specification returns no structure then.
- Floating point: fixed32 and fixed64 values are opaque words.
- Cyclic message types elsewhere: descriptors are finite trees everywhere but in `Cyclic`, `Termination`, `Unfolding` and `CyclicDecoder`. There, allocations succeed and are not released, fields other than submessages are static, and an input that shows that decoding does not return is bounded by the 32-bit lengths (at most 2^32 / 10 types). `LAST_FIELD` stands for the terminator of every array.
- A submessage field without a descriptor (`ptr == NULL`): excluded by the type of descriptors.
- Encoder calls whose output would exceed `SIZE_MAX` bytes: excluded by preconditions of `Encoder`, because a sizing stream wraps around silently there.
- Encoding of pointer fields: the encoder is modelled for static allocation, and so are the results about encoder output (`Schema.WellFormed`).
- What a failed allocation leads to beyond a failed call: `PointerDecoder` promises nothing about acceptance once an allocation was denied.
- Oneofs in structures with pointer fields, beyond what `Unions` states, and arrays with a fixed count there; with `array_size == PB_SIZE_MAX` a failed append would wrap the count to zero, so such arrays are excluded as well (`Heap.HeapField`).
- `pb_decode_delimited_noinit` and `pb_decode_nullterminated`: they differ from members of the model by one call.
- Decoder.DecodeDelimited: states the cursor only for success, because substreams of failed submessages are not closed.
- Fields.FieldIter.Find: for tag zero it states only the empty descriptor, where the terminator matches.
- Encoder.CheckZero: slots have no bytes, so it compares numbers with zero; `Readback.CheckBytes` is the loop over the bytes of the member, which decides the same.
- Unions.EnterMember: covers static submessages in a oneof; a pointer member that follows a static one reads the old member as a pointer, which cells do not represent.
- Replacing.ForgetfulIffDetermined: types in which some field can only hold its default (a string with room for the terminator alone, say) are not covered.
- Streams.IStream.DecodeFixed: one loop stands for the two unrolled readers of 4 and 8 bytes, and likewise in Streams.OStream.EncodeFixed.
- Release.Release: walks the fields by index instead of through the iterator, as PointerDecoder.SetToDefaults does; the addresses play no part in ownership.

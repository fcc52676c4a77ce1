# nanopb 0.3.9.6: the encoder, the decoder and the field iterator

A Dafny model of the protobuf codec vendored under `Spotify/Pods/nanopb`, with proofs of what the
codec promises.  Check it with `dafny verify dfyconfig.toml`.

## How the model is built

The C code works by changing things step by step, and so do the methods here.  Each method is
proved against a function that says what it computes, and the laws are proved about the functions.

| module | what it holds |
|---|---|
| `Config` | the compile-time options as arbitrary constants: every result holds for every width of `pb_size_t` and `size_t`, every limit on required fields, packed or unpacked array encoding |
| `Bits`, `Varint` | machine-word operations; varints: the encoding, its value, the 64-bit and the 32-bit decoder |
| `Message` | field descriptors, the contents of a struct field by field, default values |
| `Wire` | how bytes split into records, before any field is stored |
| `Decode`, `DecodeLaws` | decoding as a fold over records; merging, unknown fields, order, last one wins, fixed-count runs, required fields |
| `Numbers`, `Format`, `Absence` | the same functions from outside, in literals: what every scalar type accepts and writes, the keys, payloads and examples byte by byte, what absent fields hold and when fields are left out |
| `Encode`, `Cost` | the bytes a message turns into; how often submessages are entered |
| `WellFormed`, `Chunks`, `RoundTrip`, `Evolution`, `Pointers` | well-formed tables and messages; packed and single items; decoding inverts encoding; receivers with any other version of the table; messages that hold values behind pointers |
| `Streams`, `Iterator`, `RequiredMask` | the stream classes, the cyclic iterator and the layout macros it inverts, the bitmask |
| `Decoder`, `Encoder`, `EndToEnd` | the methods of `pb_decode.c` on static fields and of `pb_encode.c` on static fields and pointers; both together |
| `Heap`, `HeapDecoder` | `PB_ENABLE_MALLOC`: memory as trees of blocks, the allocator and its account, allocation, decoding with pointers, release |
| `Forms` | what an input does to the form of a message with pointers: which are set, how many entries arrays have |
| `Slips`, `Probes` | where the account of blocks goes wrong, the inputs that make it go wrong, and the structs for which there are none |

A struct is a sequence of cells, one for each field together with its has-flag, count or which-tag;
the members of a union share the cell of the first.  `Iterator.CellsAreMemory` shows that this is what
the offsets in the descriptors describe.  A string is the characters before its terminator; floats
and doubles are the fixed-size numbers that carry them, as in the code.  A pointer that is not repeated is the value behind it,
if any, together with the bytes of memory that the encoder's presence check looks at; a repeated one is its items.  A
null pointer in an array of strings or byte strings stands for an empty one, as the encoder takes it.

On the heap side a struct is a value whose pointers carry the name of their block.  `Owned` is the
multiset of blocks that `pb_release` would free: those a struct refers to, but not through entries of static
arrays that are not counted.  `Conserves` says that live blocks and owned blocks change in step.  The
allocator may fail at any time, grow a block in place or move it; freeing a block that is not live is
recorded as a fault.  Two books, `gained` and `lost`, record the blocks a static array begins or ceases to count without
their being allocated or freed, so that the account can be stated for every run, and not only for those in which
nothing goes wrong.  What is left open (a block that cannot be had, an item whose value is rejected, a message that is
incomplete) is counted in `refusals`: a decode that refuses nothing succeeds exactly on the inputs for which `Forms.After`
has a result, and gives the message that form.

## Where the code and its documentation differ, and what is false

* `pb_decode.h:55-56` says that `pb_decode` initialises all fields but callbacks.  It does not initialise the
  items of arrays.  Counted arrays get the count zero (`pb_decode.c:862-869`).  A fixed-count array has no count of its
  own, so the same line writes a zero of the width of `pb_size_t` over the start of its first item, and all else stays as
  it was.  The model holds the items as `Unset`.
* The decoder goes by the type of a known field and ignores the wire type, except to tell packed arrays.
  `Wire.ShapeOf` follows the code, and `Format.WireTypeIsIgnored` says so.
* The 32-bit varint decoder accepts some numbers that are no sign extension of an int32, such as 2^63 + 2^31
  (`Varint.AcceptedThoughNotExtended`).  `Varint.Decode32OfCanonical` says exactly which.
* Two unions in a row whose distance is `PB_SIZE_MAX` bytes are taken for one
  (`Iterator.TwoUnionsTakenForOne`); `Iterator.IteratorRecoversPlaces` says that this is the only way the
  offsets go wrong.
* `pb_decode_noinit` may be interrupted by a failure with a substream open.  The stream is then not where the
  announced bytes end, so the positions after delimited decoding are stated for success.
* `pb_decode` with pointers does not account for its blocks on every struct.  A static submessage array counts a new
  entry before it is initialised (`pb_decode.c:457-463`), and when the length prefix of the entry cannot be read it stays as
  it was; the release that follows (`pb_decode.c:1080-1083`) then frees whatever blocks stale pointers in it name.
  `Heap.CountedEntryIsHarmless` is the exact condition for one record: the entry refers to no block.  For a run,
  `HeapDecoder.DecodeMessage` and `HeapDecoder.Lifecycle` say that every block is back where it was if and only if no array
  has come to count or to forget one.  For a struct, `Probes.CleanExactly` says that no input is bound to go wrong if and only
  if the struct is clean, that is, if the entries name no block; `Probes.StaleRun` is the run that goes wrong, on the
  input that leads to any given entry.  For the first entry of an array of the message itself that input is the key of
  the array and nothing more (`Probes.ProbeOfFirst`).
* The presence check of the encoder (`pb_encode.c:317-337`) means to compare a pointer with null.  Of a pointer to a number it
  looks at as many bytes as the number has.  `Pointers.CheckOfPointer` says exactly when it goes wrong, and
  `Pointers.LostPointer` is a submessage of implicit presence that is not written although a pointer in it is set.
* A full static submessage array of exactly `PB_SIZE_MAX` entries forgets them when one more arrives, because the count
  wraps to zero.  `Heap.OverflowIsHarmless` is the exact condition for one record: the array is smaller, or its entries refer to
  no block.  In `Probes.OverflowRun` the blocks of the entries stay live and nothing refers to them.

## Model

| member | source | states |
|---|---|---|
| `EndToEnd.Transfer` | Spotify/Pods/nanopb/pb_encode.c:528-550 | `pb_encode` into a buffer of any capacity succeeds exactly when the encoding fits; `pb_decode` of the bytes written, into a struct holding anything, then succeeds and gives the same message |
| `RoundTrip.MessageRoundTrip` | Spotify/Pods/nanopb/pb_decode.c:925-1087 | for every well-formed table of static fields and message of it, encoding succeeds and decoding the bytes succeeds, leaves nothing unread, and rebuilds the message with absent fields at their defaults |
| `RoundTrip.RoundTripIsSame` | Spotify/Pods/nanopb/pb_decode.c:1075-1087 | the same, as equality of messages up to the contents of absent fields |
| `RoundTrip.FieldRoundTrip` | Spotify/Pods/nanopb/pb_encode.c:341-426 | one field is written as its records, and these take the decoder from "fields before `k` rebuilt" to "fields up to `k` rebuilt" |
| `RoundTrip.ArrayStep` | Spotify/Pods/nanopb/pb_decode.c:424-464 | the records of an array, packed or one by one, counted or fixed-count, rebuild it |
| `RoundTrip.AbsentField` | Spotify/Pods/nanopb/pb_encode.c:348-395 | a field without records is one for which nothing is written, and it is what the decoder already has, including implicit presence with nested submessages |
| `WellFormed.CanonIsSame` | Spotify/Pods/nanopb/pb_decode.c:836-906 | filling absent fields with defaults gives the same message |
| `WellFormed.ZeroIsDefault` | Spotify/Pods/nanopb/pb_encode.c:240-337 | a value that the implicit-presence check takes for absent is what `pb_decode` puts there by default |
| `Absence.AbsentFields` | Spotify/Pods/nanopb/pb_decode.c:836-906 | after a decode that goes well every field for which there was no record has its has-flag false, its count or which-tag zero, and its declared default or else zero, false, nothing or zero bytes, and so in submessages that are absent |
| `Absence.Arrival` | Spotify/Pods/nanopb/pb_decode.c:1503-1525 | a submessage that arrives in a union, as an entry, or in a field still at its default is decoded as a message of its own |
| `Absence.ImplicitPresence` | Spotify/Pods/nanopb/pb_encode.c:240-337 | a field of implicit presence contributes no bytes if and only if it holds 0, false, no bytes, a string without a first character, or a submessage without required fields all of whose fields are absent; otherwise at least its key is written |
| `Absence.OmittedFieldIsZero` | Spotify/Pods/nanopb/pb_encode.c:240-337 | the presence check of one field, by has-flag, count, which-tag, pointer or value |
| `Absence.EmptySubmessage` | Spotify/Pods/nanopb/pb_encode.c:293-308 | a submessage of implicit presence is left out if and only if its encoding is empty |
| `Numbers.DecodeUnsigned` | Spotify/Pods/nanopb/pb_decode.c:1366-1388 | of the 64-bit varints an unsigned field of 1, 2, 4 or 8 bytes takes exactly those up to 255, 65535, 4294967295 or all |
| `Numbers.DecodeZigZag` | Spotify/Pods/nanopb/pb_decode.c:1390-1412 | a zigzag field takes exactly the numbers between the least and greatest signed number of its width |
| `Numbers.DecodeSigned` | Spotify/Pods/nanopb/pb_decode.c:1329-1364 | a plain signed field of 8 bytes takes all numbers; a narrower one takes the low 32 bits as a signed number if its width holds that |
| `Numbers.OddWidth` | Spotify/Pods/nanopb/pb_decode.c:1342-1357 | other widths are refused by the decoder and the encoder |
| `Numbers.EncodeIntegers` | Spotify/Pods/nanopb/pb_encode.c:769-828 | unsigned numbers are varints of themselves, signed ones of their 64-bit pattern, zigzag ones of 2i or -2i - 1 |
| `Numbers.WellFormedIntegers` | Spotify/Pods/nanopb/pb_decode.c:1329-1412 | the numbers for which the round trip is stated are exactly those the C type holds |
| `Numbers.Bools` | Spotify/Pods/nanopb/pb_decode.c:1318-1327 | every 32-bit varint but zero is true; true is written as 1 and false as 0 |
| `Numbers.Fixed` | Spotify/Pods/nanopb/pb_decode.c:1262-1315 | fixed-size numbers are little-endian |
| `Numbers.DecodeSized` | Spotify/Pods/nanopb/pb_decode.c:1431-1548 | a byte string is accepted exactly when it fits its field with its count, a string when it fits with its terminator, one of fixed length when it has that length or is empty |
| `Numbers.EncodeBytes` | Spotify/Pods/nanopb/pb_encode.c:852-873 | a static byte string is written exactly when it fits its field |
| `Numbers.EncodeString` | Spotify/Pods/nanopb/pb_encode.c:875-899 | a string is written up to its first NUL whatever is behind it |
| `Numbers.HeaderIsCount` | Spotify/Pods/nanopb/pb.h:270-276 | the count in front of a byte string has the width of a `pb_size_t` |
| `Format.Keys` | Spotify/Pods/nanopb/pb_encode.c:675-707 | the key of every field type, with the wire types 0, 1, 2 and 5 written out |
| `Format.ArrayForm` | Spotify/Pods/nanopb/pb_encode.c:147-236 | arrays of numbers are one record of wire type 2 unless the library is told not to pack, others one record an item; a static array that counts more than it has is an error |
| `Format.NullPointer` | Spotify/Pods/nanopb/pb_encode.c:369-384 | a required pointer that is null is an error, an optional one is not written |
| `Format.Skipped` | Spotify/Pods/nanopb/pb_decode.c:321-331 | wire types 0, 1, 2 and 5 skip a varint, 8 bytes, a length and as many bytes, 4 bytes; all others fail |
| `Format.ItemExtent` | Spotify/Pods/nanopb/pb_decode.c:68-81 | how much the decoder of each field type reads |
| `Format.WireTypeIsIgnored` | Spotify/Pods/nanopb/pb_decode.c:406-480 | records of a known field do the same whatever wire type their key tells, unless it announces a packed run |
| `Format.TwoFieldExample` | Spotify/Pods/nanopb/pb_encode.c:528-550 | a number and a string: 08 96 01 12 07 74 65 73 74 69 6E 67 |
| `Format.PackedExample` | Spotify/Pods/nanopb/pb_encode.c:163-208 | three numbers in a packed run: 22 06 03 8E 02 9E A7 05 |
| `Format.SubmessageExample` | Spotify/Pods/nanopb/pb_encode.c:717-765 | a submessage that holds 150: 1A 03 08 96 01 |
| `Format.WideNumbers` | Spotify/Pods/nanopb/pb_decode.c:1329-1388 | a uint32 of 3000000000, an int32 of 2^30, and five bytes that are -1 in an int32 |
| `Format.LongVarint` | Spotify/Pods/nanopb/pb_decode.c:255-275 | at most ten bytes, of which 64 bits are kept |
| `Format.EmptyTableExample` | Spotify/Pods/nanopb/pb_decode.c:957-986 | in an empty table a record with tag 0 is read as a bool, whatever its wire type |
| `EndToEnd.NullTerminatedRoundTrip` | Spotify/Pods/nanopb/pb_encode.c:557-565 | decoding the encoding, a null byte and any further bytes gives the message back and leaves exactly the further bytes |
| `EndToEnd.DelimitedRoundTrip` | Spotify/Pods/nanopb/pb_encode.c:552-555 | the length prefix in front of the encoding announces exactly it, whatever follows, and it decodes to the message |
| `Evolution.AnyReceiver` | Spotify/Pods/nanopb/pb_decode.c:925-1087 | a receiver with any version of the table, lacking fields and having others, in itself and in its submessages, decodes the encoding of every message to its view of it and leaves nothing unread; it fails if and only if it tracks a required field, here or in a submessage that arrives, which the sender lacks |
| `Evolution.ViewHolds` | Spotify/Pods/nanopb/pb_decode.c:957-1021 | in that view every field that is written and known has its value, and all else is at the receiver's defaults |
| `Evolution.OlderReceiver` | Spotify/Pods/nanopb/pb_decode.c:957-986 | a receiver that only lacks fields, at any depth, accepts every message |
| `Evolution.NewerReceiver` | Spotify/Pods/nanopb/pb_decode.c:925-1087 | a receiver that has more fields, none of them required and tracked, accepts every message of the sender and has every field the sender has written |
| `Evolution.SameReceiver` | Spotify/Pods/nanopb/pb_decode.c:1075-1087 | with the sender's own table the view is the message |
| `Evolution.PayloadsAreSkipped` | Spotify/Pods/nanopb/pb_decode.c:321-331 | behind every key the encoder writes stands a payload that `pb_skip_field` skips to its exact end |
| `Pointers.SameBytes` | Spotify/Pods/nanopb/pb_encode.c:341-426 | a message that holds values behind pointers turns into the bytes of the message that holds them in place, if the presence check answers what it is meant to |
| `Pointers.PointersArrive` | Spotify/Pods/nanopb/pb_encode.c:369-376 | a receiver with static fields and any version of the table gets the values behind the sender's pointers as if they had been in place |
| `Pointers.InlineIsZero` | Spotify/Pods/nanopb/pb_encode.c:240-337 | a field counts as absent exactly when it would in place, at any nesting |
| `Pointers.CheckOfPointer` | Spotify/Pods/nanopb/pb_encode.c:317-337 | a pointer to a number that is set counts as absent exactly when its first bytes, as many as the number has, are zero, which needs a number shorter than a pointer; null counts as present only if the number is longer |
| `Pointers.LostPointer` | Spotify/Pods/nanopb/pb_encode.c:317-337 | a pointer to true that is written on its own and lost inside a submessage of implicit presence |
| `DecodeLaws.Merge` | Spotify/Pods/nanopb/pb_decode.h:70-80 | `pb_decode_noinit` of `a` and then of `b` into the same struct is `pb_decode_noinit` of `a + b`, on tables without fixed-count arrays |
| `DecodeLaws.SubmessageMerge` | Spotify/Pods/nanopb/pb_decode.c:1503-1525 | a singular submessage split over two records decodes like one record with the concatenated body |
| `DecodeLaws.RecordsMerge` | Spotify/Pods/nanopb/pb_decode.c:1503-1525 | in a message, two records of one singular submessage do what one with both bodies does, whatever the field held |
| `DecodeLaws.UnknownFieldIsTransparent` | Spotify/Pods/nanopb/pb_decode.c:957-986 | inserting a record with a tag that is not in the table at any record boundary changes neither outcome, nor message, nor what is left unread |
| `DecodeLaws.UnknownRecordIsFramed` | Spotify/Pods/nanopb/pb_decode.c:321-331 | every record that is well formed on the wire and unknown to the table is skipped as exactly one record |
| `DecodeLaws.SwapRecords` | Spotify/Pods/nanopb/pb_decode.c:943-1021 | swapping two neighbouring records of different fields that are neither members of one union nor both fixed-count changes neither success nor the message |
| `DecodeLaws.StepsCommute` | Spotify/Pods/nanopb/pb_decode.c:988-1020 | the effects of two such records on the whole decoder state commute |
| `DecodeLaws.LastOneWins` | Spotify/Pods/nanopb/pb_decode.c:414-478 | of two records for one scalar field, or for members of one union, the last alone decides |
| `DecodeLaws.NoInitKeepsWithin` | Spotify/Pods/nanopb/pb_decode.c:434-464 | a decode that goes well leaves every count within its array, in the message and in all submessages; this is what is lost when it fails |
| `DecodeLaws.FixedCountRuns` | Spotify/Pods/nanopb/pb_decode.c:988-1028 | decoding succeeds only if every run of a fixed-count field has exactly `array_size` items, counted off the wire, with other records in between allowed |
| `DecodeLaws.SeenAreThoseThatAppear` | Spotify/Pods/nanopb/pb_decode.c:1012-1017 | the required fields the decoder has seen are those some record was for |
| `DecodeLaws.RequiredFieldsDecide` | Spotify/Pods/nanopb/pb_decode.c:1030-1070 | for records that decode without error and leave no fixed-count array incomplete, decoding succeeds exactly when each of the first `PB_MAX_REQUIRED_FIELDS` required fields has appeared |
| `Chunks.PackingEquivalence` | Spotify/Pods/nanopb/pb_decode.c:424-464 | any two ways to split the items of a counted scalar array into packed runs and single records decode alike, between any other bytes, and succeed exactly when the items fit |
| `Chunks.ReceiveChunks` | Spotify/Pods/nanopb/pb_decode.c:424-464 | packed runs and single records append their items in order, exactly when all of them fit |
| `Chunks.ScalarRoundTrip` | Spotify/Pods/nanopb/pb_decode.c:1262-1548 | every decoder of a scalar, string or byte string inverts its encoder, for every integer width |
| `Chunks.PackedRunRoundTrip` | Spotify/Pods/nanopb/pb_decode.c:436-445 | a packed run decodes to the items it was written from if they fit, and fails otherwise |
| `Wire.ReadKeyInvertsKeyBytes` | Spotify/Pods/nanopb/pb_decode.c:298-319 | `pb_decode_tag` inverts `pb_encode_tag`, whatever follows |
| `Wire.SplitInvertsRecsBytes` | Spotify/Pods/nanopb/pb_decode.c:943-986 | cutting a byte string into records inverts writing records |
| `Wire.SplitConcat` | Spotify/Pods/nanopb/pb_decode.c:943-986 | bytes behind a record boundary are cut into records on their own |
| `Wire.ExtentOfPrefix` | Spotify/Pods/nanopb/pb_decode.c:278-331 | where a payload ends does not depend on what follows it |
| `Decoder.DecodeNoInit` | Spotify/Pods/nanopb/pb_decode.c:925-1073 | the record loop with iterator, bitmask, counter and substreams computes exactly the fold over records `Decode.NoInit`: same outcome, same message, same bytes left |
| `Decoder.DecodeMessageInto` | Spotify/Pods/nanopb/pb_decode.c:1075-1087 | `pb_decode` computes `Decode.DecodeMessage` whatever the struct held, and on success every count is within its array and every field without a record at its default |
| `Decoder.DecodeDelimited` | Spotify/Pods/nanopb/pb_decode.c:1104-1117 | only the announced bytes decide, and on success the stream goes on right behind them however much was read |
| `Decoder.DecodeRecord` | Spotify/Pods/nanopb/pb_decode.c:943-1021 | one round: what the record in front of the stream does to the state, or failure, or the end at a zero key |
| `Decoder.DecodeFound` | Spotify/Pods/nanopb/pb_decode.c:988-1020 | the fixed-count bookkeeping, the required bit and the field decoder together do one step of the fold |
| `Decoder.SkipUnknown` | Spotify/Pods/nanopb/pb_decode.c:957-986 | a record of an unknown field changes nothing and is read to its end |
| `Decoder.CountRequired` | Spotify/Pods/nanopb/pb_decode.c:1036-1046 | running the iterator to the end counts all required fields |
| `Decoder.CheckFinished` | Spotify/Pods/nanopb/pb_decode.c:1023-1070 | the final checks pass exactly when the last fixed-count array is complete and no tracked required field is missing |
| `Decoder.DecodeStaticField` | Spotify/Pods/nanopb/pb_decode.c:406-480 | the cell of the field, its counter and the stream change as one record says, and no other cell does |
| `Decoder.DecodeSingular` | Spotify/Pods/nanopb/pb_decode.c:414-422 | required, optional and union fields, with has-flag or which-tag set, submessages in unions starting from their defaults |
| `Decoder.DecodeRepeated` | Spotify/Pods/nanopb/pb_decode.c:424-464 | packed and single records append to a counted or fixed-count array, or overflow; on a counted array every single record moves the count, also one that fails |
| `Decoder.DecodeEntry` | Spotify/Pods/nanopb/pb_decode.c:455-464 | a single record is stored exactly when there is room and it decodes; the count goes up, or wraps, in any case |
| `Decoder.DecodePackedItems` | Spotify/Pods/nanopb/pb_decode.c:436-445 | the packed loop ends with all bytes read and no failed item exactly when the run decodes and fits; the items are then stored in order |
| `Decoder.DecodePacked` | Spotify/Pods/nanopb/pb_decode.c:425-453 | the packed branch stores exactly the items of the announced run and leaves the stream behind it |
| `Decoder.DecSubmessage` | Spotify/Pods/nanopb/pb_decode.c:1503-1525 | decodes exactly the announced bytes into the given struct and leaves the stream behind them |
| `Decoder.DecodeBody` | Spotify/Pods/nanopb/pb_decode.c:1503-1525 | only the announced bytes decide what becomes of the submessage, and the stream goes on behind them |
| `Decoder.DecodeItem` | Spotify/Pods/nanopb/pb_decode.c:68-81 | the dispatch over field types delivers the item in front of the stream |
| `Decoder.DecBool` | Spotify/Pods/nanopb/pb_decode.c:1318-1327 | any non-zero 32-bit varint is true |
| `Decoder.DecVarint` | Spotify/Pods/nanopb/pb_decode.c:1329-1364 | signed integers of 1, 2, 4 and 8 bytes, cast through int32 when narrower than 8, rejected when they do not fit |
| `Decoder.DecUvarint` | Spotify/Pods/nanopb/pb_decode.c:1366-1388 | unsigned integers, rejected when they do not fit |
| `Decoder.DecSvarint` | Spotify/Pods/nanopb/pb_decode.c:1390-1412 | zigzag integers, rejected when they do not fit |
| `Decoder.DecFixed32` | Spotify/Pods/nanopb/pb_decode.c:1283-1295 | four bytes, little-endian |
| `Decoder.DecFixed64` | Spotify/Pods/nanopb/pb_decode.c:1298-1315 | eight bytes, little-endian |
| `Decoder.DecBytes` | Spotify/Pods/nanopb/pb_decode.c:1431-1466 | byte strings, with the checks on count width, allocation size and field size |
| `Decoder.DecString` | Spotify/Pods/nanopb/pb_decode.c:1468-1501 | strings, with room for the terminator computed in 32 bits |
| `Decoder.DecFixedLengthBytes` | Spotify/Pods/nanopb/pb_decode.c:1527-1548 | byte strings of fixed length; an empty one means zeros |
| `Iterator.FieldIter.constructor` | Spotify/Pods/nanopb/pb_common.c:8-18 | starts at the first field with its absolute positions |
| `Iterator.FieldIter.Begin` | Spotify/Pods/nanopb/pb_common.c:8-18 | the same for an iterator that wraps around |
| `Iterator.FieldIter.Next` | Spotify/Pods/nanopb/pb_common.c:20-76 | goes to the next field with its absolute data and size positions and the number of required fields before it, or wraps to the first and says so |
| `Iterator.FieldIter.FindTag` | Spotify/Pods/nanopb/pb_common.c:78-95 | from any position finds a field exactly when the table has one with the tag, in at most one round, and otherwise ends where it began; the terminator of an empty table answers to tag 0 |
| `Iterator.IteratorRecoversPlaces` | Spotify/Pods/nanopb/pb.h:399-484 | on tables built by the layout macros the iterator recovers all absolute offsets if and only if no two neighbouring unions are placed so that their distance reads as the union marker |
| `Iterator.TwoUnionsTakenForOne` | Spotify/Pods/nanopb/pb.h:401-405 | a struct with two unions `PB_SIZE_MAX` bytes apart, where the iterator points the second union at the first |
| `Iterator.CellsAreMemory` | Spotify/Pods/nanopb/pb.h:544-575 | two fields have one address exactly when they are members of one union, so one cell of the model is one piece of memory |
| `RequiredMask.NewMask` | Spotify/Pods/nanopb/pb_decode.c:927-927 | no bit is set |
| `RequiredMask.Mark` | Spotify/Pods/nanopb/pb_decode.c:1012-1017 | sets the bit of one required field and no other, across word boundaries |
| `RequiredMask.Check` | Spotify/Pods/nanopb/pb_decode.c:1048-1069 | the comparison of whole words and of the remaining bits passes exactly when all indices below the count were marked |
| `RequiredMask.IndicesCoverFields` | Spotify/Pods/nanopb/pb_decode.c:1036-1049 | all indices below min(number of required fields, limit) are marked exactly when all tracked required fields were seen |
| `RequiredMask.IndexCounts` | Spotify/Pods/nanopb/pb_common.c:64-70 | the index of a required field is the number of required fields in front of it |
| `RequiredMask.FullWord` | Spotify/Pods/nanopb/pb_decode.c:1054-1068 | a word equals its mask exactly when all its indices were marked |
| `Streams.IStream.Read` | Spotify/Pods/nanopb/pb_decode.c:87-137 | reads or skips exactly `count` bytes or fails; the end of the stream stays |
| `Streams.IStream.ReadByte` | Spotify/Pods/nanopb/pb_decode.c:141-157 | takes one byte, or fails on an empty stream |
| `Streams.IStream.DecodeVarint32Eof` | Spotify/Pods/nanopb/pb_decode.c:187-247 | the shifting loop with its 8-bit counter yields the value `Varint.Value32` of the first varint, or fails, and reads exactly that varint |
| `Streams.IStream.DecodeVarint32` | Spotify/Pods/nanopb/pb_decode.c:249-252 | the same without the end-of-stream flag |
| `Streams.IStream.DecodeVarint` | Spotify/Pods/nanopb/pb_decode.c:255-275 | yields the 64-bit value of the first varint, or fails if it is longer than ten bytes |
| `Streams.IStream.SkipVarint` | Spotify/Pods/nanopb/pb_decode.c:278-287 | stops right behind the first varint |
| `Streams.IStream.SkipString` | Spotify/Pods/nanopb/pb_decode.c:289-296 | stops right behind the announced bytes |
| `Streams.IStream.SkipField` | Spotify/Pods/nanopb/pb_decode.c:321-331 | stops exactly at the end of a payload of the given wire type, or fails |
| `Streams.IStream.DecodeTag` | Spotify/Pods/nanopb/pb_decode.c:298-319 | splits the key into tag and wire type; a zero key and an empty stream are the end |
| `Streams.IStream.MakeStringSubstream` | Spotify/Pods/nanopb/pb_decode.c:372-385 | the substream holds exactly the announced bytes, and position plus bytes left of both streams add up to the end of the parent |
| `Streams.IStream.CloseStringSubstream` | Spotify/Pods/nanopb/pb_decode.c:387-400 | the parent goes on right behind the announced bytes, however few the substream has read |
| `Streams.AnnouncedIsExtent` | Spotify/Pods/nanopb/pb_decode.c:372-400 | a substream and `pb_skip_string` agree on where a delimited payload ends |
| `Streams.OStream.BufWrite` | Spotify/Pods/nanopb/pb_encode.c:74-84 | appends the bytes to the buffer |
| `Streams.OStream.Write` | Spotify/Pods/nanopb/pb_encode.c:103-124 | appends the bytes if there is room, else changes nothing, also when the sum of the sizes wraps; a sizing stream only counts, and its count wraps |
| `Encoder.EncodeMessage` | Spotify/Pods/nanopb/pb_encode.c:528-550 | writes the bytes of `Encode.MessageEmit` as far as there is room, succeeds exactly when they all fit, and on a sizing stream counts exactly them |
| `Encoder.EncodeTop` | Spotify/Pods/nanopb/pb_encode.c:528-550 | the same at the top, with the number of times each depth of submessage is entered: d + 1 when writing, once when sizing |
| `Encoder.EncodeSubmessage` | Spotify/Pods/nanopb/pb_encode.c:717-765 | the sized and then written body takes exactly the announced size; the branch "submsg size changed" is not reached |
| `Encoder.EncodeBody` | Spotify/Pods/nanopb/pb_encode.c:737-764 | the part behind the length prefix: counted on a sizing stream, else written through a limited substream |
| `Encoder.EncodeArray` | Spotify/Pods/nanopb/pb_encode.c:147-236 | a packed run with the size found by the shortcut or the sizing pass, or one record an element; too many elements for a static array fail |
| `Encoder.PackedSize` | Spotify/Pods/nanopb/pb_encode.c:169-189 | the shortcut for fixed-size items and the sizing pass both give the length of the run |
| `Encoder.EncodeItems` | Spotify/Pods/nanopb/pb_encode.c:197-233 | the items in order, each behind its key unless packed |
| `Encoder.EncodeEntry` | Spotify/Pods/nanopb/pb_encode.c:197-232 | one item, behind its key unless packed |
| `Encoder.EncodeBasicField` | Spotify/Pods/nanopb/pb_encode.c:341-426 | presence by pointer, has-flag, which-tag, count or non-default value decides whether the field is written; a required pointer that is null is an error |
| `Encoder.EncodeSingle` | Spotify/Pods/nanopb/pb_encode.c:378-396 | key and item |
| `Encoder.CheckDefault` | Spotify/Pods/nanopb/pb_encode.c:240-337 | whether a field counts as absent inside an implicit-presence submessage, in the literal sense of `Absence.OmittedField` |
| `Encoder.CheckBytes` | Spotify/Pods/nanopb/pb_encode.c:323-336 | the loop answers yes exactly when the bytes it looks at are zero |
| `Encoder.CheckAllDefault` | Spotify/Pods/nanopb/pb_encode.c:296-307 | the loop over a submessage answers yes exactly when every field counts as absent |
| `Encoder.GetEncodedSize` | Spotify/Pods/nanopb/pb_encode.c:567-576 | the size a real encode writes |
| `Encoder.EncodeToBuffer` | Spotify/Pods/nanopb/pb_encode.c:74-124 | a message whose sizing pass succeeds with size n is encoded into a fresh buffer of capacity M exactly when n <= M; what has been written is always a prefix of the encoding within M bytes |
| `Encoder.EncodeDelimited` | Spotify/Pods/nanopb/pb_encode.c:552-555 | length prefix and body |
| `Encoder.EncodeNullTerminated` | Spotify/Pods/nanopb/pb_encode.c:557-565 | the message and a null byte |
| `Encoder.EncodeVarint` | Spotify/Pods/nanopb/pb_encode.c:608-628 | the loop over a ten-byte buffer writes the canonical encoding |
| `Encoder.EncodeNegativeVarint` | Spotify/Pods/nanopb/pb_encode.c:583-605 | the 32-bit loop with compensation writes the ten bytes that the 64-bit loop writes for the sign extension |
| `Encoder.NegativeRound` | Spotify/Pods/nanopb/pb_encode.c:589-601 | one round of the loop keeps the 32-bit register and the compensation in step with the 64-bit register |
| `Encoder.SimulationGoesOn` | Spotify/Pods/nanopb/pb_encode.c:589-601 | from registers that stand for a 64-bit register, one round leads to registers that stand for it shifted by seven bits |
| `Encoder.NegativeVarintRoundTrip` | Spotify/Pods/nanopb/pb_decode.c:187-247 | the 32-bit decoder recovers the pattern from those ten bytes |
| `Encoder.Refill` | Spotify/Pods/nanopb/pb_encode.c:597-597 | the exclusive or adds the compensation bits at the vacated top |
| `Encoder.EncodeTag` | Spotify/Pods/nanopb/pb_encode.c:669-673 | the key of a field number and wire type |
| `Encoder.EncodeTagForField` | Spotify/Pods/nanopb/pb_encode.c:675-707 | the key with the wire type of the field |
| `Encoder.EncodeString` | Spotify/Pods/nanopb/pb_encode.c:709-715 | length prefix and bytes |
| `Encoder.EncodeSvarint` | Spotify/Pods/nanopb/pb_encode.c:630-639 | the zigzag encoding |
| `Encoder.EncodeFixed32` | Spotify/Pods/nanopb/pb_encode.c:641-650 | four bytes, little-endian |
| `Encoder.EncodeFixed64` | Spotify/Pods/nanopb/pb_encode.c:653-666 | eight bytes, little-endian |
| `Encoder.EncBytes` | Spotify/Pods/nanopb/pb_encode.c:852-873 | byte strings that fit their field, or are behind a pointer; others fail |
| `Encoder.EncString` | Spotify/Pods/nanopb/pb_encode.c:875-899 | a string up to its NUL, at most the size of its buffer unless it is behind a pointer |
| `Encoder.EncScalar` | Spotify/Pods/nanopb/pb_encode.c:769-850 | the encoders of scalars |
| `Cost.VisitsByDepth` | Spotify/Pods/nanopb/pb_encode.c:717-765 | an encode to a buffer enters a submessage at depth d exactly d + 1 times, against once for each sizing pass |
| `Cost.NestedExample` | Spotify/Pods/nanopb/pb_encode.c:717-765 | with two levels of submessages the outer one is entered twice and the inner one three times |
| `Cost.MessageByDepth` | Spotify/Pods/nanopb/pb_encode.c:717-765 | the same below any message at any depth |
| `Varint.EncodeIsVarint` | Spotify/Pods/nanopb/pb_encode.c:608-628 | the encoding is one varint with the positional value of the number |
| `Varint.EncodeLength` | Spotify/Pods/nanopb/pb_encode.c:610-610 | a 64-bit number takes at most ten bytes |
| `Varint.Decode64InvertsEncode` | Spotify/Pods/nanopb/pb_decode.c:255-275 | the 64-bit decoder inverts the encoder on all of uint64, whatever follows |
| `Varint.Or64` | Spotify/Pods/nanopb/pb_decode.c:269-269 | or-ing a shifted group in adds it modulo 2^64, on all ten rounds |
| `Varint.Or32` | Spotify/Pods/nanopb/pb_decode.c:233-233 | or-ing a shifted group in adds it modulo 2^32 |
| `Varint.Low32` | Spotify/Pods/nanopb/pb_decode.c:187-247 | on varints of at most ten bytes a successful 32-bit decode is the low 32 bits of the 64-bit value |
| `Varint.Decode32OfCanonical` | Spotify/Pods/nanopb/pb_decode.c:187-247 | which canonical encodings the 32-bit decoder accepts: exactly the numbers below 2^32 and those with bits 63 and 31 set whose groups 5 to 8 are all zeros or all ones |
| `Varint.Decode32Ranges` | Spotify/Pods/nanopb/pb_decode.c:221-230 | every number below 2^32 and every sign-extended negative int32 is accepted and recovered; nothing in [2^32, 2^63) is accepted |
| `Varint.AcceptedThoughNotExtended` | Spotify/Pods/nanopb/pb_decode.c:221-230 | 2^63 + 2^31 is accepted although it is no sign extension of an int32, and decodes to 2^31 |
| `HeapDecoder.Lifecycle` | Spotify/Pods/nanopb/pb_decode.c:1075-1087 | decode, release, release: every block is back where it was, and everything allocated meanwhile given back, if and only if no static array has come to count or forget a block; a clean struct, and arrays below `PB_SIZE_MAX` where entries can hold pointers, are enough for that on every input; the decode succeeds exactly on the inputs that have a form, unless something is refused |
| `HeapDecoder.ReleaseAgain` | Spotify/Pods/nanopb/pb_decode.c:1245-1259 | a release of a struct that refers to no block, such as a second release, changes nothing: no block is freed, none faultily |
| `HeapDecoder.DecodeMessage` | Spotify/Pods/nanopb/pb_decode.c:1075-1087 | after success a pointer that is not repeated is set if and only if there is a record for it, arrays behind pointers count exactly the items on the wire, and the whole message has the form the input gives it; a failed `pb_decode` leaves nothing to release and has given back exactly what it allocated if and only if no static array has come to count or forget a block; on every struct, and for descriptors cyclic through pointers |
| `HeapDecoder.DecodeNoInit` | Spotify/Pods/nanopb/pb_decode.c:925-1073 | on success the message has the form `Forms.After` says, and if that has a result only a refusal makes it fail; whatever the outcome, the account of blocks is off by exactly what a static array has come to count or forget; if the input is bound to end in a slip, it ends in that one |
| `HeapDecoder.DecodeRecord` | Spotify/Pods/nanopb/pb_decode.c:943-1021 | one round of the loop does one step of that, keeps the account, and what the rest of the input is bound to end in |
| `HeapDecoder.DecodeTagged` | Spotify/Pods/nanopb/pb_decode.c:943-1021 | a record behind its key: known, unknown, or tag 0 in an empty table |
| `HeapDecoder.DecodeKnown` | Spotify/Pods/nanopb/pb_decode.c:988-1020 | the same for a record of a field of the table; only its cell changes |
| `HeapDecoder.DecodeField` | Spotify/Pods/nanopb/pb_decode.c:731-757 | the same for the cell of one field, static or pointer, and the record is read to its end |
| `HeapDecoder.ReadData` | Spotify/Pods/nanopb/pb_decode.c:1262-1415 | an item is read to its end, or its bytes are not all there, or its value is refused |
| `HeapDecoder.SkipPacked` | Spotify/Pods/nanopb/pb_decode.c:425-453 | a packed run of a static array is read to its end if it consists of whole items, unless something is refused |
| `HeapDecoder.TextSize` | Spotify/Pods/nanopb/pb_decode.c:1437-1451 | the size with terminator or count is found, or refused exactly when it does not fit its arithmetic |
| `Forms.AfterArrives` | Spotify/Pods/nanopb/pb_decode.c:540-675 | over the records of the input: a pointer that is not repeated and has a record is set, arrays behind pointers and static arrays of submessages have grown by exactly the items on the wire, and cells without a record are as they were |
| `Forms.FieldArrives` | Spotify/Pods/nanopb/pb_decode.c:540-675 | the same for one record, and how far it reaches |
| `Forms.Inside` | Spotify/Pods/nanopb/pb_decode.c:1503-1525 | the same inside the submessage a record brings: behind a pointer or as an entry it has all that is in the body and nothing else, in place the body is added to it |
| `Forms.ArrivedFromDefaults` | Spotify/Pods/nanopb/pb_decode.c:836-906 | from the defaults on, pointers are set exactly where there are records, and counts are exactly the items on the wire |
| `HeapDecoder.DecodeStaticField` | Spotify/Pods/nanopb/pb_decode.c:406-480 | static fields, with submessages in place; the counts stay within the arrays while decoding goes well |
| `HeapDecoder.DecodeStaticEntry` | Spotify/Pods/nanopb/pb_decode.c:455-464 | a static submessage array counts its new entry before decoding it; when it is full or the length prefix cannot be read, nothing is freed and the account is off by exactly the blocks it has come to forget or to count; no other entry changes |
| `HeapDecoder.RefuseEntry` | Spotify/Pods/nanopb/pb_decode.c:457-461 | a full array counts the record that does not fit; nothing is freed, and what is forgotten when the count wraps is nothing if the entries cannot hold pointers |
| `HeapDecoder.DecodePointerValue` | Spotify/Pods/nanopb/pb_decode.c:565-592 | a value behind a pointer: the block is reused, grown or moved, never lost, and there is one after success; only a refusal makes a whole record fail |
| `HeapDecoder.DecodePointerStruct` | Spotify/Pods/nanopb/pb_decode.c:568-591 | a duplicate submessage behind a pointer gives back every block the first one held |
| `HeapDecoder.ReplaceBlock` | Spotify/Pods/nanopb/pb_decode.c:568-588 | everything behind the pointer is given back before the new block is allocated |
| `HeapDecoder.DecodeNewStruct` | Spotify/Pods/nanopb/pb_decode.c:590-591 | the new submessage starts from zero and the account holds for its block and all behind it |
| `HeapDecoder.DecodePackedPointer` | Spotify/Pods/nanopb/pb_decode.c:595-652 | on success the count grows by exactly the number of items in the announced run; the blocks are accounted for either way |
| `HeapDecoder.DecodePackedRun` | Spotify/Pods/nanopb/pb_decode.c:608-647 | the loop counts exactly the items of the run and accounts for the block |
| `HeapDecoder.DecodePackedItem` | Spotify/Pods/nanopb/pb_decode.c:608-647 | one round: count <= allocated size <= `PB_SIZE_MAX` and allocated size <= capacity, before and after, and the item is written at an index inside the block |
| `Wire.ExtentOfConcat` | Spotify/Pods/nanopb/pb_decode.c:278-331 | what a payload takes off the front of a byte string is not changed by bytes behind it |
| `HeapDecoder.GrowPacked` | Spotify/Pods/nanopb/pb_decode.c:619-635 | after growing there is room for one more item, within what was allocated |
| `HeapDecoder.GrownSize` | Spotify/Pods/nanopb/pb_decode.c:621-628 | the guess grows the array, stays within `PB_SIZE_MAX`, and either covers all bytes that are left or is one item |
| `HeapDecoder.DecodePointerEntry` | Spotify/Pods/nanopb/pb_decode.c:653-669 | an array behind a pointer grows by exactly one entry, cleared, counted and then decoded, and keeps the others |
| `HeapDecoder.DecodeNewEntry` | Spotify/Pods/nanopb/pb_decode.c:665-668 | the new entry, cleared, counted and decoded, whatever its type |
| `HeapDecoder.DecodeTextEntry` | Spotify/Pods/nanopb/pb_decode.c:653-669 | the entry is a string or byte string with a block of its own |
| `HeapDecoder.DecodeStructEntry` | Spotify/Pods/nanopb/pb_decode.c:653-669 | the entry is a submessage that starts from zero: it is all zero if its length prefix cannot be read |
| `HeapDecoder.DecText` | Spotify/Pods/nanopb/pb_decode.c:1431-1501 | strings and byte strings behind a pointer: the block has exactly the size of what is announced and of its terminator or count |
| `HeapDecoder.DecSubmessage` | Spotify/Pods/nanopb/pb_decode.c:1503-1525 | entries of arrays are initialised and released on failure, other submessages are added to; an entry whose length prefix cannot be read is left as it was, and its blocks are booked as gained |
| `HeapDecoder.SizesFit` | Spotify/Pods/nanopb/pb_decode.c:504-519 | the overflow check of `allocate_field` passes exactly when the product fits a size_t |
| `HeapDecoder.AllocateField` | Spotify/Pods/nanopb/pb_decode.c:487-530 | allocates or replaces one block of a size that does not overflow, or fails and changes nothing |
| `HeapDecoder.ReleaseStruct` | Spotify/Pods/nanopb/pb_decode.c:1245-1259 | afterwards the struct refers to no block, and exactly the blocks it referred to have been freed, whatever it held; a clean struct then names no block at all |
| `HeapDecoder.ReleaseField` | Spotify/Pods/nanopb/pb_decode.c:1154-1243 | the same for one field, with the entries before the array that holds them |
| `HeapDecoder.ReleaseContent` | Spotify/Pods/nanopb/pb_decode.c:1180-1231 | what a block refers to is freed before the block |
| `HeapDecoder.ReleasePointer` | Spotify/Pods/nanopb/pb_decode.c:1217-1242 | the block, everything behind it, and nothing else is freed, and the pointer and its count are cleared |
| `HeapDecoder.ReleaseStructs` | Spotify/Pods/nanopb/pb_decode.c:1207-1214 | the loop over the counted entries frees all that the array refers to |
| `HeapDecoder.FreeTexts` | Spotify/Pods/nanopb/pb_decode.c:1219-1231 | each string is freed once and its pointer cleared |
| `Heap.BalanceWhole` | Spotify/Pods/nanopb/pb_decode.c:1180-1215 | if the blocks of a part are accounted for and the rest is unchanged, those of the whole are |
| `Heap.ZeroIsBlank` | Spotify/Pods/nanopb/pb_decode.c:540-546 | a cleared entry names no block and has the shape of its type |
| `Heap.DefaultsAreTyped` | Spotify/Pods/nanopb/pb_decode.c:836-906 | setting defaults resets all counts, even in a struct that a failed decode has left |
| `Heap.DefaultsOwnNothing` | Spotify/Pods/nanopb/pb_decode.c:836-906 | after the defaults have been set `pb_release` has nothing to free, whatever the struct held |
| `Heap.EntryCounted` | Spotify/Pods/nanopb/pb_decode.c:457-463 | counting one more entry adds exactly the blocks it refers to to those that `pb_release` frees |
| `Heap.CountedEntryIsHarmless` | Spotify/Pods/nanopb/pb_decode.c:457-463 | an array that counts an entry without initialising it answers for the same blocks as before if and only if the entry refers to none |
| `Heap.OverflowIsHarmless` | Spotify/Pods/nanopb/pb_decode.c:457-461 | a full array that counts one record more answers for the same blocks as before if and only if it has fewer than `PB_SIZE_MAX` entries or they refer to none |
| `Heap.PointerlessIsBlank` | Spotify/Pods/nanopb/pb_decode.c:1154-1243 | a struct of a type that has no pointers, in itself or in place, names no block |
| `Probes.ProbeIsForeseen` | Spotify/Pods/nanopb/pb_decode.c:455-463 | the input that follows a path through static submessages is bound to count the entry at its end as it was |
| `Probes.ProbeOfFirst` | Spotify/Pods/nanopb/pb_decode.c:455-463 | for the first entry of an array of the message itself that input is the key of the array |
| `Probes.StaleIsNotClean` | Spotify/Pods/nanopb/pb_decode.c:862-869 | a message with an array of one entry that still refers to a block: it is not clean and its entry can be led to |
| `Probes.CleanGainsNothing` | Spotify/Pods/nanopb/pb_decode.c:1503-1520 | on a clean struct no input is bound to make an array count a block |
| `Probes.CleanExactly` | Spotify/Pods/nanopb/pb_decode.c:1075-1083 | where every entry can be led to, the structs for which no input is bound to make an array count a block are exactly the clean ones |
| `Probes.StaleRun` | Spotify/Pods/nanopb/pb_decode.c:1075-1087 | `pb_decode` on such an input fails, and frees every block the entry names: those that were live though this decode has not allocated them, the others though they were not live; it changes nothing if and only if there are none |
| `Probes.OverflowRun` | Spotify/Pods/nanopb/pb_decode.c:455-461 | `pb_decode_noinit` and `pb_release`, where the first record is one too many for a full array of `PB_SIZE_MAX` entries: exactly the blocks of its entries stay live, and nothing refers to them |

## Left out

- Callback fields, extension fields and custom streams: they call foreign code.  A table with an
  extension placeholder is not a table of static fields here.
- `errmsg` strings, the AVR workaround, `PB_BUFFER_ONLY`, the old callback style, struct packing and pointer casts.
- `PB_WITHOUT_64BIT` beyond `pb_encode_negative_varint` and the 32-bit varint decoder.
- Pointer fields in `Decoder`, and so in the tables of receivers: it models static fields.  Decoding into pointers is
  modelled in `HeapDecoder`, for tables without unions and with any descriptor cycles through pointers.
- Values that the decoder stores behind pointers: `HeapDecoder` follows blocks, not values.
- A member of a union whose pointer is null, unless it is a string or byte string: the encoder follows it.
- Static fixed-count arrays of submessages on the heap side: `pb_release` visits all their entries, which nothing
  initialises.  `HField` cannot describe them.
- Garbage in memory that is no struct of the right shape, other than counts, stale pointers and their contents.
- The contents of the struct after a failed decode of static fields: the contracts say that it still has the
  shape of its table, with any count in its arrays, and how the count of the array at hand has moved, not what it holds.
- A `size_t` of 16 bits.
- Encodings longer than a `size_t` can count: the methods ask that the encoding in hand is not.
- Padding bytes, and a bool in memory with another value than 0 and 1.
- The rest of the repository: the Swift application, its tests and the other vendored libraries.
- HeapDecoder.DecodeField: says which blocks are allocated, freed and referred to, which pointers are set and how arrays grow, not which values are stored; whether a value is accepted is left open and counted as a refusal, so the result covers every outcome.
- HeapDecoder.DecodeNoInit: the same; an incomplete fixed-count array is a failure that may happen at every static array without submessages and at the end of a message that had one, a missing required field one that may happen at the end of a message that has required fields.
- HeapDecoder.DecodeRecord: the same.
- HeapDecoder.DecodeMessage: which inputs are accepted and which values are stored is left open.
- HeapDecoder.DecodeStaticField: data without pointers is read and not stored.
- HeapDecoder.DecSubmessage: the struct is passed in and returned as a value; update in place and aliasing between blocks are not modelled.
- HeapDecoder.SkipPacked: reads the items of a packed static array without storing them; that the array may be full is a refusal.
- Decoder.DecSubmessage: the nested struct is copied into an object of its own and back, not decoded in place.
- DecodeLaws.FixedCountRuns: one direction, since items can fail to decode for other reasons.
- HeapDecoder.DecodeKnown: acceptance and stored values are left open.
- Probes.CleanExactly: entries that cannot be led to are those whose probe is longer than a 32-bit length prefix can tell, and those behind entries of a type with required fields, which the probe would have to fill in.
- Evolution.AnyReceiver: versions of a field other than submessages have the same type and the same sizes.
- DecodeLaws.Merge: `a` must end at a record boundary without a zero key, because a zero key stops the loop.

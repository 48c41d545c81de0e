# Verified models of the codec and networking cores

This project models three parts of the repository in Dafny and proves what they promise.

* **nanopb 0.3.9.6**, the Protocol Buffers codec under `vk/Pods/nanopb`: varints, streams and substreams, the cyclic
  descriptor iterator, the encoder with its sizing pass, the decoder with its required-field bitmap and fixed-count
  arrays, and the ownership of memory when pointer fields are enabled.
* **Alamofire's `AuthenticationInterceptor`**: one refresh at a time, deferred calls, and the refresh window.
* **Alamofire's `MultipartFormData` and `HTTPHeaders`**: a streaming writer against an in-memory encoder, and an array
  that behaves as an ordered map.

## How it is built

The C functions and the Swift types that change state are methods and classes here (`IStream`, `OStream`, `FieldIter`,
`Heap`, `Interceptor`, `System`, `FormData`, `Headers`). Each is proved against a function on values, and the theorems
are about those functions:

| files | content |
|---|---|
| `Bits`, `Varint` | machine words as numbers, the encoding guide's varints, and how the 32-bit decoder relates to the 64-bit one |
| `Streams`, `OutputStreams` | memory streams and the primitives that move them |
| `Schema`, `FieldIterator` | descriptors, structures, default values, the cyclic iterator and the structure layout |
| `WireFormat`, `Encoder` | what `pb_encode` writes, and the methods that write it |
| `WireReader`, `RequiredFields`, `Decoder` | what `pb_decode` makes of bytes, and the methods that do it |
| `RoundTrip`, `Merging`, `Concatenation`, `Submessages`, `Compatibility`, `Presence`, `Transfer` | the theorems about messages |
| `Items` | which bytes stand for which item, in plain arithmetic, and which structures can be encoded |
| `Records`, `Occurrences`, `WrittenRecords` | what a message means by its records, whatever their order; that the decoder gives that, and which records the encoder writes |
| `Allocator`, `Ownership`, `HeapReader`, `HeapDecoder` | the decoder with `PB_ENABLE_MALLOC`: who owns which block, and which inputs it accepts |
| `StaleStorage`, `PointerRecords` | on which storage it is safe, which messages it accepts there, and that it agrees with the other decoder |
| `AuthenticationInterceptor`, `AuthenticationRuns`, `AuthenticationSystem` | the interceptor, all interleavings of its steps, and the class at work |
| `Multipart`, `MultipartParsing`, `HTTPHeaders` | the two smaller Alamofire types |

A message type is a sequence of descriptors (`Schema.Field`), a structure a sequence of slots (`Schema.Message`). The
sizes that a C build fixes (`pb_size_t`, `size_t`, pointers, `PB_MAX_REQUIRED_FIELDS`) are constants of which only the
range is known. `Streams.Outcome` turns a method's success flag, result and remaining bytes into a parse result, so a
decoder's contract says which bytes it used; `OStream.Wrote` says that a call wrote exactly the given bytes if they fit,
and kept everything before them if not.

`Records` is the reference that both decoders are held against. It splits a message into records without any state, and
says of all records together what they mean: a field gets its last item, an array all of its items, a submessage what
all its occurrences mean as if they had come in one piece, a union the member that came last, and a field that does not
occur its default. It also says which records are acceptable. `Occurrences.DecodeIsMeaning` proves that `pb_decode`
accepts exactly these inputs and returns exactly that structure, for every message type without pointers and every
input; `PointerRecords.PointersAccept` proves the same of acceptance and counts where there are pointers.

In `HeapDecoder` the ghost argument `rest` stands for the blocks of others, and every contract says that the live blocks
are those and the structure's own. A block that is not live cannot be released, and a write must stay inside its block.
Which requests for memory are refused is up to the heap's script, and the theorems hold for every script. The heap marks
the moment from which `pb_release` would walk memory that was never set (`stray`): what that does is undefined, so the
model stops there and promises nothing any more. `HeapReader` says of bytes and memory, without values and pointers,
whether the decoder accepts, refuses or goes astray if no request is refused; every decoder is proved to follow it.
Items of static arrays that the count does not reach are a node's `raw` part. A `Level` says what is known of a tree:
that it is in order, that `pb_release` can walk it, or only its type.

In `AuthenticationRuns` each step is one critical section, one item of a queued block, or one call of a completion.
`retry` takes two steps, because it reads the credential before it takes the lock. The clock is read once for the check
and again for the record.

## Where the code and its documentation differ

* `pb_decode 2.h` says that `pb_decode` initializes every field but callbacks. It does not initialize the items of a
  static array of submessages, and counts an item before it is initialized (`pb_decode 2.c` lines 456 to 463). If the
  submessage is cut off in its length, `pb_release` walks memory that was never set. The one-byte message `0A` does
  this, and fails in two ways: a stale pointer is freed (`StaleStorage.StalePointer`), or an array of strings with a
  stale count is read through its null pointer, which lines 1224 to 1230 do not look at (`StaleStorage.StaleCount`).
  `StaleStorage.CutOffItem` says when, at any point of any message: exactly if the memory of the next item is not
  harmless. `StaleStorage.SafeStorage` says which memory is safe for all inputs: exactly that in which those array items
  are harmless that an input can get to. The header's own example `MyMessage msg = {};` has harmless items. Pointer
  fields outside static arrays may hold anything.
* `pb_decode_noinit` is documented as a way of merging messages. With fixed-count arrays it is not always:
  `Concatenation.ConcatenationMerges` says exactly when it is, and `Compatibility.FixedCountDoesNotMerge` has a message
  that is accepted once and rejected twice in a row.
* The 32-bit varint decoder accepts some encodings of numbers that do not fit 32 bits. `Varint.Varint32OfEncoded` says
  exactly which of the encoder's outputs it accepts.
* Writing a multipart form to a stream that runs out of space ends without an error and with bytes missing, exactly if
  the stream is once asked for space and has none (`Multipart.FormData.WriteEncodedData`, with `Multipart.Truncated` as
  such a run).
* `MultipartFormData` cites RFC 2388 and RFC 2045; the parser in `MultipartParsing` follows section 5.1.1 of RFC 2046.

## Model

| member | source | states |
|---|---|---|
| `Varint.Varint64RoundTrip` | vk/Pods/nanopb/pb_encode 2.c:608-628 | Every 64-bit number is read back from its varint, whatever follows it |
| `Varint.Varint32Exact` | vk/Pods/nanopb/pb_decode 2.c:187-247 | On every varint of at most 36 bytes, where its bit position would wrap around, the 32-bit decoder returns the value modulo 2^32, or fails, and the condition says which: the bits above the 32nd are absent or a sign extension |
| `Varint.Varint32Refines64` | vk/Pods/nanopb/pb_decode 2.c:187-275 | Wherever both decoders succeed they use the same bytes and agree modulo 2^32 |
| `Varint.Varint32OfEncoded` | vk/Pods/nanopb/pb_decode 2.c:187-247 | Of the encoder's outputs the 32-bit decoder accepts exactly those of numbers below 2^32 and of certain numbers from 2^63 on whose bit 31 is set, and returns the low word |
| `Varint.Varint32RoundTrip` | vk/Pods/nanopb/pb_decode 2.c:187-247 | Every 32-bit number is read back from its varint |
| `Varint.NegativeInt32` | vk/Pods/nanopb/pb_decode 2.c:187-247 | The ten bytes of a sign-extended negative int32 give its low word back |
| `Varint.ZigZagBits` | vk/Pods/nanopb/pb_encode 2.c:630-639 | The shift-and-complement of pb_encode_svarint is the zigzag mapping of the encoding guide |
| `Varint.FixedRoundTrip` | vk/Pods/nanopb/pb_decode 2.c:1283-1315 | Little-endian words are read back |
| `Streams.IStream.BufRead` | vk/Pods/nanopb/pb_decode 2.c:87-100 | Copies the next bytes of the buffer and moves past them |
| `Streams.IStream.PbRead` | vk/Pods/nanopb/pb_decode 2.c:102-139 | All bytes asked for or none, never beyond bytes_left; cursor plus bytes_left is conserved |
| `Streams.IStream.PbReadByte` | vk/Pods/nanopb/pb_decode 2.c:141-157 | The next byte, or failure exactly at the end |
| `Streams.IStream.constructor` | vk/Pods/nanopb/pb_decode 2.c:159-180 | The stream delivers the buffer |
| `Streams.IStream.PbDecodeVarint32Eof` | vk/Pods/nanopb/pb_decode 2.c:187-247 | Result, bytes used and failure of the 32-bit decoder; eof exactly if nothing was left at the start |
| `Streams.IStream.PbDecodeVarint32` | vk/Pods/nanopb/pb_decode 2.c:249-252 | The same without eof |
| `Streams.IStream.PbDecodeVarint` | vk/Pods/nanopb/pb_decode 2.c:255-275 | The loop reads the value of the encoding guide, modulo 2^64, from at most 10 bytes |
| `Streams.IStream.PbSkipVarint` | vk/Pods/nanopb/pb_decode 2.c:278-287 | Moves past the first byte without a continuation bit |
| `Streams.IStream.PbSkipString` | vk/Pods/nanopb/pb_decode 2.c:289-296 | Moves past a length-delimited record |
| `Streams.IStream.PbSkipField` | vk/Pods/nanopb/pb_decode 2.c:321-331 | Moves past the value of a field of wire type 0, 1, 2 or 5, and fails for others |
| `Streams.IStream.PbDecodeTag` | vk/Pods/nanopb/pb_decode 2.c:298-319 | A header, an error, or the end of the message: nothing left or a zero tag |
| `Streams.IStream.PbMakeStringSubstream` | vk/Pods/nanopb/pb_decode 2.c:372-385 | The substream holds exactly the payload; the parent keeps what follows it |
| `Streams.IStream.PbCloseStringSubstream` | vk/Pods/nanopb/pb_decode 2.c:387-400 | The parent stands exactly behind the payload, whatever was left unread |
| `OutputStreams.OStream.BufWrite` | vk/Pods/nanopb/pb_encode 2.c:74-84 | The bytes go to the cursor, which moves behind them; the rest of the buffer is kept |
| `OutputStreams.OStream.constructor` | vk/Pods/nanopb/pb_encode 2.c:86-101 | An empty stream over a buffer |
| `OutputStreams.OStream.PbWrite` | vk/Pods/nanopb/pb_encode 2.c:103-123 | Writes the bytes if and only if they fit; a sizing stream only counts them |
| `OutputStreams.OStream.PbEncodeVarint` | vk/Pods/nanopb/pb_encode 2.c:608-628 | Writes the varint of a 64-bit number |
| `OutputStreams.OStream.PbEncodeNegativeVarint` | vk/Pods/nanopb/pb_encode 2.c:583-606 | In 32-bit arithmetic, writes byte for byte the ten-byte varint of the 64-bit sign extension |
| `OutputStreams.FillNegativeVarint` | vk/Pods/nanopb/pb_encode 2.c:583-606 | The loop fills exactly its ten-byte buffer and never overruns it |
| `OutputStreams.NextWord` | vk/Pods/nanopb/pb_encode 2.c:583-606 | One shift with its refill keeps the word the low half of the shifted 64-bit number |
| `OutputStreams.FillVarint` | vk/Pods/nanopb/pb_encode 2.c:608-628 | The loop of pb_encode_varint produces the varint within ten bytes |
| `OutputStreams.OStream.PbEncodeSvarint` | vk/Pods/nanopb/pb_encode 2.c:630-639 | Writes the varint of the zigzag value |
| `OutputStreams.OStream.PbEncodeFixed32` | vk/Pods/nanopb/pb_encode 2.c:641-650 | Writes four bytes, least significant first |
| `OutputStreams.OStream.PbEncodeFixed64` | vk/Pods/nanopb/pb_encode 2.c:653-667 | Writes eight bytes, least significant first |
| `OutputStreams.OStream.PbEncodeTag` | vk/Pods/nanopb/pb_encode 2.c:669-673 | Writes the field header |
| `OutputStreams.OStream.PbEncodeString` | vk/Pods/nanopb/pb_encode 2.c:709-715 | Writes the length and the bytes |
| `FieldIterator.LayoutOf` | vk/Pods/nanopb/pb 2.h:399-409 | Every descriptor array describes a layout: offsets are relative to the end of the member before, and shared in unions |
| `FieldIterator.MembersApart` | vk/Pods/nanopb/pb 2.h:399-409 | Members do not overlap: all items of a static array, or the one item or pointer of another member, end exactly one offset before the next member; members of a union share one place |
| `FieldIterator.FieldIter.Begin` | vk/Pods/nanopb/pb_common 2.c:8-18 | Stands on the first descriptor, with the pointers of its member |
| `FieldIterator.FieldIter.Next` | vk/Pods/nanopb/pb_common 2.c:20-76 | One step around the circle; pData and pSize are those of the member in the structure layout (arrays, pointers and unions included) and the required fields before it are counted |
| `FieldIterator.FieldIter.Lap` | vk/Pods/nanopb/pb_common 2.c:20-76 | One call of pb_field_iter_next for every descriptor, from any position: each descriptor is visited once, each time with its own data pointer, size pointer and required index, and the iterator ends where it began |
| `FieldIterator.FieldIter.Find` | vk/Pods/nanopb/pb_common 2.c:78-95 | From any position and for any descriptors: found exactly if a non-extension descriptor has the tag, and then the iterator stands on the first one of the lap that begins where it stood; otherwise it is back there |
| `FieldIterator.WholeLap` | vk/Pods/nanopb/pb_common 2.c:78-95 | A lap without a match means that no descriptor has the tag |
| `Encoder.StrnLen` | vk/Pods/nanopb/pb_encode 2.c:875-899 | The string up to its terminator or the end of its array |
| `Encoder.EncodeNumber` | vk/Pods/nanopb/pb_encode 2.c:769-850 | Numbers are written as their wire type says, and refused exactly if they have no encoding, an invalid data_size included, or do not fit |
| `Encoder.EncodeValue` | vk/Pods/nanopb/pb_encode 2.c:55-68 | One item of any type |
| `Encoder.PbGetEncodedSize` | vk/Pods/nanopb/pb_encode 2.c:567-576 | The sizing pass succeeds exactly on what can be encoded, and counts exactly the bytes that encoding writes |
| `Encoder.WriteSubmessage` | vk/Pods/nanopb/pb_encode 2.c:739-765 | The second pass writes exactly what the first one counted: the check for a changed size never fails, at any depth |
| `Encoder.PbEncodeSubmessage` | vk/Pods/nanopb/pb_encode 2.c:717-765 | Writes the delimited submessage if and only if it fits |
| `Encoder.PbEncodeTagForField` | vk/Pods/nanopb/pb_encode 2.c:675-707 | The header with the wire type of the field's type |
| `Encoder.EncodeItems` | vk/Pods/nanopb/pb_encode 2.c:197-205 | The items of a packed array one after another |
| `Encoder.PackedSize` | vk/Pods/nanopb/pb_encode 2.c:169-190 | The length of a packed array, computed or counted, is the length of its items |
| `Encoder.EncodePacked` | vk/Pods/nanopb/pb_encode 2.c:161-206 | A packed array: header, length and items |
| `Encoder.EncodeUnpacked` | vk/Pods/nanopb/pb_encode 2.c:208-233 | An array with a header before every item |
| `Encoder.EncodeArray` | vk/Pods/nanopb/pb_encode 2.c:147-236 | Nothing if empty, refused beyond its size, packed wherever the type allows it |
| `Encoder.PbCheckProto3DefaultValue` | vk/Pods/nanopb/pb_encode 2.c:240-337 | Whether an implicit field is absent, with submessages compared field by field; which values those are is `WrittenRecords.ZeroVanishes` |
| `Encoder.EncodeField` | vk/Pods/nanopb/pb_encode 2.c:341-426 | One field of any kind writes exactly its bytes, or fails exactly if it cannot be encoded or does not fit |
| `Encoder.PbEncode` | vk/Pods/nanopb/pb_encode 2.c:528-550 | Writes exactly the encoding of the structure if it has one and it fits; with a sizing stream it counts it. What that encoding holds is `WrittenRecords.EncodedRecords`, and which structures have one is `Items.EncodesExactly` |
| `Encoder.NormalFormTyped` | vk/Pods/nanopb/pb_encode 2.c:528-550 | Structures in normal form are among those the encoder may be given |
| `RoundTrip.NormalFormEncodes` | vk/Pods/nanopb/pb_encode 2.c:528-550 | No structure in normal form is refused |
| `Decoder.PbDecVarint` | vk/Pods/nanopb/pb_decode 2.c:1329-1364 | Signed varints, with the range check of the cast |
| `Decoder.PbDecUvarint` | vk/Pods/nanopb/pb_decode 2.c:1366-1388 | Unsigned varints, with the range check of the cast |
| `Decoder.PbDecSvarint` | vk/Pods/nanopb/pb_decode 2.c:1390-1412 | Zigzag varints, with the range check of the cast |
| `Decoder.PbDecFixed` | vk/Pods/nanopb/pb_decode 2.c:1283-1315 | Fixed-width words |
| `Decoder.PbDecBytes` | vk/Pods/nanopb/pb_decode 2.c:1431-1466 | Bytes that fit their static storage |
| `Decoder.PbDecString` | vk/Pods/nanopb/pb_decode 2.c:1468-1501 | Strings that fit their static storage with the terminator, in spite of the 32-bit wrap-around |
| `Decoder.PbDecFixedLengthBytes` | vk/Pods/nanopb/pb_decode 2.c:1527-1548 | Exactly the fixed length, or nothing at all for zeros |
| `Decoder.DecodeValue` | vk/Pods/nanopb/pb_decode 2.c:68-81 | One item of any type uses exactly the bytes and gives the value that the reader says |
| `Decoder.PbDecSubmessage` | vk/Pods/nanopb/pb_decode 2.c:1503-1525 | The submessage is decoded from exactly its payload, merged into what was there, or for array items and members of a union from the defaults |
| `Decoder.DecodePacked` | vk/Pods/nanopb/pb_decode 2.c:428-453 | A packed payload is used up by as many items as the array takes, or refused |
| `WireReader.PackedItems` | vk/Pods/nanopb/pb_decode 2.c:428-453 | A packed array receives as many items as its payload holds numbers |
| `Decoder.DecodeArray` | vk/Pods/nanopb/pb_decode 2.c:425-464 | Packed and unpacked arrays, bounded by the array size |
| `Decoder.DecodeStaticField` | vk/Pods/nanopb/pb_decode 2.c:406-480 | One static field of any kind |
| `Decoder.PbFieldSetToDefault` | vk/Pods/nanopb/pb_decode 2.c:836-906 | The default of one field |
| `Decoder.PbMessageSetToDefaults` | vk/Pods/nanopb/pb_decode 2.c:908-919 | The default structure, nested submessages included |
| `Decoder.DecodeKnown` | vk/Pods/nanopb/pb_decode 2.c:989-1020 | Fixed-count and required-field bookkeeping around one field |
| `Decoder.DecodeNext` | vk/Pods/nanopb/pb_decode 2.c:957-1020 | One turn of the field loop: a known field, or a skipped one |
| `Decoder.FieldLoop` | vk/Pods/nanopb/pb_decode 2.c:943-1021 | The loop ends, or fails, in the state in which the reader does, with the same bytes left |
| `Decoder.PbDecodeNoinit` | vk/Pods/nanopb/pb_decode 2.c:925-1073 | The whole loop with its final checks returns exactly the structure, the bytes left and the failure that the reader defines; it terminates on every input, with bytes_left as measure |
| `Decoder.PbDecode` | vk/Pods/nanopb/pb_decode 2.c:1075-1087 | The same from the default structure; what that is for every input is `Occurrences.DecodeIsMeaning` |
| `RequiredFields.MarkSeen` | vk/Pods/nanopb/pb_decode 2.c:1012-1017 | Setting a bit of the bitmap adds one field to the set |
| `RequiredFields.WholeWord` | vk/Pods/nanopb/pb_decode 2.c:1053-1058 | A word is all ones exactly if its 32 fields were seen |
| `RequiredFields.RemainingBits` | vk/Pods/nanopb/pb_decode 2.c:1060-1068 | The partial word is as expected exactly if its fields were seen |
| `RequiredFields.CheckWords` | vk/Pods/nanopb/pb_decode 2.c:1051-1070 | The word-by-word test holds exactly if the first fields were all seen |
| `RequiredFields.CheckRequired` | vk/Pods/nanopb/pb_decode 2.c:1030-1070 | From any position of the iterator, the test holds exactly if every tracked required field was seen |
| `RoundTrip.MessageRoundTrip` | vk/Pods/nanopb/pb_decode 2.c:1075-1087 | For every schema and every structure in normal form, what pb_encode writes is read back as that structure, with nothing left over |
| `RoundTrip.FieldRoundTrip` | vk/Pods/nanopb/pb_decode 2.c:406-480 | The same for one field, in the middle of a message |
| `RoundTrip.ArrayRoundTrip` | vk/Pods/nanopb/pb_encode 2.c:147-236 | Packed, unpacked and fixed-count arrays are read back |
| `RoundTrip.ValRoundTrip` | vk/Pods/nanopb/pb_encode 2.c:55-68 | Items of every type are read back, submessages included |
| `RoundTrip.ZeroIsDefault` | vk/Pods/nanopb/pb_encode 2.c:240-337 | In normal form a value that the proto3 check leaves out is the default that the decoder sets |
| `Items.EncodesExactly` | vk/Pods/nanopb/pb_encode 2.c:341-426 | pb_encode refuses exactly the structures with an array beyond its size, a number out of range, or bytes beyond their storage, among what is to be written, at any depth |
| `Items.NumberExactly` | vk/Pods/nanopb/pb_decode 2.c:1329-1412 | A number field takes exactly the bytes that stand for a number of its C type: varints of at most ten bytes by their value modulo 2^64, or 2^32 for signed types of up to four bytes, zigzag, and little-endian words, with every range written out |
| `Items.NumberEncoded` | vk/Pods/nanopb/pb_encode 2.c:769-850 | A number is written exactly if it is in the range of its C type, then as its shortest varint, ten bytes if it is negative, or as a little-endian word |
| `Items.BlockExactly` | vk/Pods/nanopb/pb_decode 2.c:1431-1548 | Strings, bytes and fixed-length bytes take exactly the payloads that fit; an empty fixed-length item is zeros |
| `Items.BlockEncoded` | vk/Pods/nanopb/pb_encode 2.c:852-912 | Bytes are written as they are if they fit, and a string up to its terminator or the end of its storage |
| `Items.TagExactly` | vk/Pods/nanopb/pb_decode 2.c:298-319 | A header is a varint of field number and wire type; a zero ends the message |
| `Items.TagShortest` | vk/Pods/nanopb/pb_encode 2.c:669-673 | It is written as the shortest such varint |
| `Items.DelimitedExactly` | vk/Pods/nanopb/pb_decode 2.c:372-385 | A payload is as many bytes as the length before it says |
| `Items.SkipExactly` | vk/Pods/nanopb/pb_decode 2.c:321-331 | Unknown fields of wire type 0, 1, 2 and 5 are passed over if they are complete, and no others |
| `WrittenRecords.EncodedRecords` | vk/Pods/nanopb/pb_encode 2.c:341-550 | The bytes of a structure in normal form are exactly these records, in the order of the descriptors: required fields, optional ones that are there, the member of each union, fields without presence that do not vanish, arrays with items; an array of numbers in one packed record, any other with a record for each item; nothing else |
| `WrittenRecords.ZeroVanishes` | vk/Pods/nanopb/pb_encode 2.c:313-335 | A field without presence is left out exactly if it is the number zero, holds no bytes, or is a structure for which nothing would be written and which has no array without a count |
| `WrittenRecords.WrittenMeansItself` | vk/Pods/nanopb/pb_decode 2.c:1075-1087 | These records are acceptable, and what they mean is the structure |
| `WrittenRecords.FieldSkipped` | vk/Pods/nanopb/pb_decode 2.c:957-986 | Whatever is written for a field, a reader that does not have it skips all of it |
| `Merging.LoopConcat` | vk/Pods/nanopb/pb_decode 2.c:943-1021 | Reading two inputs in a row is reading the second from the state that the first left |
| `Concatenation.ConcatenationMerges` | vk/Pods/nanopb/pb_decode 2.h:74-75 | For every message type: a message followed by another is decoded like the second one merged into what the first one left, exactly unless the last fixed-count array of the first one is also the first one of the second and has items; then a second message that is complete is rejected |
| `Concatenation.LoopForgets` | vk/Pods/nanopb/pb_decode 2.c:989-1010 | The position of a complete fixed-count array is forgotten when another one begins, and means nothing if none does |
| `Concatenation.LoopOverflows` | vk/Pods/nanopb/pb_decode 2.c:989-1010 | A complete fixed-count array that is received again overflows |
| `Concatenation.LastFixed` | vk/Pods/nanopb/pb_decode 2.c:989-1010 | The array position at the end belongs to the last fixed-count field that was read |
| `Concatenation.NoFixedCountMerges` | vk/Pods/nanopb/pb_decode 2.h:74-75 | Message types without fixed-count fields always merge |
| `Compatibility.FixedCountDoesNotMerge` | vk/Pods/nanopb/pb_decode 2.h:74-75 | Such a clash: the message 08 01 is accepted by itself and rejected twice in a row |
| `Compatibility.UnknownFieldIsIgnored` | vk/Pods/nanopb/pb_decode 2.c:957-986 | An unknown field at any field boundary of a message changes neither result nor success, even inside an unpacked fixed-count array |
| `Compatibility.UnknownFieldAtAnyDepth` | vk/Pods/nanopb/pb_decode 2.c:957-986 | The same for any field boundary of a submessage, at any depth |
| `Compatibility.SamePayload` | vk/Pods/nanopb/pb_decode 2.c:1503-1525 | Payloads of a submessage that are read alike make no difference to the message around it |
| `Compatibility.UnknownFields` | vk/Pods/nanopb/pb_decode 2.c:321-331 | Every value of wire type 0, 1, 2 or 5 with a tag that the schema lacks is such a field |
| `Compatibility.NewerWriter` | vk/Pods/nanopb/pb_decode 2.c:957-986 | An encoded structure with an unknown field between any two of its fields is read as that structure |
| `Presence.AcceptedExactly` | vk/Pods/nanopb/pb_decode 2.c:1012-1070 | A message is accepted exactly if its fields can be read, its last fixed-count array is complete, and the tag of every tracked required field occurred |
| `Presence.SeenAreRead` | vk/Pods/nanopb/pb_decode 2.c:1012-1017 | A required field's bit is set exactly if its tag was read |
| `Occurrences.DecodeIsMeaning` | vk/Pods/nanopb/pb_decode 2.c:925-1087 | For every message type without pointers and every input: pb_decode accepts exactly if the bytes are records, the required fields occur, fixed-count arrays come whole, arrays are within their sizes, and the same holds inside submessages; and then the structure is what the records mean |
| `Occurrences.DecodeMeans` | vk/Pods/nanopb/pb_decode 2.c:925-1073 | The same for pb_decode_noinit into a structure that holds what earlier records mean: the result is what all of them mean together |
| `Occurrences.SubmessageMeans` | vk/Pods/nanopb/pb_decode 2.c:1503-1525 | A submessage that comes again is merged into what its earlier occurrences mean |
| `Occurrences.AbsentIsDefault` | vk/Pods/nanopb/pb_decode 2.c:836-919 | A field that does not occur keeps its default |
| `Occurrences.DefaultsHold` | vk/Pods/nanopb/pb_decode 2.c:836-906 | That is the default of the descriptor, or zero, or no bytes, or an empty array, or no member, or the defaults of the submessage |
| `Submessages.PieceRead` | vk/Pods/nanopb/pb_decode 2.c:1516-1521 | A submessage that is neither in an array nor in a union is read by pb_decode_noinit into the structure that the slot holds, and nothing else changes |
| `Submessages.PiecesMerge` | vk/Pods/nanopb/pb_decode 2.c:1503-1525 | Two occurrences of it are read like one with the bytes of both, except where concatenation does not merge |
| `RequiredFields.ReqIndexCounts` | vk/Pods/nanopb/pb_common 2.c:20-76 | The index of a required field is the number of required fields before it |
| `Transfer.Send` | vk/Pods/nanopb/pb_decode 2.c:1075-1087 | Encoding into a buffer and decoding from it: the same structure arrives, exactly if the buffer is large enough |
| `Transfer.Receive` | vk/Pods/nanopb/pb_decode 2.c:1075-1087 | With pointers, an allocator that grants everything and harmless memory, pb_decode succeeds exactly if the records are acceptable with pointers taken for storage of the largest size; nothing goes astray, and the counts are those of the records |
| `Allocator.Heap.Realloc` | vk/Pods/nanopb/pb 2.h:375-380 | Any allocator: it fails exactly if it refuses the request, and what it returns is in nobody's use; on failure nothing changes |
| `Allocator.Heap.Free` | vk/Pods/nanopb/pb 2.h:381-384 | Only a live block can be released, and then it is not live any more |
| `Allocator.ReleasedOnce` | vk/Pods/nanopb/pb_decode 2.c:1154-1243 | In every history a block has been released as often as acquired, or once less while it is live |
| `Allocator.DeniedNone` | vk/Pods/nanopb/pb 2.h:375-380 | Nothing was refused between two moments exactly if the allocator grants all requests between them |
| `Allocator.SizeAcceptedExactly` | vk/Pods/nanopb/pb_decode 2.c:505-519 | The overflow test passes exactly if the product of the sizes is a size_t |
| `Allocator.AllocateField` | vk/Pods/nanopb/pb_decode 2.c:487-530 | The block has room for all items, or the old one stays in place; it fails exactly if the size is zero or no size_t, or the request is refused |
| `HeapDecoder.InitializeItem` | vk/Pods/nanopb/pb_decode 2.c:533-547 | A new item is a default structure without blocks |
| `HeapDecoder.PbDecBytesBlock` | vk/Pods/nanopb/pb_decode 2.c:1431-1466 | Bytes get a block that replaces the old one; it is no larger than what was read, and writes stay inside |
| `HeapDecoder.PbDecStringBlock` | vk/Pods/nanopb/pb_decode 2.c:1468-1501 | The same for strings, whose terminator is written even if reading fails |
| `HeapDecoder.PbDecSubmessage` | vk/Pods/nanopb/pb_decode 2.c:1503-1525 | What the structure owns is accounted for; an array item that fails owns nothing, or is left as it is if its length cannot be read; without refused allocations the outcome is the one that the bytes decide |
| `HeapDecoder.DecodeStaticItem` | vk/Pods/nanopb/pb_decode 2.c:454-463 | An array item is counted before it is decoded; if its length cannot be read, pb_release goes astray exactly if the memory of the item holds a pointer that it walks and that is not null, or an array of strings with a count beside a null pointer |
| `HeapDecoder.DecodeStaticField` | vk/Pods/nanopb/pb_decode 2.c:406-480 | A static field keeps account of the blocks in its submessages |
| `HeapDecoder.DecodePointerItem` | vk/Pods/nanopb/pb_decode 2.c:565-593 | A repeated submessage releases the first; every block is replaced, kept or owned; the bytes decide the outcome unless an allocation is refused |
| `HeapDecoder.GrowPacked` | vk/Pods/nanopb/pb_decode 2.c:598-649 | The count stays within the allocated size and PB_SIZE_MAX, every item is written inside the block last allocated, and in the end there is one item for each number of the payload |
| `HeapDecoder.DecodePackedPointer` | vk/Pods/nanopb/pb_decode 2.c:598-652 | A packed array grows by as many items as its payload holds numbers; its block is owned whether or not that succeeds |
| `HeapDecoder.DecodePackedStatic` | vk/Pods/nanopb/pb_decode 2.c:428-453 | A static packed array is counted up by as many items as its payload holds numbers |
| `HeapDecoder.DecodeAt` | vk/Pods/nanopb/pb_decode 2.c:731-757 | Only the storage of the field is changed, and if the call succeeds it has received an item |
| `HeapReader.Grown` | vk/Pods/nanopb/pb_decode 2.c:618-628 | The array grows, by a guess of what is to come, and not beyond PB_SIZE_MAX |
| `HeapReader.ItemsInIsQuotient` | vk/Pods/nanopb/pb_decode 2.c:618-622 | The guess is the number of items in the remaining bytes, rounded upwards |
| `HeapReader.GrownExactly` | vk/Pods/nanopb/pb_decode 2.c:618-628 | It grows by that number if it stays below PB_SIZE_MAX, and by one if not |
| `HeapDecoder.DecodePointerEntry` | vk/Pods/nanopb/pb_decode 2.c:653-669 | An array grows by one item, which is counted and owned, or stays as it is |
| `HeapDecoder.PbMessageSetToDefaults` | vk/Pods/nanopb/pb_decode 2.c:836-919 | From any memory: pointers that the structure owns are null, but the items of static arrays stay as they were |
| `HeapDecoder.PbDecodeNoinit` | vk/Pods/nanopb/pb_decode 2.c:925-1073 | The live blocks are those of others and those the structure points to; it accepts, refuses or goes astray exactly as the bytes and the memory decide, unless an allocation is refused: then it fails, and is not astray |
| `HeapDecoder.PbDecode` | vk/Pods/nanopb/pb_decode 2.c:1075-1087 | The same into any memory; if it fails, everything it allocated is free again and every reachable pointer is null; if not, every tracked required pointer field is set; nothing of that holds for an input that goes astray on the memory |
| `HeapDecoder.ReleaseSingleField` | vk/Pods/nanopb/pb_decode 2.c:1154-1243 | The field's blocks are free and its pointers null; counts of pointer arrays are zero; it may be given any field but an array of strings with a count beside a null pointer |
| `HeapDecoder.ReleaseStrings` | vk/Pods/nanopb/pb_decode 2.c:1220-1232 | Every string of the array is free; the loop does not look at the array's pointer, so this must not be null unless the array is empty |
| `HeapDecoder.PbRelease` | vk/Pods/nanopb/pb_decode 2.c:1245-1261 | Every block of the structure is free, every pointer null, and every array without a block empty |
| `HeapDecoder.DecodeAndRelease` | vk/Pods/nanopb/pb_decode 2.h:101-105 | Decoding and releasing, with any allocator: if it grants every request, the bytes and the memory decide between success, failure and going astray, and otherwise it fails; each block is released as often as it was acquired and no pointer is left, unless the input goes astray; where the items of static arrays are harmless none does |
| `Ownership.NullOwnsNothing` | vk/Pods/nanopb/pb_decode 2.c:1154-1243 | Owning no block and having no reachable pointer are the same |
| `HeapReader.MessageClear` | vk/Pods/nanopb/pb_decode 2.h:55-56 | If the items of static arrays that an input can get to are harmless, nested ones included, no input goes astray |
| `Ownership.HarmlessWalk` | vk/Pods/nanopb/pb_decode 2.c:1154-1243 | Memory is harmless exactly if pb_release can walk it and finds nothing to release |
| `HeapReader.AcceptedFillable` | vk/Pods/nanopb/pb_decode 2.c:1030-1070 | A structure that is accepted has required fields of which each can be received |
| `StaleStorage.StructFills` | vk/Pods/nanopb/pb_decode 2.c:1030-1070 | A structure of which each required field can be received is accepted with nothing but zeros, whatever its memory held |
| `StaleStorage.OutOfReach` | vk/Pods/nanopb/pb_decode 2.c:454-463 | Of an array whose items cannot be received no input gets beyond the first item |
| `HeapReader.CountsNumbers` | vk/Pods/nanopb/pb_decode 2.c:428-453 | A packed array receives as many items as its payload holds numbers, static or behind a pointer |
| `StaleStorage.CutOffItem` | vk/Pods/nanopb/pb_decode 2.c:454-463 | Wherever the decoder stands in a message: if it is cut off in the length of the next item of a static array, it goes astray exactly if the memory of that item is not harmless |
| `StaleStorage.CutOffMessage` | vk/Pods/nanopb/pb_decode 2.h:55-56 | For pb_decode on any memory: a message cut off in its first header's length goes astray exactly if the first item of the array is not harmless |
| `StaleStorage.OneByte` | vk/Pods/nanopb/pb_decode 2.h:55-56 | The property fails for the message 0A on an array of one structure with one member, exactly if the memory of that member is not harmless |
| `StaleStorage.StalePointer` | vk/Pods/nanopb/pb_decode 2.c:1240-1241 | First failing input: a pointer to a string, exactly unless it is null |
| `StaleStorage.StaleCount` | vk/Pods/nanopb/pb_decode 2.c:1220-1232 | Second failing input: an array of strings whose pointer is null, exactly unless its count is zero |
| `StaleStorage.OtherCount` | vk/Pods/nanopb/pb_decode 2.c:1205-1213 | Null arrays of anything else are harmless, whatever their count is |
| `StaleStorage.DecodeOneByte` | vk/Pods/nanopb/pb_decode 2.c:1075-1087 | With any allocator, decoding that message asks for no memory and goes astray exactly then |
| `StaleStorage.SafeStorage` | vk/Pods/nanopb/pb_decode 2.h:55-56 | pb_decode is safe on a memory for all inputs exactly if those items of its static arrays that an input can get to are harmless: of every array the first, and all of them if its items can be received at all |
| `PointerRecords.PointersAccept` | vk/Pods/nanopb/pb_decode 2.c:1075-1087 | For every message type with pointers whose sizes can be allocated, every memory and every input, if no request is refused: accepted exactly if the records are acceptable where pointers make room for strings of up to 2^32 - 2 bytes, for bytes up to PB_SIZE_MAX that fit a `size_t` with their count, and for PB_SIZE_MAX items; the counts and the bytes left are those of the records |
| `PointerRecords.PlainHeld` | vk/Pods/nanopb/pb_decode 2.c:1431-1501 | One item behind a pointer is limited only so |
| `PointerRecords.SameInputs` | vk/Pods/nanopb/pb_decode 2.c:1075-1087 | With PB_ENABLE_MALLOC and from any storage, message types with static fields accept the same inputs, with the same counts at every depth and the same bytes left, as without it |
| `AuthenticationInterceptor.Interceptor.constructor` | vk/Pods/Alamofire/Source/AuthenticationInterceptor.swift:241-247 | No refresh, nobody waiting |
| `AuthenticationInterceptor.Interceptor.Adapt` | vk/Pods/Alamofire/Source/AuthenticationInterceptor.swift:251-275 | A caller without an answer has joined the end of the line of those to be adapted, whoever waited before keeps the place, and an answer changes nothing; there is none exactly during a refresh or if one is needed. In the second case a refresh starts exactly if fewer than the window allows are recorded within its length; if not, the queue will tell everybody in line |
| `AuthenticationInterceptor.Interceptor.RetryEnqueue` | vk/Pods/Alamofire/Source/AuthenticationInterceptor.swift:320-326 | The caller has joined the end of the line of those to be retried, and whoever waited before keeps the place; without a refresh under way one starts exactly if fewer than the window allows are recorded within its length, and if not, the queue will tell everybody in line |
| `AuthenticationInterceptor.Interceptor.Refresh` | vk/Pods/Alamofire/Source/AuthenticationInterceptor.swift:331-352 | Exactly if the number of refreshes recorded within the window is below the maximum, one recorded refresh is outstanding afterwards; if not, the queue will tell everybody who waited that refreshing was excessive. Nobody loses the place in line |
| `AuthenticationInterceptor.Interceptor.IsRefreshExcessive` | vk/Pods/Alamofire/Source/AuthenticationInterceptor.swift:354-367 | True exactly if the set of recorded refreshes that are not older than the window has as many elements as the maximum, or more; without a window never |
| `AuthenticationInterceptor.ExcessiveExactly` | vk/Pods/Alamofire/Source/AuthenticationInterceptor.swift:354-367 | Counting the recorded refreshes one by one gives the size of that set |
| `AuthenticationInterceptor.Interceptor.HandleRefreshSuccess` | vk/Pods/Alamofire/Source/AuthenticationInterceptor.swift:369-385 | Nobody waits for a refresh any more, everybody who did keeps the place in line, and the queue will adapt or retry each of them |
| `AuthenticationInterceptor.Interceptor.HandleRefreshFailure` | vk/Pods/Alamofire/Source/AuthenticationInterceptor.swift:387-401 | The same, and the queue will give each of them the error |
| `AuthenticationInterceptor.Interceptor.RefreshCompletes` | vk/Pods/Alamofire/Source/AuthenticationInterceptor.swift:341-351 | The refresh is over and nobody waits; the queue will tell everybody in line the authenticator's result |
| `AuthenticationInterceptor.Interceptor.RunItem` | vk/Pods/Alamofire/Source/AuthenticationInterceptor.swift:369-401 | The queue's next item calls the completion of one caller, who then waits no more, or defers that caller once more behind a refresh, or puts the caller's own answer, with the current credential, in front of the queue; nobody else is affected |
| `AuthenticationSystem.System.Take` | vk/Pods/Alamofire/Source/AuthenticationInterceptor.swift:251-401 | Every method of the interceptor is one step of the runs |
| `AuthenticationSystem.Play` | vk/Pods/Alamofire/Source/AuthenticationInterceptor.swift:251-401 | Through any run of the interceptor's own methods: one refresh at most, every completion in one place for each time it was issued, deferred operations in order, and no window with too many refreshes |
| `AuthenticationRuns.RunSingleFlight` | vk/Pods/Alamofire/Source/AuthenticationInterceptor.swift:205-214 | In every reachable state a refresh is outstanding exactly while isRefreshing, never more than one, and nobody waits without it |
| `AuthenticationRuns.NextConserves` | vk/Pods/Alamofire/Source/AuthenticationInterceptor.swift:251-327 | Every step keeps each completion in as many places as it was issued |
| `AuthenticationRuns.CompletedAtMostOnce` | vk/Pods/Alamofire/Source/AuthenticationInterceptor.swift:251-401 | In every run each completion is in exactly one place for each time it was issued, and is never called more often |
| `AuthenticationRuns.CompletedExactlyOnce` | vk/Pods/Alamofire/Source/AuthenticationInterceptor.swift:251-401 | When all refreshes have called back and the queue is empty, every completion has been called exactly as often as it was issued |
| `AuthenticationRuns.InternalStepsEnd` | vk/Pods/Alamofire/Source/AuthenticationInterceptor.swift:331-401 | Every step that starts no new call, credential or tick and asks for no other refresh brings a well-founded measure down: refreshes, queue items and calls come to an end unless the queue's own calls of adapt require further refreshes, which can go on for ever |
| `AuthenticationRuns.EverybodyIsServed` | vk/Pods/Alamofire/Source/AuthenticationInterceptor.swift:369-401 | From every reachable state the steps that are left can be taken until every completion issued so far has been called exactly as often as it was issued |
| `AuthenticationRuns.ReplayedInOrder` | vk/Pods/Alamofire/Source/AuthenticationInterceptor.swift:380-400 | Deferred operations are replayed in the order in which they were deferred, across refreshes and re-deferrals |
| `AuthenticationRuns.RefreshRate` | vk/Pods/Alamofire/Source/AuthenticationInterceptor.swift:331-367 | In every run no closed interval as long as the window holds more refresh starts than the window allows |
| `AuthenticationRuns.RefreshStarts` | vk/Pods/Alamofire/Source/AuthenticationInterceptor.swift:331-367 | In every reachable state a step starts a refresh exactly if it asks for one, none is outstanding, and fewer than the window allows were started within its length |
| `Multipart.EncodeBodyStream` | vk/Pods/Alamofire/Source/MultipartFormData.swift:400-423 | The whole stream, whatever the sizes of the reads, exactly unless a read fails |
| `Multipart.FormData.Append` | vk/Pods/Alamofire/Source/MultipartFormData.swift:305-308 | The part is the last one |
| `Multipart.FormData.EncodePart` | vk/Pods/Alamofire/Source/MultipartFormData.swift:373-390 | Delimiter, headers, body, and the closing delimiter behind the last part, exactly unless a read of the body fails |
| `Multipart.FormData.Encode` | vk/Pods/Alamofire/Source/MultipartFormData.swift:320-336 | The encoding of all parts, in order; it succeeds exactly if no part was added in error and no read fails |
| `Multipart.WriteBuffer` | vk/Pods/Alamofire/Source/MultipartFormData.swift:485-501 | Partial writes add up to the buffer; the call fails exactly if a write does, and bytes are given up exactly if the stream is once asked for space and has none |
| `Multipart.WriteBodyStream` | vk/Pods/Alamofire/Source/MultipartFormData.swift:444-468 | Chunk by chunk, the stream's content; the call fails exactly if a read or a write does |
| `Multipart.FormData.WritePart` | vk/Pods/Alamofire/Source/MultipartFormData.swift:427-432 | The same bytes as encoding the part in memory; the call fails exactly if a read or a write does |
| `Multipart.FormData.WriteEncodedData` | vk/Pods/Alamofire/Source/MultipartFormData.swift:345-369 | Succeeds exactly if no part was added in error and no read or write fails; then for all chunkings and partial writes the bytes are those of encode exactly if every poll for space was granted; a failing call leaves a beginning of them |
| `Multipart.Truncated` | vk/Pods/Alamofire/Source/MultipartFormData.swift:485-501 | A run that succeeds with bytes missing: the stream has no space when it is first asked |
| `MultipartParsing.ParseRecoversParts` | vk/Pods/Alamofire/Source/MultipartFormData.swift:64-77 | Splitting at the delimiters of section 5.1.1 of RFC 2046 gives the parts back |
| `MultipartParsing.ParseRecoversExactly` | vk/Pods/Alamofire/Source/MultipartFormData.swift:373-390 | That is so if and only if no part holds a delimiter |
| `MultipartParsing.ContentParsesExactly` | vk/Pods/Alamofire/Source/MultipartFormData.swift:392-398 | Splitting the content of a part at its line breaks, and each line at the first colon and space, gives its headers and its body back if and only if no header holds a line break and no name a colon and a space |
| `MultipartParsing.FormComesBack` | vk/Pods/Alamofire/Source/MultipartFormData.swift:373-398 | A whole encoded form gives back its parts, with every name, value and body, if and only if they are well-formed in that sense and hold no delimiter |
| `MultipartParsing.EncodingIsUnique` | vk/Pods/Alamofire/Source/MultipartFormData.swift:373-390 | Two forms encoded alike, whose parts are well-formed, have the same parts, header for header |
| `MultipartParsing.NoParts` | vk/Pods/Alamofire/Source/MultipartFormData.swift:325-335 | Without parts nothing is written, not even a closing delimiter |
| `HTTPHeaders.IndexOf` | vk/Pods/Alamofire/Source/HTTPHeaders.swift:327-330 | The first header of that name, regardless of case; none exactly if there is none |
| `HTTPHeaders.Headers.constructor` | vk/Pods/Alamofire/Source/HTTPHeaders.swift:32-32 | The empty map |
| `HTTPHeaders.Headers.Update` | vk/Pods/Alamofire/Source/HTTPHeaders.swift:78-85 | Sets a key of the ordered map; a name already there keeps its place; no name occurs twice |
| `HTTPHeaders.Headers.Remove` | vk/Pods/Alamofire/Source/HTTPHeaders.swift:90-94 | Removes a key of the ordered map, and nothing else |
| `HTTPHeaders.Headers.Sort` | vk/Pods/Alamofire/Source/HTTPHeaders.swift:97-99 | The same entries, in the only order in which their names ascend |
| `HTTPHeaders.Headers.Value` | vk/Pods/Alamofire/Source/HTTPHeaders.swift:116-120 | The value of the key, if it is set |
| `HTTPHeaders.Headers.SetValue` | vk/Pods/Alamofire/Source/HTTPHeaders.swift:125-134 | Sets or removes |
| `HTTPHeaders.Headers.UpdateAll` | vk/Pods/Alamofire/Source/HTTPHeaders.swift:36-40 | The initializers set the headers one after another: each name gets the last value, in the place where it came first |
| `HTTPHeaders.Headers.Perform` | vk/Pods/Alamofire/Source/HTTPHeaders.swift:36-99 | After any sequence of the class's own updates, removals and sorts: no name occurs twice, every name has the value it was last set to since its last removal, and without sorts the order is that of first setting |
| `HTTPHeaders.ValueIsLastSet` | vk/Pods/Alamofire/Source/HTTPHeaders.swift:36-120 | The same for looking up in the array: the first header of the name is, with name and value, the one that it was last set to |
| `HTTPHeaders.AliveIsThere` | vk/Pods/Alamofire/Source/HTTPHeaders.swift:78-94 | A name is in the array exactly if it was there or set, and not removed since |
| `HTTPHeaders.OrderIsKept` | vk/Pods/Alamofire/Source/HTTPHeaders.swift:78-94 | Over a whole sequence of updates and removals the headers stand in the order in which their names were set |
| `HTTPHeaders.SortIsUnique` | vk/Pods/Alamofire/Source/HTTPHeaders.swift:97-99 | Headers with different names can be sorted in one way only |

## Left out

* User callbacks, callback fields, custom stream callbacks, extension chains and `PB_OLD_CALLBACK_STYLE`: their behaviour is supplied by the program that uses the library.
* `PB_BUFFER_ONLY`, `PB_WITHOUT_64BIT` builds other than the negative-varint encoder, `PB_ENCODE_ARRAYS_UNPACKED`, the AVR workaround, a 16-bit `size_t`, and big-endian byte order.
* Error message strings; only success or failure is modelled.
* The delimited and null-terminated variants of `pb_encode` and `pb_decode`: thin wrappers.
* Encoding of pointer fields, and the values behind pointers in the decoder: the codec theorems are about static fields, the ownership theorems about pointers and counts.
* Ownership for oneof, extension, callback and fixed-count fields.
* HeapDecoder.PbDecodeNoinit: asks for a structure that is in order, its pointers its own or null and its null arrays empty, as `pb_decode_noinit` does of its callers; only `pb_decode` takes any memory.
* PointerRecords.PointersAccept: asks that one item, and in arrays up to PB_SIZE_MAX items, have a size that is not zero and fits a `size_t`. Where they have not (too large they can be only if `size_t` and `pb_size_t` both have four bytes), `HeapReader.MessageReading` says what is accepted, and `Allocator.SizeAcceptedExactly` when a size is.
* HeapDecoder.PbDecode: promises nothing about the structure after an input that goes astray, because `pb_release` has no meaning then.
* Varint.Varint32Exact: ends at 36 bytes. After that the 8-bit bit position wraps around, and the decoder writes over the low bits; the reader does the same.
* StaleStorage.SafeStorage: where it takes 4 GB or more of input to get to an item, only the one direction is stated; a payload cannot be that long.
* Raw memory layout beyond the iterator's offsets. Structures are passed as values and returned changed instead of being written through pointers, so aliasing between structures is not modelled.
* Offsets in descriptors are unbounded numbers; `uint_fast8_t` is taken to have 8 bits; byte counters of streams do not wrap, while the length prefix of a delimited record does, at 2^64.
* OutputStreams.OStream.PbWrite: does not model the overflow check on `bytes_written`, which guards against a wrap-around of a counter that is unbounded here.
* The items of a fixed-count array before they are received: the C code leaves them as they are (and writes a zero count over the first of their bytes), the model has zeros.
* HeapDecoder.DecodeStaticItem: does not wrap the count of a static array at `PB_SIZE_MAX`, because that many failing decodes without a release between them would be needed.
* The lock, the dispatch queue, sessions, requests and the authenticator of the interceptor: atomic steps, a list of items, and abstract callers. The authenticator is assumed to call back, once for each refresh and not from inside `refresh`. Times are real numbers.
* Repeated encodings of one `MultipartFormData`, whose flags stay set and whose streams are used up; file checks, MIME types, random boundaries, and errors of opening a file.
* Text is bytes or characters: no Unicode, no locale. Lower-casing and the order of strings are parameters of `HTTPHeaders`.
* The dictionary and sequence views of `HTTPHeaders`, and the predefined headers.

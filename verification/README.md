# Model of the nanopb codec

This project models nanopb 0.3.9.6, the Protocol Buffers encoder and decoder in
`FXSignal/Pods/nanopb`, and proves properties of it.

* `Words`, `Wire`, `WireProperties`: machine words, varints, zigzag integers, fixed words, tags and
  skipping. `Varints`, `WireFormat` and `FieldRanges` write the format and the ranges of fields out
  in numerals, for encoder and decoder.
* `Descriptors`: field tables (`pb_field_t`) and structs. A struct is a sequence of cells, one for
  each place in memory; members of one union share a cell. `WellFormed` says what the generator
  guarantees of a table, `Shape` that a struct has the types of its table. `PB_SIZE_MAX` and the
  width of `uint_fast8_t` are constants without a fixed value, so all results hold for each choice.
* `EncoderSpec`, `DecoderSpec`: what the two programs compute, as functions. The reader's
  functions take the bytes of a window and return what they left unread.
* `OutputStream`, `Encoder`, `InputStream`, `Decoder`, `FieldIterator`, `Bitmap`: the programs
  themselves, as classes and methods that work step by step as the C code does, each proved to
  compute its function. `OutputStream.Wrote` says what encoding does to a stream: a sizing stream
  counts, a writing stream appends the same bytes if they fit.
* `Logical`, `Defaults`, `GoodStructs`: when two structs mean the same message; what setting
  defaults achieves; which structs the encoder accepts. `Places`, `Declared` and `LeftOut` say in
  the terms of the descriptors which fields share a place, what defaults are, and what is not sent.
* `Verdict`, `History`, `Outcomes`: a run of the decoder taken apart: what does not depend on the
  struct, which records reached which cell, and what they made of it.
* `RoundTrip`, `Unterminated`, `Invariant`, `Received`, `Reencoding`, `Locality`,
  `Merging`, `Resuming`, `RequiredFields`, `UnknownFields`, `Compatibility`, `Packing`, `Forgetting`,
  `Framing`: the main results.

The configuration is 64-bit integers, static allocation, and streams over memory buffers or, for
sizing, no stream callback. Bit operations are written on natural numbers: `BitOr` is `|`, `Shl` is
`<<` before truncation.

What the proofs brought out about the code:

* pb_decode does not always forget what the struct held: a fixed-count array that the input does
  not mention keeps old elements, since only a counter is reset, and that is written over the first
  bytes of the array. `Forgetting.ForgetsExactly` says for which inputs this shows.
* Old elements of such an array may be ones that the encoder refuses, or strings without a
  terminator: then a struct that pb_decode has filled cannot be encoded
  (`Reencoding.ReencodesExactly`, `Reencoding.OldBytesNotSent`).
* Concatenation is not always merging: input that begins with the fixed-count array that the input
  before it ended with is refused as too long (`Resuming.MergesExactly`).
* A char array without a terminator is encoded, but not accepted back
  (`Unterminated.AcceptedIfTerminated`).
* An empty packed block is not the same as no elements, if the array is of fixed count
  (`Packing.EmptyBlockTurns`).
* Only the first 64 required fields are checked (`RequiredFields.First64Required`).
* The wire type of a known field that is not a packable array does not matter
  (`Merging.WireTypeIgnored`).
* A oneof submessage that comes twice is replaced, not merged, because the union is zeroed first
  (`Compatibility.OneofReplaced`).
* What the 32-bit varint decoder takes for sign extension is wider than the images of int32 values:
  groups of zeros are let through, and bits 32 to 34 are not looked at
  (`WireProperties.SignExtended`).
* Where uint_fast8_t has 8 bits, the shift counter of the 32-bit varint decoder wraps around on a
  varint padded with 37 bytes, and its last bits are read as low ones (`Varints.CounterWraps`).
* A submessage that would be encoded with no bytes is sent all the same if it has a fixed-count array
  or a union whose which_ is no member's tag (`LeftOut.EmptySubmessage`).
* In an empty table the iterator finds the terminating entry for tag 0 (`Merging.EmptyTableTag`).

## Model

| member | source | states |
|---|---|---|
| RoundTrip.RoundTripTheorem | FXSignal/Pods/nanopb/pb_encode.c:528-550 | For every descriptor tree and struct: when encoding succeeds (below 4 GiB), decoding those bytes into any struct succeeds, uses them all, and gives the same presence flags, values, counts, elements, oneof choice and nested messages. |
| RoundTrip.MessageRoundTrip | FXSignal/Pods/nanopb/pb_decode.c:925-1073 | The same for pb_decode_noinit into a struct just set to defaults, and also with a zero tag and any bytes behind the message, which are left unread. |
| RoundTrip.FieldsRoundTrip | FXSignal/Pods/nanopb/pb_encode.c:538-547 | From any field position on, the encoding of the remaining fields carries the decoder to a state in which all fields have arrived, whatever bytes follow. |
| RoundTrip.ArrayRoundTrip | FXSignal/Pods/nanopb/pb_decode.c:424-464 | An array of any count, packed or not, with or without a counter in the struct, arrives whole; a fixed-count array is complete afterwards. |
| RoundTrip.SubmessageRoundTrip | FXSignal/Pods/nanopb/pb_decode.c:1503-1525 | A nested message, required, optional, repeated or in a union, arrives as the same message and ends at its own last byte. |
| RoundTrip.UnsentMessageSame | FXSignal/Pods/nanopb/pb_encode.c:240-337 | A proto3 message that the encoder skips as default means the same as a freshly initialised one, so leaving it out loses nothing. |
| RoundTrip.CharsExact | FXSignal/Pods/nanopb/pb_decode.c:1468-1501 | Of the char arrays the encoder sends, the decoder accepts exactly those with a terminator inside the array. |
| Unterminated.AcceptedIfTerminated | FXSignal/Pods/nanopb/pb_decode.c:1075-1087 | When encoding succeeds, decoding those bytes succeeds if and only if every string that is sent, at any depth, is terminated inside its array. |
| Reencoding.ReencodesExactly | FXSignal/Pods/nanopb/pb_decode.c:1075-1087 | For any accepted input: the struct it leaves can be encoded, with all its strings terminated, if and only if each fixed-count array, at every depth, was in the input or held elements that can be sent. |
| Reencoding.DecodedReencodes | FXSignal/Pods/nanopb/pb_decode.c:1075-1087 | Under that condition the encoding decodes to the same message again, in any memory. |
| Reencoding.DecodedSends | FXSignal/Pods/nanopb/pb_decode.c:1075-1087 | The condition holds for every accepted input if fixed-count arrays hold numbers or byte strings of fixed length, and in memory all of whose elements are good, such as zeros. |
| Reencoding.OldBytesNotSent | FXSignal/Pods/nanopb/pb_encode.c:852-873 | The counterexample: two old byte arrays whose size does not fit, and the empty message: decoding succeeds, encoding the result fails. |
| Reencoding.OldStringNotTerminated | FXSignal/Pods/nanopb/pb_decode.c:862-868 | The same with strings: an old string without a terminator is part of the decoded message. |
| Reencoding.UsableExactly | FXSignal/Pods/nanopb/pb_encode.c:341-426 | The same for a message that comes in parts, at any depth of the descriptor tree. |
| Reencoding.GoodSends | FXSignal/Pods/nanopb/pb_encode.c:341-426 | The encoder accepts every good struct all of whose fixed-count elements are good or numeric. |
| Invariant.DecodeGood | FXSignal/Pods/nanopb/pb_decode.c:1075-1087 | After a successful pb_decode, from any bytes into any memory, counters are within their arrays, strings terminated, byte arrays within their storage, integers in range, at every depth outside the elements of fixed-count arrays; if all old elements were good, inside them too. |
| Received.DecodeReceives | FXSignal/Pods/nanopb/pb_decode.c:1075-1087 | So are the elements of every fixed-count array that was in the input, and every field that was not in the input holds its declared default, at every depth: in nested messages, unions, and elements of arrays. |
| Received.MetArrayGood | FXSignal/Pods/nanopb/pb_decode.c:988-1010 | All elements of a fixed-count array that is met are good, whatever they replaced. |
| Invariant.DecMessageGood | FXSignal/Pods/nanopb/pb_decode.c:925-1073 | pb_decode_noinit keeps good structs good, and structs all of whose elements are good so, on every input it accepts. |
| Merging.ConcatenationMerges | FXSignal/Pods/nanopb/pb_decode.c:943-1021 | Unless y begins with the fixed-count array that x ended with, decoding x ++ y is decoding x, then y into the same struct, with the required fields of both counted together. |
| Resuming.MergesExactly | FXSignal/Pods/nanopb/pb_decode.c:988-1010 | Without required fields, one call on x ++ y equals two calls if and only if y does not resume such an array, or both ways refuse the input. |
| Merging.MergeWithoutRequired | FXSignal/Pods/nanopb/pb_decode.c:925-1073 | Without required fields, and unless y resumes an array: same verdict, same struct, same bytes left as two calls one after the other. |
| Merging.MergeOfComplete | FXSignal/Pods/nanopb/pb_decode.c:925-1073 | With required fields, unless y resumes an array: if both calls succeed, the one call on x ++ y gives the result of the second. |
| Resuming.ResumedNeverBoth | FXSignal/Pods/nanopb/pb_decode.c:988-1010 | If y resumes an array of at least one element, x ++ y and y after x are never both accepted. |
| Resuming.FixedCountDoesNotMerge | FXSignal/Pods/nanopb/pb_decode.c:988-1010 | The counterexample: an array of one element, sent once, is accepted, and accepted again after itself, but refused when it comes twice in one input. |
| Merging.WireTypeIgnored | FXSignal/Pods/nanopb/pb_decode.c:406-427 | The wire type of a known field that is no packable array does not matter. |
| Compatibility.OneofReplaced | FXSignal/Pods/nanopb/pb_decode.c:466-476 | A union submessage that comes in two records of one input is the second one: decoding goes on as if the first were not there. |
| Merging.EmptyTableTag | FXSignal/Pods/nanopb/pb_common.c:78-95 | In an empty table tag 0 finds the terminating entry: the payload is read as a varint. |
| Locality.RunsThen | FXSignal/Pods/nanopb/pb_decode.c:943-1021 | Decoding goes on behind whole fields as if it started there: no field depends on the bytes behind it. |
| Compatibility.EncodedMessagesMerge | FXSignal/Pods/nanopb/pb_decode.c:925-1073 | Fields behind an encoded message are decoded into its struct and need no required fields of their own, unless they resume a fixed-count array. |
| Compatibility.OlderReader | FXSignal/Pods/nanopb/pb_decode.c:957-986 | A message with unknown fields before and behind the known ones is read as its known part. |
| UnknownFields.UnknownFieldsTransparent | FXSignal/Pods/nanopb/pb_decode.c:957-986 | The encoding of any message of another table, no tag of which is known, inserted at any field boundary changes neither verdict nor struct. |
| UnknownFields.SkipEncodedValue | FXSignal/Pods/nanopb/pb_decode.c:321-331 | Skipping by wire type consumes exactly the payload the encoder writes, for every kind of field. |
| Verdict.DecodeVerdict | FXSignal/Pods/nanopb/pb_decode.c:925-1087 | The verdict of pb_decode and the bytes it leaves depend on the input alone, not on the old struct, in every table. |
| Verdict.MessageVerdict | FXSignal/Pods/nanopb/pb_decode.c:925-1073 | pb_decode_noinit gives the same verdict and leaves the same counters in any two structs that have the same counters. |
| History.PartsFollow | FXSignal/Pods/nanopb/pb_decode.c:943-1021 | What is in a cell after decoding is what the records of its field, or its union, made of it one after the other. |
| History.PartsChain | FXSignal/Pods/nanopb/pb_decode.c:988-1010 | A fixed-count array that is met has all its elements received in order when the input is accepted. |
| Outcomes.CounterFold | FXSignal/Pods/nanopb/pb_decode.c:454-464 | Element k of an array of messages is decoded from the k-th record alone, over the element that was there. |
| Outcomes.NestedOutcome | FXSignal/Pods/nanopb/pb_decode.c:1503-1525 | A required or optional message that comes in several parts is what decoding the parts in turn makes of its defaults. |
| Forgetting.OverwritingForgets | FXSignal/Pods/nanopb/pb_decode.c:836-919 | Accepted input that overwrites everything that could be old gives the same message in any two structs, in every table. |
| Forgetting.RejectedForgets | FXSignal/Pods/nanopb/pb_decode.c:925-1087 | Input that is rejected in one struct is rejected in all. |
| Forgetting.DecodeForgets | FXSignal/Pods/nanopb/pb_decode.c:836-919 | In tables where no fixed-count array keeps old elements, verdict, bytes used and resulting message depend on the input alone. |
| Forgetting.ForgetsExactly | FXSignal/Pods/nanopb/pb_decode.c:862-868 | Accepted input gives the same message in any two structs if and only if each fixed-count array that would keep something old has its tag in the input: at top level, in the parts of nested messages together, in each array element by itself. For tables where the elements of fixed-count arrays hold no such array. |
| Forgetting.ForgettingOverwrites | FXSignal/Pods/nanopb/pb_decode.c:862-868 | In all tables: input that is forgotten has overwritten every such array, but for those inside elements of fixed-count arrays that come twice or lie under the zeroed counter. |
| Forgetting.LongArrayRemembers | FXSignal/Pods/nanopb/pb_decode.c:862-868 | A fixed-count array keeps something old if its elements can differ and the last one lies behind the bytes of a counter. |
| Forgetting.EightWordsRemembered | FXSignal/Pods/nanopb/pb_decode.c:862-868 | The counterexample: eight 32-bit words and the empty message. |
| Packing.PackedUnpackedAlike | FXSignal/Pods/nanopb/pb_decode.c:424-464 | A packed block and the same elements as tagged fields give the same verdict and the same struct, from any state, behind any elements already there, also for the first elements of a fixed-count array. |
| Packing.EmptyBlockTurns | FXSignal/Pods/nanopb/pb_decode.c:988-1010 | The exception: an empty block turns the decoder to a fixed-count array and leaves it incomplete, as no tagged elements do. |
| Packing.PackedExact | FXSignal/Pods/nanopb/pb_decode.c:436-445 | A packed block fills the array from position n on and is refused exactly if it does not fit. |
| Packing.TaggedExact | FXSignal/Pods/nanopb/pb_decode.c:454-464 | So do tagged elements. |
| Framing.DelimitedRoundTrip | FXSignal/Pods/nanopb/pb_decode.c:1104-1117 | pb_decode_delimited reads back what pb_encode_delimited wrote and consumes exactly that frame. |
| Framing.FramesRoundTrip | FXSignal/Pods/nanopb/pb_encode.c:552-555 | A sequence of delimited messages is read back one by one, each the same message, up to the end of the last. |
| Framing.NullTerminatedRoundTrip | FXSignal/Pods/nanopb/pb_encode.c:557-565 | A null-terminated message followed by arbitrary bytes decodes as the message alone. |
| RequiredFields.RequiredCheckExact | FXSignal/Pods/nanopb/pb_decode.c:1030-1070 | The bitmap check refines inclusion: accepted if and only if each required field that has a bit in the bitmap was met (First64Required says which those are). |
| RequiredFields.SeenIsMet | FXSignal/Pods/nanopb/pb_decode.c:1012-1017 | The required-field numbers collected in a run are exactly those of the required fields, among the first 64, that were met. |
| Bitmap.BitOfOr | FXSignal/Pods/nanopb/pb_decode.c:1016 | The operator that stands for | sets exactly the bits of either operand. |
| Bitmap.RepresentsInsert | FXSignal/Pods/nanopb/pb_decode.c:1015-1016 | Setting bit index & 31 of word index >> 5 inserts that index into the represented set. |
| Bitmap.AllSeen | FXSignal/Pods/nanopb/pb_decode.c:1051-1069 | The comparisons of whole words and of the remaining bits hold if and only if every number below the count is in the set. |
| Bitmap.PartWord | FXSignal/Pods/nanopb/pb_decode.c:1060-1068 | A word without bits from n on equals allbits >> (32 - n) exactly when its low n bits are set. |
| Decoder.CountRequired | FXSignal/Pods/nanopb/pb_decode.c:1032-1046 | The closing walk computes the number of required fields from any position of the iterator. |
| WireFormat.TagFormat | FXSignal/Pods/nanopb/pb_encode.c:669-707 | The tag of a field of number n is the varint of 8n for bools and integers, 8n + 1 for fixed64, 8n + 2 for bytes, strings, messages and bytes of fixed length, 8n + 5 for fixed32. |
| WireFormat.TagDecoded | FXSignal/Pods/nanopb/pb_decode.c:298-319 | pb_decode_tag takes the low 32 bits v of any varint it accepts apart: v % 8 and v / 8, or the end of the message if v is zero. |
| WireFormat.SkipsVarint | FXSignal/Pods/nanopb/pb_decode.c:278-287 | A varint of any length is skipped whole. |
| WireFormat.SkipFormat | FXSignal/Pods/nanopb/pb_decode.c:321-331 | Skipping by the number 0 drops one varint, of any length, by 1 eight bytes, by 2 a length-prefixed block, by 5 four bytes; every other number is refused. |
| WireFormat.NumberFormat | FXSignal/Pods/nanopb/pb_encode.c:776-833 | Integers are varints: negative ones of 64-bit two's complement, svarints -2n - 1 or 2n. |
| WireFormat.PayloadFormat | FXSignal/Pods/nanopb/pb_encode.c:769-912 | The payloads of all other types: one byte for a bool, little-endian words, and blocks with their length in front, of a nested message its own encoding. |
| WireFormat.ArrayFormat | FXSignal/Pods/nanopb/pb_encode.c:147-236 | Arrays of bools and numbers are one block under the tag 8n + 2; in all others each element has a tag. |
| WireFormat.FixedFormat | FXSignal/Pods/nanopb/pb_encode.c:641-666 | Fixed words are 4 and 8 bytes of the number to the base 256, the lowest first, for encoder and decoder. |
| Varints.EncodesVarint | FXSignal/Pods/nanopb/pb_encode.c:608-628 | The bytes emitted are the number to the base 128, the lowest digit first, the top bit set in all but the last byte, without a zero digit at the end. |
| Varints.DecodesVarint | FXSignal/Pods/nanopb/pb_decode.c:255-275 | Every varint of at most ten bytes is accepted, padded ones too, with its value modulo 2^64. |
| Varints.AcceptsVarintsOnly | FXSignal/Pods/nanopb/pb_decode.c:255-275 | Nothing else is: accepted input begins with a varint of at most ten bytes, and the rest is what follows it. |
| Varints.DecodesVarint32 | FXSignal/Pods/nanopb/pb_decode.c:187-247 | For every varint of at most ten bytes: exactly when the 32-bit decoder accepts it, and that the result is its value modulo 2^32. |
| Varints.CounterWraps | FXSignal/Pods/nanopb/pb_decode.c:208-242 | A longer varint: behind 37 bytes of padding an 8-bit shift counter has wrapped around, and the next bit counts 8; a wider counter refuses it. |
| WireFormat.BlockDecoded | FXSignal/Pods/nanopb/pb_decode.c:372-400 | A block is read by its length, in any form of the varint, and ends with its last byte. |
| WireFormat.BoolDecoded | FXSignal/Pods/nanopb/pb_decode.c:1318-1327 | A bool is true for every number but zero. |
| FieldRanges.UnsignedWidths | FXSignal/Pods/nanopb/pb_decode.c:1366-1388 | Unsigned fields of 1, 2, 4 and 8 bytes accept exactly the values below 0x100, 0x10000, 2^32 and 2^64. |
| FieldRanges.ZigzagWidths | FXSignal/Pods/nanopb/pb_decode.c:1390-1412 | Zigzag fields of these widths accept exactly -0x80..0x7F, -0x8000..0x7FFF, -2^31..2^31 - 1 and -2^63..2^63 - 1. |
| FieldRanges.SignedWidths | FXSignal/Pods/nanopb/pb_decode.c:1329-1364 | Signed fields of 1 and 2 bytes accept exactly these ranges of the low 32 bits; of 4 bytes all; of 8 bytes the whole 64 bits. |
| FieldRanges.OtherWidths | FXSignal/Pods/nanopb/pb_encode.c:776-833 | A data_size other than 1, 2, 4 or 8 is an error, for encoder and decoder. |
| FieldRanges.WidthsRoundTrip | FXSignal/Pods/nanopb/pb_encode.c:776-833 | Every value of these literal ranges comes back from its encoding. |
| FieldRanges.BytesFit | FXSignal/Pods/nanopb/pb_decode.c:1431-1466 | Byte arrays are read, and sent, exactly if the data and a size member of 1, 2 or 4 bytes, by the width of pb_size_t, fit the storage. |
| FieldRanges.FixedBytesDecoded | FXSignal/Pods/nanopb/pb_decode.c:1527-1548 | Bytes of fixed length are read if they have that length; an empty block gives that many zeros; other lengths are refused. |
| FieldRanges.CharsWritten | FXSignal/Pods/nanopb/pb_decode.c:1468-1501 | A char array takes the characters and a terminator if they fit, and is refused otherwise; the old bytes behind the terminator stay. |
| FieldIterator.NextPlace | FXSignal/Pods/nanopb/pb_common.c:39-74 | From one field to the next, by the descriptors: a oneof member behind another one, with data_offset PB_SIZE_MAX, keeps cell, data address and which_ address; any other field, also the first member of another union, has a cell of its own and lies behind the size (data_size, or data_size * array_size if repeated) of the one before, plus data_offset, and its counter at size_offset from there. |
| Places.CellsByOffset | FXSignal/Pods/nanopb/pb_common.c:44-50 | Two fields share a cell if and only if every field behind the one, up to the other, is a oneof member with data_offset PB_SIZE_MAX behind a oneof member. |
| Places.UnmetKept | FXSignal/Pods/nanopb/pb_decode.c:943-1021 | Decoding leaves the cell of a field, which_ and value of a union included, as it was unless a record of that field or of a member of that union is in the input. |
| Declared.SetDefaultsDeclared | FXSignal/Pods/nanopb/pb_decode.c:836-919 | pb_message_set_to_defaults, on any struct: every required or optional field with a default pointer holds exactly that value, every other one zeros of its size, at any depth; has_ flags, counters and which_ members are zero. |
| Declared.UnmetDeclared | FXSignal/Pods/nanopb/pb_decode.c:1075-1087 | After a successful pb_decode, a field without a record in the input, or a union without a record of any member, still holds that. |
| Declared.TurnedUnion | FXSignal/Pods/nanopb/pb_decode.c:466-476 | The submessage a union turns to starts with its declared defaults and with all its arrays zero, whatever the union held. |
| RequiredFields.First64Required | FXSignal/Pods/nanopb/pb_decode.c:1030-1070 | Input that is otherwise sound is accepted if and only if every required field with fewer than 64 required fields before it in the table has its tag in it. |
| RequiredFields.AllRequired | FXSignal/Pods/nanopb/pb_decode.c:1048-1068 | With at most 64 required fields in the table: if and only if all of them have. |
| LeftOut.LeftOutExactly | FXSignal/Pods/nanopb/pb_encode.c:240-337 | An optional field has no bytes if and only if its has_ flag is clear or, without flag, its value is false, 0, empty, or an empty submessage. |
| LeftOut.EmptySubmessage | FXSignal/Pods/nanopb/pb_encode.c:282-309 | pb_check_proto3_default_value calls a submessage default if and only if its encoding has no bytes, which_ of each of its unions is 0, and it has no fixed-count array. |
| LeftOut.UnionAndArrayLeftOut | FXSignal/Pods/nanopb/pb_encode.c:341-426 | A required field always has bytes, a oneof member exactly if which_ is its tag, an array exactly if it has elements. |
| Framing.FrameDecoded | FXSignal/Pods/nanopb/pb_decode.c:1089-1117 | A frame around any bytes below 4 GiB: pb_decode_delimited decodes them into defaults, pb_decode_delimited_noinit into the struct as it is; the bytes behind stay. |
| Framing.DelimitedNoinitRoundTrip | FXSignal/Pods/nanopb/pb_decode.c:1089-1102 | pb_decode_delimited_noinit reads back an encoded message into a struct just set to defaults. |
| WireProperties.VarintRoundTrip | FXSignal/Pods/nanopb/pb_decode.c:255-275 | For every uint64 and any trailing bytes pb_decode_varint returns the value encoded and consumes exactly its bytes. |
| WireProperties.VarintShortest | FXSignal/Pods/nanopb/pb_encode.c:608-628 | No other bytes that decode to the same value are fewer than the encoder emits. |
| WireProperties.EncVarintLength | FXSignal/Pods/nanopb/pb_encode.c:608-628 | The length is the bit length divided by 7, rounded up, one byte for 0 and at most 10. |
| WireProperties.DecVarintBound | FXSignal/Pods/nanopb/pb_decode.c:255-275 | A result fits 64 bits and the seven bits per byte read. |
| WireProperties.Varint32RefinesVarint64 | FXSignal/Pods/nanopb/pb_decode.c:187-247 | When both varint decoders succeed they consume the same bytes and agree modulo 2^32, for every width of the shift counter. |
| WireProperties.Varint32OfEncoded | FXSignal/Pods/nanopb/pb_decode.c:187-247 | On encoded values the 32-bit decoder returns v below 2^32, refuses 2^32 up to 2^63, and from there on returns v modulo 2^32 exactly if v looks sign-extended, as the image of every negative int32 does. |
| WireProperties.ZigzagRoundTrip | FXSignal/Pods/nanopb/pb_decode.c:1269-1281 | Zigzag encoding and decoding are inverse in both directions on all 64-bit values. |
| WireProperties.IntegerFieldsRoundTrip | FXSignal/Pods/nanopb/pb_encode.c:776-833 | Signed, unsigned and zigzag fields come back over the whole range of their width (FieldRanges.WidthsRoundTrip writes the ranges out). |
| WireProperties.IntegerFieldsExact | FXSignal/Pods/nanopb/pb_decode.c:1329-1412 | Unsigned and zigzag fields accept a varint exactly when its value fits; signed fields up to 32 bits judge by its low 32 bits (FieldRanges.UnsignedWidths, SignedWidths and ZigzagWidths write the ranges out). |
| WireProperties.Fixed32RoundTrip | FXSignal/Pods/nanopb/pb_decode.c:1283-1295 | Little-endian 32-bit words come back. |
| WireProperties.Fixed64RoundTrip | FXSignal/Pods/nanopb/pb_decode.c:1298-1315 | Little-endian 64-bit words come back. |
| WireProperties.TagRoundTrip | FXSignal/Pods/nanopb/pb_decode.c:298-319 | Wire type and field number come back from an encoded tag. |
| WireProperties.StringRoundTrip | FXSignal/Pods/nanopb/pb_encode.c:709-715 | Length-prefixed data below 4 GiB come back as a window. |
| WireProperties.SkipEncodedVarint | FXSignal/Pods/nanopb/pb_decode.c:278-287 | Skipping an encoded varint of any value consumes exactly its bytes. |
| FieldIterator.FieldIter.constructor | FXSignal/Pods/nanopb/pb_common.c:8-18 | Begins at field 0 with the layout invariant: pData is the base plus the sizes and gaps before the field, the index counts the required fields before it. |
| FieldIterator.FieldIter.Restart | FXSignal/Pods/nanopb/pb_common.c:33-38 | Wrapping around re-establishes the layout invariant at field 0. |
| FieldIterator.FieldIter.Next | FXSignal/Pods/nanopb/pb_common.c:20-76 | Keeps the layout invariant, moves to the next field, and is false exactly when it wraps; pData and pSize stay inside a union (data_offset PB_SIZE_MAX) and otherwise move by the size of the field before plus data_offset. |
| FieldIterator.FieldIter.Find | FXSignal/Pods/nanopb/pb_common.c:78-95 | From any position at most one cycle; found exactly if a field has the tag, and then at the field a plain search finds; otherwise back where it was. |
| FieldIterator.LayoutDisjoint | FXSignal/Pods/nanopb/pb_common.c:39-74 | The data of a field, and the gap the next one announces, end where any later field begins or before, unless the next one is a oneof member with data_offset PB_SIZE_MAX behind a oneof member. |
| FieldIterator.SharedCellSharedPlace | FXSignal/Pods/nanopb/pb_common.c:44-50 | Members of one union have the same data address and the same which_ address. |
| Encoder.EncodeToBuffer | FXSignal/Pods/nanopb/pb_encode.c:528-576 | Encoding into N bytes of a buffer succeeds if and only if sizing succeeds with at most N; then bytes_written is the size and exactly the first size bytes change; no byte at or past N ever does. |
| OutputStream.WroteThen | FXSignal/Pods/nanopb/pb_encode.c:103-124 | One encoder after another emits the concatenation, in a sizing as in a writing stream. |
| OutputStream.OStream.FromBuffer | FXSignal/Pods/nanopb/pb_encode.c:86-101 | A stream over the buffer, at its start. |
| OutputStream.OStream.Sizing | FXSignal/Pods/nanopb/pb_encode.h:94-110 | PB_OSTREAM_SIZING: a stream without destination that has counted nothing. |
| OutputStream.OStream.BufWrite | FXSignal/Pods/nanopb/pb_encode.c:74-84 | Copies the bytes to the cursor; every other byte stays. |
| OutputStream.OStream.Write | FXSignal/Pods/nanopb/pb_encode.c:103-124 | Sizing streams count; writing streams append if the bytes fit and otherwise fail without a change; nothing at or past the limit changes. |
| Encoder.VarintBytes | FXSignal/Pods/nanopb/pb_encode.c:615-625 | The loop stays inside its 10-byte buffer and leaves the varint of the value in it. |
| Encoder.EncodeVarint | FXSignal/Pods/nanopb/pb_encode.c:608-628 | Emits the varint of the value. |
| Encoder.EncodeSvarint | FXSignal/Pods/nanopb/pb_encode.c:630-639 | Emits the varint of the zigzag image. |
| Encoder.EncodeFixed32 | FXSignal/Pods/nanopb/pb_encode.c:641-650 | Emits four bytes, the lowest first. |
| Encoder.EncodeFixed64 | FXSignal/Pods/nanopb/pb_encode.c:653-666 | Emits eight bytes, the lowest first. |
| Encoder.EncodeTag | FXSignal/Pods/nanopb/pb_encode.c:669-673 | Emits field number and wire type as one varint. |
| Encoder.EncodeTagForField | FXSignal/Pods/nanopb/pb_encode.c:675-707 | Emits the tag with the wire type of the field (WireFormat.TagFormat writes it out). |
| Encoder.EncodeString | FXSignal/Pods/nanopb/pb_encode.c:709-715 | Emits the length and the data. |
| Encoder.CheckDefault | FXSignal/Pods/nanopb/pb_encode.c:240-337 | True exactly for the cells the encoding leaves out as default. |
| Encoder.CheckAllDefault | FXSignal/Pods/nanopb/pb_encode.c:289-309 | True exactly if no field of a submessage would be sent. |
| Encoder.StringLength | FXSignal/Pods/nanopb/pb_encode.c:885-897 | The number of characters before the terminator, or the whole array. |
| Encoder.EncodeValue | FXSignal/Pods/nanopb/pb_encode.c:769-912 | Emits the payload of any kind of field, or fails if the bytes size is corrupt. |
| Encoder.EncodeSubmessage | FXSignal/Pods/nanopb/pb_encode.c:717-765 | The writing pass emits exactly as many bytes as the sizing pass counted: the call succeeds whenever they fit, so it never ends in a changed size. |
| Encoder.FixedSizes | FXSignal/Pods/nanopb/pb_encode.c:170-177 | The shortcuts 4 * count and 8 * count are the sizes of the packed elements. |
| Encoder.EncodeItems | FXSignal/Pods/nanopb/pb_encode.c:180-204 | The measuring and the writing loop over a packed array emit the same bytes. |
| Encoder.EncodePacked | FXSignal/Pods/nanopb/pb_encode.c:161-205 | Tag, size and elements; the measured size is that of the elements written, in a sizing stream too. |
| Encoder.EncodeTagged | FXSignal/Pods/nanopb/pb_encode.c:207-233 | Every element with a tag of its own. |
| Encoder.EncodeArray | FXSignal/Pods/nanopb/pb_encode.c:147-236 | Nothing for an empty array, failure for a count above array_size, else packed or tagged. |
| Encoder.EncodeField | FXSignal/Pods/nanopb/pb_encode.c:341-426 | Required always, optional by flag or default check, repeated by counter or array_size, oneof by which_. |
| Encoder.Encode | FXSignal/Pods/nanopb/pb_encode.c:528-550 | Emits all fields in table order on any stream, or fails; on failure nothing outside the space left has changed. |
| Encoder.EncodeDelimited | FXSignal/Pods/nanopb/pb_encode.c:552-555 | Emits the length and the message. |
| Encoder.EncodeNullTerminated | FXSignal/Pods/nanopb/pb_encode.c:557-565 | Emits the message and a zero byte. |
| Encoder.GetEncodedSize | FXSignal/Pods/nanopb/pb_encode.c:567-576 | Succeeds exactly if the struct can be encoded, with the number of bytes. |
| InputStream.IStream.constructor | FXSignal/Pods/nanopb/pb_decode.c:159-181 | A stream whose window is the first bufsize bytes. |
| InputStream.IStream.Within | FXSignal/Pods/nanopb/pb_decode.c:372-385 | A substream confined to the first size bytes of its parent. |
| InputStream.IStream.BufRead | FXSignal/Pods/nanopb/pb_decode.c:87-100 | Copies or skips count bytes. |
| InputStream.IStream.Read | FXSignal/Pods/nanopb/pb_decode.c:102-137 | Takes count bytes from the window if it has them; position plus bytes left does not change. |
| InputStream.IStream.ReadByte | FXSignal/Pods/nanopb/pb_decode.c:141-157 | Takes one byte, or reports that none is left. |
| InputStream.IStream.DecodeVarint32Eof | FXSignal/Pods/nanopb/pb_decode.c:187-247 | Computes the 32-bit varint of the window; end of file only on an empty window. |
| InputStream.IStream.DecodeVarint | FXSignal/Pods/nanopb/pb_decode.c:255-275 | Computes the 64-bit varint of the window. |
| InputStream.IStream.SkipVarint | FXSignal/Pods/nanopb/pb_decode.c:278-287 | Drops one varint of any length. |
| InputStream.IStream.SkipString | FXSignal/Pods/nanopb/pb_decode.c:289-296 | Drops a length-prefixed block. |
| InputStream.IStream.DecodeTag | FXSignal/Pods/nanopb/pb_decode.c:298-319 | Field, end of message (also by a zero tag) or error. |
| InputStream.IStream.SkipField | FXSignal/Pods/nanopb/pb_decode.c:321-331 | Drops the payload the wire type announces; other wire types are errors. |
| InputStream.IStream.MakeSubstream | FXSignal/Pods/nanopb/pb_decode.c:372-385 | The window after the length prefix goes to the substream and the rest stays with the parent; the sum is conserved. |
| InputStream.IStream.CloseSubstream | FXSignal/Pods/nanopb/pb_decode.c:387-400 | The parent goes on where the substream ends, and reads nothing beyond its own end. |
| Decoder.InitializeValue | FXSignal/Pods/nanopb/pb_decode.c:871-889 | Computes the initial value of a field (Declared.SetDefaultsDeclared says which: the declared default, or zeros). |
| Decoder.FieldSetToDefault | FXSignal/Pods/nanopb/pb_decode.c:836-906 | Clears the flag, counter or which_ and initialises the data of singular fields; in a fixed-count array the zero counter is written over the first elements; other cells stay. |
| Decoder.MessageSetToDefaults | FXSignal/Pods/nanopb/pb_decode.c:908-919 | Every field of the table, whatever the struct held. |
| Defaults.SetDefaultsFresh | FXSignal/Pods/nanopb/pb_decode.c:908-919 | Afterwards nothing is present in the struct, at any depth. |
| Decoder.DecodeSignedField | FXSignal/Pods/nanopb/pb_decode.c:1329-1364 | The value after the casts, if they lose nothing. |
| Decoder.DecodeUnsignedField | FXSignal/Pods/nanopb/pb_decode.c:1366-1388 | The value, if it fits. |
| Decoder.DecodeSvarint | FXSignal/Pods/nanopb/pb_decode.c:1269-1281 | The inverse of the zigzag image. |
| Decoder.DecodeZigzagField | FXSignal/Pods/nanopb/pb_decode.c:1390-1412 | The value, if it fits. |
| Decoder.DecodeFixed32 | FXSignal/Pods/nanopb/pb_decode.c:1283-1295 | Four bytes joined by shifts and ORs are the little-endian word. |
| Decoder.DecodeFixed64 | FXSignal/Pods/nanopb/pb_decode.c:1298-1315 | Eight bytes joined by shifts and ORs are the little-endian word. |
| Decoder.DecodeBytes | FXSignal/Pods/nanopb/pb_decode.c:1431-1466 | The data, if they and their header fit the storage. |
| Decoder.DecodeChars | FXSignal/Pods/nanopb/pb_decode.c:1468-1501 | The characters and a terminator over the old array, if they fit; the 32-bit sum may wrap. |
| Decoder.DecodeFixedBytes | FXSignal/Pods/nanopb/pb_decode.c:1527-1548 | The data if of the exact size; an empty block stands for zeros. |
| Decoder.DecodeSubmessage | FXSignal/Pods/nanopb/pb_decode.c:1503-1525 | The nested message decoded in its own window; the parent goes on behind it. |
| Decoder.DecodeValue | FXSignal/Pods/nanopb/pb_decode.c:66-81 | The decoder selected by the type of the field. |
| Decoder.DecodePacked | FXSignal/Pods/nanopb/pb_decode.c:436-450 | Fills the array until the window is used up; bytes left over or a bad element are errors. |
| Decoder.DecodeArray | FXSignal/Pods/nanopb/pb_decode.c:424-464 | Packed block or one element, refused if the array is full. |
| Decoder.DecodeStaticField | FXSignal/Pods/nanopb/pb_decode.c:406-480 | Updates only the cell of the field; a union that turns to a submessage is zeroed first. |
| Decoder.MarkSeen | FXSignal/Pods/nanopb/pb_decode.c:1012-1017 | Keeps the bitmap equal to the set of required fields seen, with no bit at or above their total. |
| Decoder.DecodeFound | FXSignal/Pods/nanopb/pb_decode.c:988-1021 | Switching to another fixed-count array requires the last one to be complete. |
| Decoder.DecodeRound | FXSignal/Pods/nanopb/pb_decode.c:943-1021 | One round of the loop from any position of the iterator; it consumes at least one byte. |
| Decoder.DecodeNoinit | FXSignal/Pods/nanopb/pb_decode.c:925-1073 | Verdict, struct and bytes left are those of the main loop and its final checks; the sum of position and bytes left is conserved, and the recursion ends because bytes_left decreases. |
| Decoder.Decode | FXSignal/Pods/nanopb/pb_decode.c:1075-1087 | Defaults, then decoding. |
| Decoder.DecodeDelimitedFrame | FXSignal/Pods/nanopb/pb_decode.c:1089-1117 | A message in a window of its own, with or without defaults. |

## Left out

- Callback fields and extensions: they run functions of the application.
- Pointer fields, malloc and pb_release: they need a model of the heap.
- Custom stream callbacks, and with them the loop of pb_read that skips 16 bytes at a time: only memory buffers and sizing streams are modelled.
- PB_WITHOUT_64BIT, PB_BUFFER_ONLY, PB_ENCODE_ARRAYS_UNPACKED and PB_OLD_CALLBACK_STYLE builds, and the texts of error messages.
- Wrap-around of size_t: sizes and addresses are unbounded; the casts of lengths to 64 bits and the 32-bit sum in pb_dec_string are modelled.
- Raw bytes of a struct: padding, the bytes of a bool (safe_read_bool) and the byte-wise zero test of pb_check_proto3_default_value are modelled on values; the contents of a union are read only as the member they were written for.
- Aliasing of nested structs: a nested message is decoded in a Struct object of its own and copied into its place, instead of in place.
- The struct after a failed decode: its contents are not specified.
- Decoder.FieldSetToDefault: for a fixed-count array pSize equals pData, so a zero pb_size_t is written over the first elements. What it leaves of them depends on their representation and is a parameter (DecoderSpec.ZERO_START), constrained to keep the elements behind those bytes, the types of all, good elements good, and zeros. If the whole array is smaller than a pb_size_t, the write also reaches what lies behind the array, which is not modelled.
- Forgetting.ForgetsExactly: the if-and-only-if is for tables where the elements of fixed-count arrays hold no fixed-count array of their own that keeps old elements (Forgetting.Flat). For all other tables Forgetting.OverwritingForgets and Forgetting.ForgettingOverwrites give a sufficient and a necessary condition. They differ in elements that come more than once, or lie under the zeroed counter: there the outcome depends on earlier receptions and on what the zero write left.
- OutputStream.OStream.Write: the test for wrap-around of bytes_written has no counterpart, because sizes are unbounded.
- RoundTrip.RoundTripTheorem: strings must be terminated inside their arrays (for others see Unterminated.AcceptedIfTerminated), a proto3 field must not have a default other than zero, as the generator guarantees, and encodings are below 4 GiB, the most a length prefix can announce.
- Merging.ConcatenationMerges: x must consist of whole fields, without a zero tag, since such a tag ends the message.
- The application under FXSignal/FXSignal and the other vendored libraries.

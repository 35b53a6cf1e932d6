# datagram-chunker, modelled in Dafny

The crate packs independently serialized messages into byte buffers
("datagrams") of at most `max_size` bytes each. It fills one buffer greedily
and in order, and never splits a message. It can later decode the buffers
back into the message sequence.

The model has these parts:

- `base.dfy` (module `Base`): bytes, `Result`, and sequence concatenation.
- `errors.dfy` (module `Errors`): `DatagramChunkerError` and its `error_level` mapping.
- `message_codec.dfy` (module `MessageCodec`): the message capability the
  crate is generic over (`Serialize`/`Deserialize`).
  - It is given as function values: `Encoder<M>` and `Decoder<M>`.
  - A decoder returns the message and the number of bytes it consumed.
  - Two laws state what the round trip relies on:
    - `ConsumesInput`: a successful decode of a non-empty remainder moves forward and stays within the bytes.
    - `SelfDelimiting`: decoding an encoding followed by any bytes gives the message back.
- `packing.dfy` (module `Packing`): the greedy packing as pure functions over whole
  items (`Place`, `Pack`, `Finish`, `Packed`), and the properties proved about it.
- `chunker.dfy` (module `Chunker`): class `DatagramChunker`.
  - Its fields are `datagrams`, `current` and `maxSize`.
  - `Push` updates them in place.
  - `Valid()` ties the fields to the greedy packing of the items accepted so far.
- `datagram_codec.dfy` (module `DatagramCodec`): the three drivers as loop-based methods.
  - Each is proved equal to a specification function: `Serialize`, `DecodeAll`, `DecodeDatagrams`.
  - The file also holds the lemmas about those functions, the round-trip theorem among them.
- `test_message_codec.dfy` (module `TestMessageCodec`): a codec in the layout of
  the tests' message, proved to satisfy both laws.
  - The layout is a 4-byte id, a 2-byte length, then the content.
  - The concrete scenarios of the tests follow from the general lemmas.

`new` does not check the capacity (src/lib.rs:51-57), so `maxSize` is any
`nat`. With `maxSize == 0`, only empty items are accepted and `Finalize`
returns `[]`.

## Model

| member | source | states |
|---|---|---|
| `Errors.Level` | src/lib.rs:29-35 | an oversized item is `Critical`; every I/O error is `Info` |
| `Packing.PackInvariant` | src/lib.rs:69-82 | after any pushes of fitting items, the sealed groups followed by the open group are exactly the items in push order, none split; every sealed group is non-empty and fits, and `current` fits; a group was sealed only because the next item did not fit behind it |
| `Packing.PackFitsInOne` | src/lib.rs:74-79 | items whose bytes fit in one datagram all stay in `current` (the test is `>`, so an exact fit is appended) |
| `Packing.PackedDatagrams` | src/lib.rs:74-89 | the finalized output has no empty datagram and none over `maxSize`; its bytes are the items' bytes in order; each datagram is a run of whole consecutive items; only trailing empty items are dropped; each datagram was closed because the next item did not fit |
| `Chunker.DatagramChunker.constructor` | src/lib.rs:51-57 | a new chunker has no datagrams and an empty `current`, with the given capacity |
| `Chunker.DatagramChunker.ValidWithinCapacity` | src/lib.rs:70-79 | a valid chunker has `current` within capacity and every sealed datagram non-empty and within capacity |
| `Chunker.DatagramChunker.Push` | src/lib.rs:69-82 | an item over `maxSize` gives `ItemSizeTooBig` and changes nothing; an item that does not fit seals `current` and becomes the new `current` alone; otherwise (an exact fit included) it is appended; capacity and no-empty-datagram are kept |
| `Chunker.DatagramChunker.Finalize` | src/lib.rs:84-89 | returns the sealed datagrams plus `current` only if non-empty; equals the greedy packing of all accepted items; no datagram empty or over capacity |
| `DatagramCodec.EncodeAllErrPersists` | src/lib.rs:123-127 | once a message fails, the whole run fails with that error; later messages are never examined |
| `DatagramCodec.EncodeAllOk` | src/lib.rs:123-127 | the encode-and-push loop gets through exactly when every message encodes within the limit, and then yields the encodings in order |
| `DatagramCodec.EncodeAllFirstFailure` | src/lib.rs:123-127 | the first message that fails decides the error: an encode failure becomes `IoError` with that cause, an oversized encoding becomes `ItemSizeTooBig` |
| `DatagramCodec.SerializeOk` | src/lib.rs:114-130 | `serialize_to_datagrams` succeeds iff every encoding fits; its result is then the greedy packing of the encodings, with no datagram empty or over the limit, holding the encoded bytes in message order |
| `DatagramCodec.SerializeToDatagrams` | src/lib.rs:114-130 | the loop over messages with a fresh chunker computes exactly `Serialize`; no messages give no datagrams |
| `DatagramCodec.ThreeHalfSizeMessages` | tests/datagram_chunker.rs:73-107 | three 500-byte encodings under a 1000-byte limit give exactly `[e1 + e2, e3]` |
| `DatagramCodec.AllFitInOne` | tests/datagram_chunker.rs:48-71 | encodings that are not all empty and fit together in one datagram give exactly one datagram holding them all in order |
| `DatagramCodec.DeserializeDatagram` | src/lib.rs:147-159 | the decode-until-end loop computes exactly `DecodeAll`: the messages in order, or the first decode error; an empty buffer gives no messages |
| `DatagramCodec.DeserializeDatagrams` | src/lib.rs:178-188 | the loop over datagrams computes exactly `DecodeDatagrams` |
| `DatagramCodec.DecodeDatagramsAppend` | src/lib.rs:182-187 | decoding `a + b` gives the error of `a` if `a` fails, else the messages of `a` followed by the result of `b` |
| `DatagramCodec.EmptyDatagramContributesNothing` | tests/datagram_chunker.rs:264-309 | removing an empty datagram does not change the result |
| `DatagramCodec.DecodeDatagramsOk` | src/lib.rs:182-187 | `deserialize_datagrams` succeeds iff every datagram decodes |
| `DatagramCodec.DecodeDatagramsFirstFailure` | src/lib.rs:183-185 | the first failing datagram's error is the result, whatever follows; earlier messages are dropped |
| `DatagramCodec.DecodeEncodings` | src/lib.rs:151-158 | with a self-delimiting codec, decoding concatenated encodings gives the messages back in order |
| `DatagramCodec.DecodeGroups` | src/lib.rs:178-188 | datagrams made of runs of whole encodings decode back to the messages in order |
| `DatagramCodec.RoundTrip` | src/lib.rs:114-188 | with a self-delimiting codec, whenever `serialize_to_datagrams` succeeds, `deserialize_datagrams` of its output is `Ok` of the original messages |
| `TestMessageCodec.CodecLaws` | tests/datagram_chunker.rs:15-36 | the test message layout (4-byte id, 2-byte length, content) satisfies both codec laws |
| `TestMessageCodec.MalformedDatagramFails` | tests/datagram_chunker.rs:162-169 | the bytes 0..5 do not decode: their length field announces 1029 content bytes, so decoding ends in an end-of-stream error |
| `TestMessageCodec.MalformedSecondDatagramFails` | tests/datagram_chunker.rs:223-248 | a good datagram followed by `[0xff, 0xfe, 0xfd]` makes the whole call fail |
| `TestMessageCodec.ThreeMessagesTwoDatagrams` | tests/datagram_chunker.rs:73-107 | three test messages of 500 encoded bytes under 1000 give two datagrams; the first decodes to messages 1 and 2, the second to message 3, and together they decode back to the three messages |
| `TestMessageCodec.TwoMessagesOneDatagram` | tests/datagram_chunker.rs:48-71 | "Hello" and "World" under 1024 share one datagram, which decodes back to the two messages |
| `TestMessageCodec.SampleRoundTrip` | tests/datagram_chunker.rs:132-160 | any test messages whose encodings fit are serialized successfully and decode back unchanged |

## Left out

- The `flood_rs` streams (`OutOctetStream`, `InOctetStream`, `has_reached_end`) are not modelled. Their role is taken by `Encoder`/`Decoder` function values.
  - The decoder sees the bytes from the cursor to the end of the buffer.
  - "Reached the end" is the cursor position equalling the buffer length.
- DatagramCodec.DeserializeDatagram: it requires `ConsumesInput` of the decoder: a successful decode of a non-empty remainder must consume at least one byte and no more than the remainder. The source does not demand this. The source never decodes an empty remainder (src/lib.rs:154), but a decoder that succeeds on a non-empty remainder without consuming anything would make it loop forever. The model needs progress as its termination measure, so it leaves such decoders out.
- DatagramCodec.RoundTrip: its two codec laws together rule out messages that encode to zero bytes. The crate itself does not handle such messages: a zero-byte encoding adds nothing to `current` (src/lib.rs:78), `finalize` drops an empty `current` (src/lib.rs:85), and such a message is lost; decoding a non-empty buffer with such a type never leaves the `while` loop (src/lib.rs:154-156).
- DatagramCodec.DeserializeDatagrams: it requires `ConsumesInput` of the decoder for the same reason, because it runs `DeserializeDatagram` on every buffer. The specification functions `DecodeAll` and `DecodeDatagrams` require it too.
- `io::Error` is collapsed into the small opaque `IoFailure` type. The core only passes it on.
- `ErrorLevel` of `err_rs` is not part of this model. Only the two levels the crate produces (`Info`, `Critical`) are declared.
- `Vec::with_capacity` and the `clone` in `finalize` are left out. They have no effect on contents.
- Ownership is left out. `finalize(mut self)` ends the chunker's life. `Finalize` here leaves the object untouched and returns the output; the model does not forbid pushes after it.
- `usize` arithmetic is left out. `maxSize` and lengths are unbounded `nat`s. The overflow of `current.len() + buf.len()` in `usize` is not modelled; buffer lengths that large cannot exist in memory.
- The `Display`/`Debug` bounds and impls only format values and are left out.
- The sample codec in `TestMessageCodec` differs from the tests in three ways:
  - Content is raw bytes; the UTF-8 check of `String::from_utf8` is not modelled.
  - Content is limited by its type to fewer than 65536 bytes. The tests' serializer truncates the length with `as u16` instead; that is test code, outside the core.
  - The byte order of `write_u32`/`write_u16` is not visible here. The sample uses big-endian.

# protosaurus record-framing decoder, modelled in Dafny

`protosaurus` turns Kafka-style records that follow the Confluent Schema
Registry convention into JSON. Its command-line reader (`src/protosaurus/cli.py`)
walks a record stream. Each record is a 4-byte big-endian length followed by
a body. Each body is a magic byte that must be 0, a 4-byte big-endian schema
id, a message-index section, and the Protocol Buffers payload. The
message-index section is a zig-zag base-128 varint count followed by that
many zig-zag varints. A count of 0 stands for `[0]`, and a count below 0 or
above 100000 is rejected.

This project models that decoder:

- `common.dfy`: bytes, one error constructor per raise site, and `Result`/`Step` (a result paired with the cursor it leaves).
- `zigzag.dfy`: the zig-zag step `(v >> 1) ^ -(v & 1)` and its inverse.
- `base128.dfy`: base-128 varints. It covers the little-endian value, the terminator search and the canonical encoding.
- `index_section.dfy`: what `_read_varint` and `_read_index_array` compute, as functions of the buffer and the start position. It also holds the producer-side encoders and the round-trip lemmas.
- `framing.dfy`: the length prefix, the signed magic byte, the schema id, the header parse of a body, and their round trips.
- `reader.dfy`: the imperative decoder. `ByteReader` is the `BytesIO` buffer: the bytes plus a `pos` cursor. Its methods are `_read_byte`, `_read_varint` (a `while` loop over `value` and `shift`) and `_read_index_array` (a `for` loop appending to `msgIndex`). It also has the frame read and the header parse of `main`. `ReadVarint`, `ReadElements`, `ReadIndexArray` and `ReadFrame` are each proved equal to `VarintAt`, `VarintsAt`, `IndexArrayAt` and `FrameAt` of the old cursor, result and new cursor included, and `ParseRecord` to `ParseBody`. The plain byte reads `ReadByte`, `Read` and `ReadRest` have no counterpart function: their contracts state the bytes returned and the new cursor directly.

Python integers are unbounded, so values are `int`/`nat`. There is no 64-bit
overflow and no limit on varint length. `value |= (i & 0x7f) << shift` is
written as an addition: the loop invariant `value < ShiftLeft(1, shift)` shows that the
new seven bits never overlap the old ones, so the OR and the sum agree. The
buffer contents are a `seq` because the `bytes` behind the `BytesIO` is never
written. Only the cursor changes.

## Model

| member | source | states |
|---|---|---|
| `ZigZag.Decode` | src/protosaurus/cli.py:63 | `(value >> 1) ^ -(value & 1)` as half the raw value, or its complement for an odd value. It has no contract of its own; `DecodeCases`, `Encode`, `EncodeDecode` and `DecodeInjective` specify it. |
| `ZigZag.DecodeCases` | src/protosaurus/cli.py:63 | An even raw value r decodes to r/2 and an odd one to -(r+1)/2. The result is non-negative exactly when r is even. |
| `ZigZag.Encode` | src/protosaurus/cli.py:63 | Every integer z has a raw value that decodes to z. Non-negative integers go to even values and negative ones to odd values. |
| `ZigZag.EncodeDecode` | src/protosaurus/cli.py:63 | Encoding a decoded raw value gives that raw value back. |
| `ZigZag.DecodeInjective` | src/protosaurus/cli.py:63 | Two raw values that decode to the same integer are equal. With `Encode`, the decoding is a bijection from naturals to integers. |
| `Base128.Value` | src/protosaurus/cli.py:59 | The number the loop builds in `value`: the low seven bits of each byte, least significant group first. It has no contract of its own; `ValueSnoc`, `ValueBound` and `ValueEncode` specify it. |
| `Base128.ValueSnoc` | src/protosaurus/cli.py:59-60 | Appending a byte to a varint adds its low seven bits shifted by 7 times the bytes already read. This is the loop step of `_read_varint`. |
| `Base128.ValueBound` | src/protosaurus/cli.py:59-60 | The value of k groups is below 2^(7k), so the bitwise OR of the next shifted group is an addition. |
| `Base128.ShiftLeftPlus7` | src/protosaurus/cli.py:59-60 | Shifting seven places further multiplies by 128, which is how `shift += 7` moves the next group past the previous one. |
| `Base128.ValueStep` | src/protosaurus/cli.py:58-60 | One loop pass: the old value plus the next byte's seven bits shifted by `shift` is the value of one byte more, and it stays below `1 << (shift + 7)`. |
| `Base128.TerminatorFrom` | src/protosaurus/cli.py:57-62 | Where the loop breaks: the index of the varint's last byte, or the buffer end when there is none, always between the start and the buffer end. `TerminatorFromSpec` says which byte it is. |
| `Base128.TerminatorFromSpec` | src/protosaurus/cli.py:57-62 | The search for the varint's last byte passes only bytes whose 0x80 bit is set. It stops on a byte whose bit is clear, or at the buffer end when there is none. |
| `Base128.TerminatorNotYet` | src/protosaurus/cli.py:61-62 | A byte with the 0x80 bit set, reached before the last byte, does not end the varint: the loop goes on. |
| `Base128.TerminatorAt` | src/protosaurus/cli.py:61-62 | The first byte reached with the 0x80 bit clear is the last byte of the varint: the loop breaks there. |
| `Base128.EncodeShape` | src/protosaurus/cli.py:57-62 | An encoding has the 0x80 bit set on every byte except the last, which has it clear. |
| `Base128.ValueEncode` | src/protosaurus/cli.py:57-62 | The base-128 value of the encoding of n is n. |
| `Base128.TerminatorOfEncoding` | src/protosaurus/cli.py:57-62 | Wherever an encoding sits in a buffer, the terminator search stops on its last byte. |
| `IndexSection.RawVarintAt` | src/protosaurus/cli.py:57-62 | The byte-by-byte read of one varint before zig-zag: when it succeeds it has consumed at least one byte and stops inside the buffer. |
| `IndexSection.RawVarintAtSpec` | src/protosaurus/cli.py:57-62 | Reading byte by byte stops just after the first byte with a clear 0x80 bit, with the base-128 value of the bytes passed. With no such byte there is no value. |
| `IndexSection.VarintAt` | src/protosaurus/cli.py:53-66 | The cursor moves forward and stays inside the buffer. A failure is always the "EOF while reading index" error and leaves the cursor at the end. |
| `IndexSection.VarintAtEndsAt` | src/protosaurus/cli.py:57-64 | A varint whose last byte is at `next - 1` yields the zig-zag of the base-128 value of the bytes up to `next`, with the cursor at `next`. |
| `IndexSection.VarintAtMissing` | src/protosaurus/cli.py:57-66 | A varint that runs off the end of the buffer is the "EOF while reading index" error, with the cursor at the end. |
| `IndexSection.VarintAtConsumes` | src/protosaurus/cli.py:55-66 | On success the read consumes exactly the bytes up to and including the first one with a clear 0x80 bit. The value is the zig-zag of their base-128 sum. The read fails exactly when no such byte remains, and then there is no partial value. |
| `IndexSection.VarintsAt` | src/protosaurus/cli.py:76-78 | Reading n varints in a row yields exactly n values. Any failure is the EOF error with the cursor at the end. |
| `IndexSection.VarintsAtElement` | src/protosaurus/cli.py:76-78 | In any successful read of n varints, for any buffer contents, element i is the varint that starts where the first i elements end, so the elements are appended in buffer order. |
| `IndexSection.VarintsAtErrorIsFinal` | src/protosaurus/cli.py:76-78 | Once an element read has failed, asking for more elements gives the same failure. |
| `IndexSection.IndexArrayAt` | src/protosaurus/cli.py:68-80 | A decoded message-index array is never empty. |
| `IndexSection.IndexArrayCases` | src/protosaurus/cli.py:69-80 | Each count outcome decides the result. An EOF in the count is an EOF error. A count below 0 or above 100000 is rejected with the cursor just after the count, before any element is read. A count of 0 yields `[0]` and consumes only the count. A count in range yields exactly that many elements. |
| `IndexSection.VarintRoundTrip` | src/protosaurus/cli.py:53-66 | An encoded integer anywhere in a buffer reads back as itself, and the cursor lands just after it. |
| `IndexSection.VarintsRoundTrip` | src/protosaurus/cli.py:76-80 | Varints written one after another read back in the same order. |
| `IndexSection.IndexArrayParts` | src/protosaurus/cli.py:69-78 | In an encoded section, the count reads back as the number of indices and the elements that follow read back as the indices. |
| `IndexSection.IndexArrayRoundTrip` | src/protosaurus/cli.py:68-80 | A section written for 1 to 100000 indices reads back as those indices, negatives included, because elements are not range-checked. An empty list reads back as `[0]`. |
| `Framing.Uint32BE` | src/protosaurus/cli.py:98 | Four bytes decode as an unsigned big-endian number below 2^32. |
| `Framing.Uint32RoundTrip` | src/protosaurus/cli.py:98 | Decoding the big-endian encoding of n gives n. |
| `Framing.Uint32Injective` | src/protosaurus/cli.py:98 | Four bytes are recovered from the number they spell. |
| `Framing.SignedByte` | src/protosaurus/cli.py:103-106 | The magic byte is read as a signed value in -128..127, congruent to the byte mod 256. It is zero exactly when the byte is 0. |
| `Framing.FrameAt` | src/protosaurus/cli.py:91-99 | No bytes left ends the stream cleanly. One to three bytes left is the "Unexpected EOF" error. Otherwise the body is at most the prefix's length and is exactly the bytes consumed after the prefix. |
| `Framing.FrameRoundTrip` | src/protosaurus/cli.py:91-99 | A body written after its own length reads back whole, and the cursor lands on the next frame. |
| `Framing.ParseBody` | src/protosaurus/cli.py:103-114 | Fewer than 5 bytes is a truncated header. A non-zero first byte is the magic-byte error with its signed value. A success has magic byte 0, the big-endian schema id from bytes 1-4, a non-empty index path, and a payload that is a suffix of the body after at least one index byte. With magic byte 0 the result is decided by `IndexArrayAt` from offset 5: its error, or the record with that index path and every byte after the section as payload. |
| `Framing.ParseEncodeBody` | src/protosaurus/cli.py:103-114 | Parsing a produced body returns its schema id, its index path (an empty list read as `[0]`) and exactly its payload. |
| `Reader.ByteReader.constructor` | src/protosaurus/cli.py:99 | A new buffer holds the given bytes with the cursor at 0. |
| `Reader.ByteReader.Read` | src/protosaurus/cli.py:91-99 | `read(n)` returns the next n bytes, or fewer at the end of the buffer, and advances the cursor past them. |
| `Reader.ByteReader.ReadRest` | src/protosaurus/cli.py:114 | `read()` returns every remaining byte and leaves the cursor at the end. |
| `Reader.ByteReader.ReadByte` | src/protosaurus/cli.py:47-51 | Returns the byte at the cursor and advances by one. At the end it raises the EOF error and does not move. |
| `Reader.ByteReader.ReadVarint` | src/protosaurus/cli.py:53-66 | The result and the new cursor equal `VarintAt` of the old cursor. The loop keeps `value` equal to the base-128 value of the bytes read and below `1 << shift`, and no byte read so far is the last one. |
| `Reader.ByteReader.ReadIndexArray` | src/protosaurus/cli.py:68-80 | The result and the new cursor equal `IndexArrayAt` of the old cursor. |
| `Reader.ByteReader.ReadElements` | src/protosaurus/cli.py:76-80 | The `for` loop: the elements and the new cursor equal `VarintsAt` of the old cursor for the given count. |
| `Reader.ByteReader.ReadFrame` | src/protosaurus/cli.py:91-99 | The result and the new cursor equal `FrameAt` of the old cursor. |
| `Reader.ParseRecord` | src/protosaurus/cli.py:101-114 | Parsing a body over a fresh buffer gives exactly `ParseBody` of that body. |
| `Reader.ReadRecord` | src/protosaurus/cli.py:91-114 | One pass of the record loop reads a frame as `FrameAt` says. It then parses the body as `ParseBody` says, and reports the clean end of the stream as `None`. |

## Left out

- Reading the offset and key lines with `readline` (cli.py:87-88) is not modelled. `ReadRecord` starts at the length prefix, so the lines are assumed already consumed.
- Printing the spliced JSON line (cli.py:120-122) is not modelled, because it is output only.
- The schema-registry client `_get_schema_by_id`/`_get_schema` (cli.py:17-42) is left out. It is HTTP I/O with a process-wide cache, and the schema id it receives is only passed through.
- `to_json` (cli.py:118) is left out: it goes through `Context::to_json` (include/protosaurus/protosaurus.h:61-97) into libprotobuf. `message_type_from_index` (cli.py:116) is left out too: it is called on the `Context`, but its code is neither in protosaurus.h nor in src/protosaurus_ext.cpp, so there is no definition to model it against.
- The schema compiler and the wire codec behind `Context` (include/protosaurus/protosaurus.h) and the JSON printer in include/protosaurus/internal/json.h are not modelled, because they are foreign calls into libprotobuf. The bindings in src/protosaurus_ext.cpp are binding glue that exposes the `Context` methods to Python, with no decoding logic of their own.
- The loop over records in `main` is not modelled as a whole, because each pass interleaves line I/O, network calls and printing. `ReadRecord` models one pass from the length prefix to the payload.
- The exact Python exception classes and message texts are abstracted into `Common.Error`, one constructor per raise site. `struct.error` from a short 5-byte header read becomes `TruncatedHeader`.

# Trilogy packet builder in Dafny

This project models the packet builder of the Trilogy MySQL client
(`src/builder.c`). The builder appends typed values to an outgoing message and
cuts the message into MySQL protocol packets as it goes.

Each packet starts with a 4-byte header: a 24-bit little-endian payload length,
then a sequence byte that goes up by one, mod 256, from packet to packet. The
builder writes each header with a placeholder length of 0.

- When a packet reaches `TRILOGY_MAX_PACKET_LEN` payload bytes, its length
  field becomes the sentinel `FF FF FF` ("full, another packet follows") and a
  new header is opened at once. A message whose length is an exact multiple of
  the maximum therefore ends in an empty packet.
- `trilogy_builder_finalize` writes the true length of the last packet into
  its header.

The project has four modules, one per file:

- `Wire` (`wire.dfy`): the byte encodings, as pure functions.
  - `LE(v, n)`: the `n` low bytes of `v`, least significant first.
  - `Lenenc(v)`: the MySQL length-encoded integer.
  - Spec-level decoders for both, with round-trip lemmas.
- `Framing` (`framing.dfy`): the packet layout, as pure functions over a
  payload stream and a packet cap `cap`.
  - `Framed`: the bytes a builder holds while the message is still open.
  - `Finalized`: the bytes after `finalize`.
  - `Deframe` / `Payload`: a spec-level reader used for round trips.
  - The counters `Full`, `Rest` and `HeaderOffset`: the number of full
    packets, the bytes in the open packet, and where its header starts.
- `Buffers` (`buffers.dfy`): the byte buffer (`buff`, `len`) as a class over
  an `array`. `Expand` either reserves room or fails and changes nothing.
- `Builders` (`builder.dfy`): the builder as a class with the C fields
  `buffer`, `headerOffset`, `fragmentLength` and `sequence`. Every function of
  `builder.c` is a method that updates them in place.
  - The ghost fields `Stream` (the payload written since `Init`) and `Seq0`
    (the first sequence byte) carry the specification.
  - The invariant `Valid()` says the buffer is exactly
    `Framed(MAX, Seq0, Stream)` and the counters agree with it.
  - After a successful write the method's `ensures` gives `Valid()` and
    `Stream == old(Stream) + <the bytes the C function writes>`.
  - A failed call returns a negative code. `Stream` is then the old stream
    followed by a prefix of those bytes (`Partial`). The builder is `Valid()`,
    so the buffer holds `Framed(MAX_PACKET_LEN, Seq0, Stream)`, or it is
    `Torn()`, and the buffer holds that minus its final 4-byte header.
    `Torn()` is the state left when the next header could not be reserved
    after a packet became full: the sentinel has been written but no header
    follows. This matches the fail-fast `CHECKED` macro (src/builder.c:53-59),
    which returns at the first error without undoing anything.

`TRILOGY_MAX_PACKET_LEN` is defined in a header that is not part of this
model. The builder uses `MAX_PACKET_LEN = 0xFFFFFF`, the largest length the
24-bit field holds. The layout lemmas take the cap as a parameter
(`0 < cap <= 0xFFFFFF` where the reader needs it), so small caps such as 4 can
be worked through concretely.

A full packet's header does not hold its payload size. It holds `FF FF FF`, the
bytes `write_continuation_header` stores (src/builder.c:29-31), even when the
cap is smaller, e.g. 4. The model follows the code here. The reader
`Deframe` takes the sentinel to mean "`cap` bytes follow". `FiveBytesPackets`
shows the two packets of a five-byte message with a cap of 4: the first has
length field `0xFFFFFF` and payload `[1, 2, 3, 4]`.

## Model

| member | source | states |
|---|---|---|
| Wire.LEAt | src/builder.c:75-114 | byte `k` of `LE(v, n)` is `(v >> 8*k) & 0xff`, the value the `k`-th `write_uint8` call of a fixed-width writer receives |
| Wire.LEBytes | src/builder.c:75-114 | `LE(v, 2/3/4/8)` are the shift-and-mask byte lists of `write_uint16/24/32/64`, written out |
| Wire.LERoundTrip | src/builder.c:75-114 | reading back `n` little-endian bytes gives `v mod 256^n`: the writers drop the high bytes and lose nothing else |
| Wire.LEDecode | src/builder.c:75-114 | a value that fits in `n` bytes reads back unchanged |
| Wire.Lenenc | src/builder.c:116-132 | the encoding has 1, 3, 4 or 9 bytes; it has one byte exactly when `v < 251`; its first byte is never `0xFB` (NULL) or `0xFF` (error packet) |
| Wire.LenencTable | src/builder.c:118-129 | the range table: `[v]` below 251, prefix `0xFC` with 3 bytes up to `0xFFFF`, `0xFD` with 4 bytes up to `0xFFFFFF`, `0xFE` with 9 bytes above |
| Wire.LenencRoundTrip | src/builder.c:116-132 | decoding `Lenenc(v)`, whatever follows it, yields `v` and consumes exactly the encoding |
| Framing.SeqAtMod | src/builder.c:22 | packet `i` of a message starting with sequence byte `s0` carries `(s0 + i) mod 256` |
| Framing.SeqAtSucc | src/builder.c:22 | consecutive packets carry consecutive sequence bytes, wrapping at 256 |
| Framing.Header | src/builder.c:19-22 | a header has 4 bytes and its last byte is the sequence byte |
| Framing.SentinelHeader | src/builder.c:29-31 | the header of a full packet is `FF FF FF` followed by its sequence byte |
| Framing.FullRestDivMod | src/builder.c:66-70 | `n` payload bytes fill `n / cap` packets, leave `n % cap` in the open one, whose header starts at `(n / cap) * (cap + 4)` |
| Framing.Patch24 | src/builder.c:46-51 | backpatching a 24-bit field keeps the length and every byte outside the three patched ones |
| Framing.PatchReadBack | src/builder.c:46-51 | the patched field reads back as the value mod `2^24` |
| Framing.FramedLength | src/builder.c:16-22 | the open stream is `HeaderOffset + 4 + Rest` bytes long |
| Framing.FramedHeaderAt | src/builder.c:16-22 | the open packet's header sits at `HeaderOffset` and is `[0, 0, 0, SeqAt(s0, Full)]` |
| Framing.FramedTail | src/builder.c:65 | after the open header come exactly the last `Rest` payload bytes |
| Framing.FramedLayout | src/builder.c:16-22 | the three facts above together |
| Framing.CountersAppend | src/builder.c:66-70 | appending without passing the cap keeps the header offset and adds to `Rest`; reaching the cap exactly moves the offset by `cap + 4`, resets `Rest` to 0 and counts one more full packet |
| Framing.FramedAppendPartial | src/builder.c:65-66 | bytes that leave the open packet short of full are simply appended to the framed stream |
| Framing.FramedAppendFill | src/builder.c:27-34 | bytes that fill the open packet exactly: only its length field changes (to the sentinel) and an empty header with the next sequence byte follows |
| Framing.FramedAppend | src/builder.c:61-73 | both cases of appending into the open packet, with the new counters |
| Framing.FinalizedIsPatched | src/builder.c:46-51 | patching the open header with `Rest` turns the open stream into the finished message |
| Framing.DeframeFinalized | src/builder.c:46-51 | reading a finished message yields exactly its packets: full ones with the sentinel, then one with its true length |
| Framing.ChunkedHeaders | src/builder.c:153-166 | a message has `Full + 1` packets; all but the last carry the sentinel and `cap` bytes; packet `i` carries `SeqAt(s0, i)`; the last carries `Rest` bytes |
| Framing.ChunkedConcat | src/builder.c:134-178 | the packets' payloads together are exactly the message |
| Framing.ChunkedShape | src/builder.c:134-178 | the two lemmas above together |
| Framing.PayloadRoundTrip | src/builder.c:46-51 | stripping the headers of a finished message gives back the payload written |
| Framing.PacketCount | src/builder.c:153-166 | a message of `n` bytes takes `n / cap + 1` packets; the last is empty exactly when `n` is a multiple of `cap` |
| Framing.FiveBytesCapFour | src/builder.c:61-73 | cap 4, first sequence 7, payload `[1..5]`: the exact finished bytes |
| Framing.FiveBytesPackets | src/builder.c:46-51 | the same bytes read back: `(0xFFFFFF, 7, [1,2,3,4])` then `(1, 8, [5])` |
| Framing.ExactMultipleCapFour | src/builder.c:153-166 | cap 4, four bytes: the full packet is followed by an empty packet `[0, 0, 0, 8]` |
| Buffers.Buffer.Expand | src/builder.c:63 | either reserves room for `needed` more bytes after `len`, or fails with a negative code and changes nothing |
| Buffers.Buffer.Push | src/builder.c:65 | `buff[len++] = v` appends `v` to the bytes in use |
| Buffers.Buffer.Write | src/builder.c:144-146 | `memcpy` at `len` then `len += n` appends the bytes to those in use |
| Buffers.MemCopy | src/builder.c:144 | copies into `dst[at..at+n)` and leaves every other element alone |
| Builders.Strlen | src/builder.c:191 | the index of the first NUL byte: every byte before it is non-zero |
| Builders.AppendStep | src/builder.c:61-73 | what appending into the open packet does to the builder's bytes and counters; with `Valid()` this is the step every writer takes |
| Builders.ValidDetermined | src/builder.c:134-178 | two valid builders with the same payload and first sequence byte hold identical bytes and counters, so one `write_buffer` and `len` `write_uint8` calls leave the same buffer |
| Builders.Builder.ValidLayout | src/builder.c:16-22 | in a valid builder `fragmentLength < MAX`; `headerOffset + 4 + fragmentLength == len`; the open header is `[0, 0, 0, seq - 1]`; the open packet holds the last `|Stream| % MAX` bytes |
| Builders.Builder.WriteHeader | src/builder.c:8-25 | on success appends `[0, 0, 0, seq]`, sets `headerOffset` to the old `len` and `fragmentLength` to 0, and increments `seq` mod 256; on failure nothing changes |
| Builders.Builder.WriteContinuationHeader | src/builder.c:27-34 | patches the open header's length to `FF FF FF` (no other byte changes), then appends the next header; if that fails the patch stays |
| Builders.Builder.Init | src/builder.c:36-44 | on success the buffer is exactly `[0, 0, 0, seq0]`, `headerOffset = 0`, `fragmentLength = 0`, `seq = seq0 + 1 mod 256`, and the builder is valid; on failure `len = 0` |
| Builders.Builder.Finalize | src/builder.c:46-51 | writes `fragmentLength` as 24-bit little-endian at `headerOffset` and changes no other byte and no field; from a valid builder the result is the finished message |
| Builders.Builder.WriteUint8 | src/builder.c:61-73 | appends one byte to the payload; when the packet becomes full it is marked and a new one opened; a failed reservation changes nothing |
| Builders.Builder.WriteLE | src/builder.c:75-114 | `n` byte writes of `(v >> 8*k) & 0xff`: appends `LE(v, n)` to the payload, or stops at the first failure with a prefix of it written |
| Builders.Builder.WriteUint16 | src/builder.c:75-81 | appends the 2 little-endian bytes of `v` to the payload |
| Builders.Builder.WriteUint24 | src/builder.c:83-90 | appends the low 3 little-endian bytes of `v` to the payload |
| Builders.Builder.WriteUint32 | src/builder.c:92-100 | appends the 4 little-endian bytes of `v` to the payload |
| Builders.Builder.WriteUint64 | src/builder.c:102-114 | appends the 8 little-endian bytes of `v` to the payload |
| Builders.Builder.WritePrefixed | src/builder.c:120-129 | a wide lenenc branch: the prefix byte then `v` in `n` bytes, stopping at the first failure |
| Builders.Builder.WriteLenenc | src/builder.c:116-132 | appends `Lenenc(v)` to the payload, or a prefix of it on failure |
| Builders.Builder.CopyIn | src/builder.c:141-149 | reserve, copy and advance: the buffer gains `chunk` and `fragmentLength` grows by its length; a failed reservation changes nothing |
| Builders.Builder.Rollover | src/builder.c:68-70 | once the open packet holds `MAX` bytes (the `fragment_length == MAX` test, also reached from `write_buffer` at line 164): marks it full and opens the next packet; the builder is valid again on success and torn on failure, with the payload unchanged |
| Builders.Builder.Append | src/builder.c:153-166 | one chunk of `write_buffer`: appends `chunk` to the payload; a chunk that fills the packet rolls over (`fragmentLength` back to 0); a failed reservation changes nothing |
| Builders.Builder.WriteBuffer | src/builder.c:134-178 | appends exactly `data` to the payload, splitting it at packet boundaries; on failure a prefix of `data` is written (the contract does not fix at which chunk boundary it stops); a failure on the fast path changes nothing |
| Builders.Builder.WriteLenencBuffer | src/builder.c:180-187 | appends `Lenenc(len)` then `data`, or a prefix of that on failure |
| Builders.Builder.WriteString | src/builder.c:189-196 | appends the bytes before the first NUL and then one `0x00`, or a prefix of that on failure |

## Left out

- The growth strategy of `trilogy_buffer_expand` and its error codes are defined outside `builder.c`. `Expand` may fail at any call, and every error is `-1`.
- `trilogy/builder.h`, `trilogy/error.h` and `trilogy/packet_parser.h` are not part of this model. `TRILOGY_OK` is 0, and `TRILOGY_MAX_PACKET_LEN` is taken to be `0xFFFFFF`.
- The packet parser is not modelled. Round trips use the spec-level readers `Deframe`, `Payload`, `FromLE` and `DecodeLenenc`.
- Pointers, `memcpy` and `strlen` are modelled on sequences. `write_string` takes the C string's memory as a sequence that contains a NUL byte, and `Strlen` finds it. Aliasing between `data` and the builder's own buffer is not modelled.
- C integer widths are preconditions (`v < 0x1_0000` and so on) instead of implicit casts. The casts `(uint16_t)val` and `(uint32_t)val` in `write_lenenc` cannot drop bits, because each branch's range already fits the width.
- Builders.Builder.WriteLE: this method is one loop over the byte index. It stands for the straight-line `write_uint8` calls of `write_uint16/24/32/64`, which the wrappers `WriteUint16` … `WriteUint64` call.
- Builders.Builder.WritePrefixed: the wide branches of `write_lenenc` write the prefix and then call `WriteLE` directly, not through the `WriteUint16/24/64` wrappers, which do the same.
- Builders.Builder.WriteBuffer: the repeated "expand, memcpy, advance" steps of `write_buffer` are factored into `CopyIn`. The continuation-header step after a full chunk is factored into `Append`.
- Every writer requires `Valid()`, so writing to a builder left `Torn()` by an earlier failure is not modelled. In C such a builder is not usable. `fragment_length` equals the maximum and the next header is missing. `write_uint8` then pushes the byte and sets `fragment_length` to `MAX + 1`. The `==` test at src/builder.c:68 never fires again, so every later byte goes into a packet already longer than the maximum. `finalize` then overwrites that packet's `FF FF FF` sentinel with `(MAX + k) mod 2^24`. `write_buffer` instead sees `fragment_remaining == 0`, copies an empty chunk and writes the missing header (src/builder.c:153-165).
- Builders.Builder.WriteBuffer: on failure the contract allows any prefix of `data` (`Partial`). The C can stop only at a chunk boundary: after nothing, after the first `fragment_remaining` bytes and then every `MAX` bytes, or after all of `data` with the last header missing. The contract does not record these boundaries.
- `ptr` and the decreasing `len` of `write_buffer` are an offset `off` into `data`.

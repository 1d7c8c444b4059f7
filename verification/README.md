# lib4bottle core, modelled in Dafny

lib4bottle writes and reads *bottles*. A bottle is a self-delimiting container made of two parts:

- a cap, which gives the bottle's type and a small typed header;
- then any number of sub-streams, each either a raw byte stream or another bottle nested inside.

This project models four pieces of the library and proves properties about them:

- **Header codec** (`header.dfy`, module `Header`). This models `src/header.ts`.
  - The `Header` class holds the field list that the `add*` methods append to.
  - Lookups return the first matching field.
  - `byteLength` does the size accounting.
  - `packInto` writes into a byte array in place. It checks the 1023-byte limit, the room in the buffer and the 0..15 id range.
  - `unpack` is a cursor loop that fails on truncation.
  - Packing and unpacking are proved to be inverse to each other.
- **Framing codec** (`framing.dfy`, module `Framing`). This models `src/framed.ts`.
  - `framed` drops empty chunks, writes a length prefix before every other chunk, and ends with one `0x00`.
  - `unframed` pulls frames from a shared reader. It stops at a zero length and fails with "Truncated stream" on a short read.
  - Decoding what was framed gives back the non-empty chunks. It consumes exactly the framed bytes, so it works whatever follows them.
- **Bottle multiplexer** (`bottle.dfy`, module `Bottles`). This models `src/bottle.ts`.
  - A bottle is written as its cap, then a marker byte per sub-stream (`0x40` raw, `0x80` nested), then `0xc0`.
  - Reading is a marker-driven recursive parser. Each sub-stream is read to its end before the next marker.
  - The `Bottle` class has the typed accessors `nextStream`, `nextDataStream`, `nextBottle` and `done`, and their `streamCount`.
  - Reading what was written gives the bottle back.
- **Signed bottles** (`signed.dfy`, module `Signed`). This models `src/signed_bottle.ts`.
  - `writeSignedBottle` builds the SIGNED cap and the two sub-streams.
  - `computeHash` is the pass-through tee.
  - `readSignedBottle` makes the OK / BAD_HASH / UNVERIFIED decision.

`common.dfy` (module `Common`) holds the shared vocabulary:

- bytes;
- `Option` and `Result`;
- one `Error` constructor for each message the library throws;
- the forward-only `Reader` cursor that the decoders pull from.

Several parts of the library are parameters here:

- The cap codec (`src/bottle_cap.ts`) is a pair of functions, `CapCodec`. The round-trip lemmas assume that it reads back what it writes (`RoundTrips`), and that it never claims more bytes than it was given (`ReadsWithin`).
- SHA-256, the signer and the verifier are function parameters.

Imperative code is modelled as methods and classes, and each method is proved against a pure function:

- `Header.Header.PackInto` writes into an `array<byte>`.
- `Framing.Unframed`, `Bottles.ReadValue` and `Bottles.ReadStreamsFrom` advance a shared `Reader`.
- `Bottles.Bottle` updates `streams` and `streamCount` in place.

The header's `U64` quirk is modelled as written: `addInt` with a value of 2^32 or more stores it in `int`, but `packInto`'s U64 branch reads only `bigint`, so the field packs as eight zero bytes (`Header.LargeAddIntPacksAsZero`).

## Model

| member | source | states |
|---|---|---|
| Common.Reader.Read | src/framed.ts:51-52 | the byte reader as its callers use it: `read(n)` returns the next `n` bytes, or all that is left when fewer remain, and advances the position by exactly what it returned |
| Common.ConcatNonEmpty | src/framed.ts:17-22 | dropping empty chunks does not change the bytes the chunks carry |
| Header.TypeOfCode | src/header.ts:20-27 | gives the field type with the given code, and that type is the only one with the code |
| Header.IntField | src/header.ts:82-93 | `addInt`'s field has the narrowest integer type: every narrower integer type is too small for the value, which is kept in the `int` slot |
| Header.Header.constructor | src/header.ts:74-75 | a new header has no fields |
| Header.Header.AddFlag | src/header.ts:77-80 | appends exactly one FLAG field with that id; earlier fields are unchanged |
| Header.Header.AddInt | src/header.ts:82-94 | a negative value fails with "can't be negative" and changes nothing; otherwise appends exactly the narrowest integer field |
| Header.Header.AddBigInt | src/header.ts:96-102 | a value up to 0xffffffff behaves exactly as `addInt`; a larger one appends a U64 field that carries the `bigint` |
| Header.Header.AddString | src/header.ts:104-107 | appends exactly one STRING field with the string's bytes |
| Header.FindFirst | src/header.ts:109-126 | `Array.find`: the index of the first field that satisfies the predicate, none before it satisfying it, or the length when there is none |
| Header.GetFlag | src/header.ts:109-111 | true exactly when some FLAG field has the id |
| Header.GetInt | src/header.ts:113-116 | absent when no U8..U64 field has the id; otherwise the number carried by the first such field |
| Header.GetBigInt | src/header.ts:118-122 | gives the same number as `getInt` |
| Header.GetString | src/header.ts:124-126 | absent when no STRING field has the id; otherwise the bytes of the first such field |
| Header.EncodeFields | src/header.ts:132-134 | the packed bytes are exactly `byteLength` long, where `byteLength` sums 1 + the `Lengths` width + the string length over the fields |
| Header.EncodeField | src/header.ts:144-172 | one field packs to 1 + its `Lengths` width + its string length bytes |
| Header.EncodePayload | src/header.ts:146-172 | the payload after the descriptor is the `Lengths` width plus the string length |
| Header.FirstBad | src/header.ts:142-143 | the first field whose id is out of 0..15, or whose string is too long for its length byte; every field before it passes |
| Header.Header.PackInto | src/header.ts:136-175 | fails with "Header too large" or "Buffer isn't big enough" without writing anything; otherwise writes every field in order from `offset`; if a field is bad, it stops at the first bad one with that field's error and keeps the bytes already written |
| Header.Header.Pack | src/header.ts:177-181 | the result is exactly `byteLength` bytes holding the encoded fields, or `packInto`'s error |
| Header.PackFields | src/header.ts:141-174 | the `for` loop of `packInto` writes the packed bytes into the buffer and reports the first field error |
| Header.PackField | src/header.ts:143-172 | one field: the descriptor `(type & 15) << 4 \| id`, then its payload, or the id error after nothing |
| Header.WriteUIntLE | src/header.ts:150-163 | `writeUInt8/16/32LE`: the value's little-endian bytes at the position |
| Header.WriteString | src/header.ts:166-171 | a length byte, then the string's bytes |
| Header.PackedAllGood | src/header.ts:141-175 | when every field passes, the loop succeeds and writes exactly the encoded fields |
| Header.PackedFirstBad | src/header.ts:141-175 | at the first bad field, the loop fails with that field's error, having written the fields before it and that field's descriptor |
| Header.ReadUIntLEBound | src/header.ts:197-207 | a little-endian read of `w` bytes is below 256^w |
| Header.ReadUIntLERoundTrip | src/header.ts:197-207 | writing back a little-endian read gives the same bytes |
| Header.ReadLittleEndian | src/header.ts:150-163 | reading back a little-endian write gives the value |
| Header.Join64Split | src/header.ts:161-163 | the two 32-bit halves that `packInto` writes, joined as `unpack` joins them, give back the two halves |
| Header.DescriptorDecodes | src/header.ts:144 | the descriptor's high nybble is the type code and its low nybble the id |
| Header.DecodeHead | src/header.ts:186-220 | a decoded field and its payload lie within the buffer |
| Header.Unpack | src/header.ts:183-224 | the `while` loop decodes the fields in order and fails with "Truncated header" when a payload or string runs past the end |
| Header.ReadField | src/header.ts:187-193 | one pass of `unpack`'s loop: the descriptor and a payload that must fit |
| Header.ReadPayload | src/header.ts:194-216 | the payload read as the field's type gives it |
| Header.DecodeEncodeField | src/header.ts:144-216 | a packed field unpacks to itself |
| Header.PackUnpack | src/header.ts:136-224 | for ids 0..15, strings up to 255 bytes and values in range, `unpack(pack(h))` gives the same fields in order |
| Header.HeaderCut | src/header.ts:192-193 | a packed header cut short inside any field, whether in a fixed-width payload, a string's length byte or the string itself, fails with "Truncated header" |
| Header.HeaderCutAtField | src/header.ts:186-222 | a packed header cut between two fields unpacks without error to the fields before the cut |
| Header.UnpackPack | src/header.ts:136-224 | every buffer that unpacks packs back to exactly the same bytes |
| Header.LargeAddIntPacksAsZero | src/header.ts:88-91 | an `addInt` value of at least 2^32 packs as its descriptor and eight zero bytes, and unpacks as zero |
| Header.AddInt150 | src/header.ts:82-85 | `addInt(0, 150)` packs as `00 96`, unpacks to the same field, and `getInt(0)` is 150 |
| Framing.EncodeLength | src/test/test_framed.ts:29-60 | a length prefix is 1 to 3 bytes, and its lead byte announces how many |
| Framing.DecodeEncodeLength | src/test/test_framed.ts:74-102 | decoding an encoded length gives the length, whatever follows it |
| Framing.DecodePower | src/test/test_framed.ts:74-81 | the one-byte prefix `0xe0 + log2(n) - 7` of a power of two from 128 to 2^21 decodes to `n` |
| Framing.DecodeTwoBytes | src/test/test_framed.ts:83-91 | the two-byte prefix `0x80 \| (n & 0x3f)`, `n >> 6` decodes to `n` |
| Framing.DecodeThreeBytes | src/test/test_framed.ts:93-102 | the three-byte prefix `0xc0 + (n & 0x1f)`, `(n >> 5) & 0xff`, `n >> 13` decodes to `n` |
| Framing.SmallLayouts | src/test/test_framed.ts:10-13 | every length below 64 is its own single-byte prefix, 3 and 12 among them as the tests write them |
| Framing.PowerLayouts | src/test/test_framed.ts:29-37 | powers of two 128, 1024, 2^18 and 2^21 take one byte, `0xe0 + log2(n) - 7` |
| Framing.TwoByteLayouts | src/test/test_framed.ts:39-48 | 129 and 1234 take two bytes as the test computes them |
| Framing.ThreeByteLayouts | src/test/test_framed.ts:50-60 | 16385 and 123456 take three bytes as the test computes them |
| Framing.ReadLength | src/framed.ts:36-45 | `readLength` consumes no more than is left; running out of input consumes everything and fails |
| Framing.ReadEncodedLength | src/framed.ts:36-45 | `readLength` on an encoded prefix gives the length and consumes exactly the prefix |
| Framing.ReadCutLength | src/framed.ts:37-43 | a prefix cut short fails with "Truncated stream" |
| Framing.Framed | src/framed.ts:13-27 | `framed`'s loop emits, for each non-empty chunk in order, its length prefix and the chunk, then one `0x00` |
| Framing.EmitFrame | src/framed.ts:18-21 | an empty chunk emits nothing; any other chunk emits its prefix and itself |
| Framing.SmallFrame | src/test/test_framed.ts:10-13 | `framed([01 02 03])` is `03 01 02 03 00` |
| Framing.EmptyChunkSkipped | src/test/test_framed.ts:22-27 | an empty chunk between two others leaves no trace in the output |
| Framing.Unframe | src/framed.ts:32-58 | `unframed` consumes no more than is left; a truncation consumes everything |
| Framing.ReadLengthFrom | src/framed.ts:36-45 | `readLength` on the reader gives what `ReadLength` gives and moves the reader by what it consumes |
| Framing.NextFrame | src/framed.ts:47-54 | one pass of `unframed`'s loop: stops at length 0 or an error; otherwise yields exactly the next frame's bytes |
| Framing.Unframed | src/framed.ts:32-58 | the loop yields the frames in order and stops or fails where `Unframe` says, leaving the reader just after what it consumed |
| Framing.UnframeEnds | src/framed.ts:47-52 | a bad prefix fails, length 0 ends the stream, and a payload running past the end fails with "Truncated stream" |
| Framing.UnframeFraming | src/framed.ts:13-58 | unframing framed chunks gives the non-empty chunks in order without failure, consuming exactly the framed bytes whatever follows |
| Framing.UnframeCut | src/framed.ts:36-52 | framed bytes cut short anywhere fail with "Truncated stream" |
| Bottles.WriteValue | src/bottle.ts:54-67 | `write`'s loop emits the cap, then `0x40` and the frames of each raw stream or `0x80` and the nested bottle's `write`, then `0xc0` |
| Bottles.ReadBottle | src/bottle.ts:69-100 | `read` never consumes more than it is given |
| Bottles.ReadStreams | src/bottle.ts:74-96 | the marker loop consumes at least its end marker and no more than it is given |
| Bottles.ReadSubStream | src/bottle.ts:75-95 | one pass of the marker loop consumes at least the marker and no more than it is given |
| Bottles.Normalized | src/framed.ts:17-22 | what reading gives back keeps the cap and the number of sub-streams |
| Bottles.NormalizedStreamsAt | src/framed.ts:17-22 | reading gives back each sub-stream in its own place, with only its empty chunks dropped |
| Bottles.ReadWrite | src/bottle.ts:54-100 | reading a written bottle gives it back, with the same sub-stream kinds, order and nesting, and each raw stream's non-empty chunks; it consumes exactly the written bytes whatever follows |
| Bottles.ReadWriteStreams | src/bottle.ts:74-92 | the marker loop reads back written sub-streams in order and stops at the `0xc0` after them, consuming it and nothing more |
| Bottles.ReadWriteStream | src/bottle.ts:78-90 | a raw stream is read up to and including its terminator, and a nested bottle up to and including its `0xc0`, before the next marker |
| Bottles.ReadStreamsEnd | src/bottle.ts:91-92 | `0xc0` ends the sub-streams and consumes only itself |
| Bottles.ReadStreamsFail | src/bottle.ts:74-96 | a failure after written sub-streams is the failure of the whole loop |
| Bottles.ReadTruncated | src/bottle.ts:75-76 | input that ends where a marker is expected fails with "Truncated bottle" |
| Bottles.ReadStray | src/bottle.ts:93-94 | a marker other than `0x40`/`0x80`/`0xc0` fails, naming the byte and the stream position just after it |
| Bottles.ReadCutRaw | src/bottle.ts:78-84 | a raw sub-stream cut short inside its frames fails with "Truncated stream" |
| Bottles.ReadSubStreamFrom | src/bottle.ts:75-95 | one pass of the marker loop on the reader agrees with `ReadSubStream` and moves the reader by what it consumes |
| Bottles.ReadValue | src/bottle.ts:69-100 | `read` on the reader agrees with `ReadBottle`: the same bottle or the same error, and the reader just after the bottle |
| Bottles.ReadStreamsFrom | src/bottle.ts:73-97 | the `while (true)` marker loop agrees with `ReadStreams` |
| Bottles.Bottle.constructor | src/bottle.ts:13-21 | a new bottle has its cap and sub-streams, and `streamCount` 0 |
| Bottles.Bottle.NextStream | src/bottle.ts:27-32 | at the end, gives nothing and changes nothing; otherwise gives the next sub-stream and increments `streamCount` by exactly one; `streamCount` always counts the sub-streams handed out |
| Bottles.Bottle.NextDataStream | src/bottle.ts:34-39 | fails with "reached end" at the end and "got nested bottle" for a bottle, and consumes the item either way; otherwise gives the raw stream |
| Bottles.Bottle.NextBottle | src/bottle.ts:41-46 | fails with "reached end" at the end and "got stream" for a raw stream; otherwise gives the nested bottle with `streamCount` 0 |
| Bottles.Bottle.Done | src/bottle.ts:48-52 | succeeds exactly when no sub-stream is left; otherwise fails with "Expected end of bottle", having taken one |
| Bottles.Bottle.Write | src/bottle.ts:54-67 | writes the cap and the remaining sub-streams as `WriteBottle` does; this drains the sub-streams without counting them |
| Bottles.Bottle.Read | src/bottle.ts:69-100 | gives a new bottle holding what `ReadBottle` reads, with `streamCount` 0, or `ReadBottle`'s error; leaves the reader just after the bottle |
| Signed.ComputeHash | src/signed_bottle.ts:104-118 | every chunk passes through unchanged and in order; the digest is the hash of all their bytes together |
| Signed.SignedStreams | src/signed_bottle.ts:66-68 | a signed bottle has exactly two sub-streams: the input's chunks, then a raw stream of exactly one chunk, the digest of the input's bytes or the signer's signature of it |
| Signed.WriteSignedBottle | src/signed_bottle.ts:58-69 | a new SIGNED bottle whose header holds the hash method and, when given, `signedBy`; its sub-streams are the passed-through input and the digest, or `signer(digest)`; a method without a digest algorithm fails |
| Signed.SignedFieldsRead | src/signed_bottle.ts:59-63 | in the written header, int field 0 is the hash method (SHA256 = 0 by default), and string field 0 is `signedBy` exactly when a non-empty name was given |
| Signed.Decide | src/signed_bottle.ts:79-98 | With no name: OK with no reason exactly when the second stream equals the recomputed digest; otherwise BAD_HASH with reason `expected <hex of recomputed>, got <hex of second stream>`. With a name: UNVERIFIED "no verifier" when there is no verifier, and UNVERIFIED with the verifier's message when it fails. When the verifier recovers a digest: OK exactly when it is the recomputed digest; otherwise BAD_HASH with reason `expected <hex of recomputed>, got <hex of recovered>`. `signedBy` is carried in every outcome |
| Signed.ReadSigned | src/signed_bottle.ts:71-101 | a cap that is not SIGNED fails with "Not a signed bottle"; success needs a raw first sub-stream and the SHA-256 method |
| Signed.ReadSignedOk | src/signed_bottle.ts:71-101 | for any SIGNED bottle whose method field is SHA-256 or absent (the default), and whose first sub-stream is raw with bytes that read as a bottle: the result is that bottle, and the check is "reached end" with no second sub-stream, "got nested bottle" when it is a bottle, and otherwise `Decide` on the hash of the wrapped bytes against the second stream's bytes |
| Signed.ReadSignedFails | src/signed_bottle.ts:73-78 | for a SIGNED bottle: no sub-stream gives "reached end", a nested first sub-stream "got nested bottle", a method other than SHA-256 `UnsupportedHash`, and wrapped bytes that do not read as a bottle give that read's error |
| Signed.ReadSignedBottle | src/signed_bottle.ts:71-101 | takes the wrapped stream with `nextDataStream`, reads it as a bottle while hashing it, then takes and checks the digest stream; gives what `ReadSigned` gives |
| Signed.SignedRoundTrip | src/signed_bottle.ts:58-101 | a signed bottle wrapping a written bottle reads back as that bottle and checks OK, unsigned or with a verifier that recovers what the signer signed |
| Signed.SignedBottleRoundTrip | src/signed_bottle.ts:58-101 | a signed bottle written with `write` and read back with `read` is consumed exactly; its sub-streams, empty chunks dropped, read back as the wrapped bottle and check OK |
| Signed.TamperedDigest | src/signed_bottle.ts:90-96 | without a name, a digest stream that differs from the recomputed digest is BAD_HASH, with both digests in hex in the reason |
| Signed.NoVerifier | src/signed_bottle.ts:82-83 | a named signer with no verifier is UNVERIFIED, with reason "no verifier" |

## Left out

- `src/zint.ts` is not part of this model. `encodeLength` and `decodeLength` follow the layouts that `src/test/test_framed.ts` checks.
  - Lengths from 64 to 127, and lengths above 2^21, are outside `Framing.Encodable`. The writers require every chunk length to be encodable.
  - A lead byte of the form `01xxxxxx` decodes to the explicit error `UnknownLengthPrefix`, because `lengthLength`'s answer for it is not known.
- `src/bottle_cap.ts` is not part of this model. The cap codec is the `CapCodec` parameter, and `BottleType` only distinguishes SIGNED.
- Asynchrony is not modelled: iterators, promises, `withPromiseAfter` and `finished`.
  - `Bottles.Bottle.Read` reads the whole bottle before returning it. So an error in a later sub-stream shows up when the bottle is read, not when that sub-stream is pulled.
  - Sub-streams that are never drained, and the deadlocks they cause, are concurrency effects.
- `Bottles.Bottle.NextBottle` returns a new `Bottle` made from the nested bottle's value. The source returns the object that its reader built.
- `Bottles.Bottle.Write` requires every raw chunk length to be encodable. It models the nested bottle's `write` with the same loop on the nested value (`Bottles.WriteValue`).
- The `blockSize` argument of `write`, and buffering through `buffered`, are not modelled. Chunks are framed as given.
- Diagnostics are left out: `toString`, `counter` and logging.
- Numbers are unbounded. `getInt`'s `toJSNumber` loses precision above 2^53, which is not modelled. So `Header.GetBigInt` and `Header.GetInt` agree.
- The `ByteReader` of the ballvalve library is not part of this model. `Common.Reader` follows how `src/framed.ts` and `src/bottle.ts` call it.
- Strings are their raw bytes, with no UTF-8 decoding. This includes `signedBy`, the verifier's name argument and the `str` of header fields.
- Unknown type codes in `Header.Unpack` fail with the explicit error `UnknownFieldType`. The source appends the field and stops, because its `Lengths` lookup is undefined.
- A string longer than 255 bytes fails `packInto` with `StringTooLong`. This stands for the range error of the length byte's `writeUInt8`.
- SHA-256, the signer and the verifier are parameters.
  - A signer whose promise rejects is not modelled.
  - A verifier that throws is `Failed(message)`.
- A hash method other than SHA-256 fails with `UnsupportedHash`. In the source, `crypto.createHash` receives no algorithm name and throws.
- `Signed.ReadSignedBottle` decides `verified` straight away. In the source, the digest settles only after the wrapped stream has been read to its end.
- `Signed.ReadSignedBottle` does not state how many of the outer bottle's sub-streams it has taken when it fails. It states this only when it succeeds.

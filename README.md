# DHCPv6 DUID decoder

A Dafny model of the DUID decoder in `decode/dec.py`. The decoder takes a
DHCP Unique Identifier written as hex text, with optional `:` separators,
and breaks it into its fields. It follows section 11 of RFC 8415
(DUID-LLT, DUID-EN, DUID-LL) and RFC 6355 (DUID-UUID):

| type | layout | minimum / exact length |
|---|---|---|
| 1 LLT | type, hardware type (u16), time (u32), link-layer address | at least 8 |
| 2 EN | type, enterprise number (u32), identifier | at least 6 |
| 3 LL | type, hardware type (u16), link-layer address | at least 4 |
| 4 UUID | type, 16 UUID bytes | exactly 18 |
| other | type, remaining bytes kept raw | at least 2 |

Files and modules:

- `wrappers.dfy` (`Wrappers`): `Option` and `Result`.
- `bytes.dfy` (`Bytes`): bytes and 16/32-bit unsigned values. It has the big-endian reads `BE16` and `BE32` (`struct.unpack('!H')` and `'!I'`) and the encoders that invert them.
- `hex.dfy` (`Hex`): `bytes.hex()` as `ToHex`, `bytes.fromhex()` as `FromHex`, and `str.replace(c, '')` as `Remove`.
- `render.dfy` (`Render`): the colon-joined address text with its ` (Hex)` marker, and the canonical 8-4-4-4-12 UUID text (section 3 of RFC 4122).
- `duid.dfy` (`Duid`): the decoded record `DuidRecord` and the errors `DecodeError`.
  - `Parse` gives each layout as slices of the input.
  - `Encode` is the reference inverse of `Parse`. Lemmas tie the two together both ways.
- `decoder.dfy` (`Decoder`): the imperative run.
  - `ByteStream` is the `io.BytesIO` cursor: a class with a `pos` field that `Read(n)` advances.
  - `Decode` reads the fields through that cursor and then does the final trailing-byte `read()`. It is proved to give exactly what `Parse` gives, with no trailing bytes on success.
  - `Normalize` is the input check, and `DecodeText` is the whole run.

The script decodes the same bytes the same way every time, because no state is shared between runs. Dafny functions are deterministic by construction, so that property needs no lemma.

Notes on the source's behaviour:

- An address that is not a 6-byte Ethernet address is still shown colon-joined, followed by ` (Hex)` (decode/dec.py:111, 143).
- The stream class `ByteStream` stands for the `io.BytesIO` object of decode/dec.py:62. Every `data.read(...)` of the decoder is a `Read` call that moves its cursor, and the final check at decode/dec.py:176-179 is the last `Read(-1)` in `Decode`.

## Model

| member | source | states |
|---|---|---|
| Duid.Parse | decode/dec.py:69-161 | the layout of each DUID type as slices of the input, with the length checks and their errors; its properties are the lemmas below |
| Hex.FromHex | decode/dec.py:51 | `bytes.fromhex`: a successful parse has half as many bytes as the text has digits |
| Hex.ToHex | decode/dec.py:106 | `bytes.hex()`: two digits per byte, so the text is twice as long as the bytes |
| Bytes.BE16 | decode/dec.py:71 | `struct.unpack('!H')` of exactly two bytes, most significant first |
| Render.Pairs | decode/dec.py:109 | the slices `h[i:i+2] for i in range(0, len(h), 2)` |
| Render.Join | decode/dec.py:109 | `':'.join(...)` of those slices |
| Render.ColonHex | decode/dec.py:109-111 | the colon-joined pairs of the address's hex; its contents are stated by the ColonHex lemmas below |
| Render.UuidText | decode/dec.py:153-154 | `str(uuid.UUID(bytes=u))` of the 16 bytes; its shape is stated by the UuidText lemmas below |
| Decoder.Normalize | decode/dec.py:49-59 | accepted input has at least 2 bytes, one per pair of the colon-free digits; a refusal is MalformedHex or TooShort, nothing else |
| Decoder.NormalizeAccepts | decode/dec.py:49-59 | the input is accepted iff, without colons, it has an even number of hex digits (either case) and at least 4; otherwise the error is TooShort(n) for well-formed hex with n < 2 bytes, and MalformedHex in every other case |
| Decoder.NormalizeBytes | decode/dec.py:51 | accepted input has half as many bytes as digits, and byte i is the value of digits 2i and 2i+1 |
| Decoder.NormalizeRoundTrip | decode/dec.py:51 | writing the accepted bytes back with `bytes.hex()` gives the colon-free input in lower case |
| Decoder.NormalizeOfToHex | decode/dec.py:51-57 | any 2 or more bytes written as hex, plain or colon-joined as an address is shown, are accepted back unchanged |
| Decoder.ByteStream.constructor | decode/dec.py:62 | `io.BytesIO(duid_bytes)`: the stream holds the input bytes with the cursor at 0 |
| Decoder.ByteStream.Read | decode/dec.py:71 | `read(n)` returns the bytes from the cursor to min(cursor + n, end), or to the end when n is negative, and moves the cursor there |
| Decoder.Decode | decode/dec.py:69-179 | the cursor-driven decoder fails exactly when the layout `Parse` fails, with the same error; on success it returns the `Parse` record, and the final `read()` finds no trailing bytes; the negative-length guards are proved unreachable |
| Decoder.DecodeText | decode/dec.py:49-179 | the whole run: input errors are reported before any type dispatch; otherwise the result is the decode of the normalised bytes, with nothing trailing |
| Bytes.BE32 | decode/dec.py:83 | a `!I` read is b0·2^24 + b1·2^16 + b2·2^8 + b3 |
| Bytes.U16BytesOfBE16 | decode/dec.py:71 | a `!H` read loses nothing: re-encoding the value gives back the two bytes |
| Bytes.BE16OfU16Bytes | decode/dec.py:79 | a `!H` read of the big-endian encoding of v is v |
| Bytes.U32BytesOfBE32 | decode/dec.py:116 | a `!I` read loses nothing: re-encoding the value gives back the four bytes |
| Bytes.BE32OfU32Bytes | decode/dec.py:83 | a `!I` read of the big-endian encoding of v is v |
| Duid.TypeName | decode/dec.py:27-32 | the type name is "Unknown" exactly for codes outside 1..4 |
| Duid.HardwareName | decode/dec.py:34-37 | the hardware name is "Unknown" exactly for types other than 1 (Ethernet) |
| Duid.ParseCode | decode/dec.py:71-76 | a decoded record carries the big-endian u16 of bytes 0..2 as its type code (so the code alone picks the variant), and it is well formed |
| Duid.ParseFails | decode/dec.py:76-156 | decoding fails iff there are fewer than 2 bytes, or LLT < 8, EN < 6, LL < 4, or UUID != 18 bytes |
| Duid.LltLayout | decode/dec.py:76-105 | type 1 fails iff length < 8; otherwise hardware type = BE16(b[2..4]), time = BE32(b[4..8]), address = b[8..] of length total - 8 |
| Duid.EnLayout | decode/dec.py:113-123 | type 2 fails iff length < 6; otherwise enterprise number = BE32(b[2..6]), identifier = b[6..] of length total - 6 |
| Duid.LlLayout | decode/dec.py:126-137 | type 3 fails iff length < 4; otherwise hardware type = BE16(b[2..4]), address = b[4..] of length total - 4 |
| Duid.UuidLayout | decode/dec.py:145-153 | type 4 succeeds iff length is exactly 18 (so 17 and 19 fail with LengthMismatch); the UUID is the 16 bytes b[2..18] |
| Duid.UnknownLayout | decode/dec.py:156-161 | any other type code succeeds at any length and keeps b[2..] unchanged |
| Duid.ParseOfEncode | decode/dec.py:69-161 | every well-formed record is decoded back from its encoding |
| Duid.EncodeOfParse | decode/dec.py:69-161 | the fields of a decoded record, re-encoded, are exactly the input: no byte is lost or read twice |
| Duid.ParseIsInverseOfEncode | decode/dec.py:69-161 | b decodes to r iff r is well formed and encodes to b |
| Hex.FromHexAccepts | decode/dec.py:51 | `bytes.fromhex` succeeds iff the text has even length and only hex digits |
| Hex.FromHexAt | decode/dec.py:51 | byte i of the result is the value of digits 2i and 2i+1 |
| Hex.FromHexOfToHex | decode/dec.py:51 | parsing what `bytes.hex()` writes gives back the bytes |
| Hex.ToHexOfFromHex | decode/dec.py:51 | `bytes.hex()` of what was parsed is the text in lower case |
| Hex.ToHexAt | decode/dec.py:106 | digits 2i and 2i+1 of `bytes.hex()` are the high and low nibble of byte i, in lower case |
| Hex.ToHexAppend | decode/dec.py:106 | `bytes.hex()` of a concatenation is the concatenation of the hex |
| Hex.Remove | decode/dec.py:51 | `replace(c, '')` leaves no `c` and changes a string without `c` in no way |
| Hex.HexDigit | decode/dec.py:106 | the digit written for a nibble is a lower-case hex digit that reads back as that nibble |
| Render.AddressText | decode/dec.py:106-111 | the address text is the colon-joined pairs, plus ` (Hex)` exactly unless hardware type = 1 and the address is 6 bytes |
| Render.ColonHexLength | decode/dec.py:109 | n > 0 address bytes are shown in 3n - 1 characters; no bytes are shown as the empty string |
| Render.ColonHexAt | decode/dec.py:109 | characters 3i and 3i+1 are the two lower-case digits of byte i, and 3i+2 is `:` for all but the last byte |
| Render.ColonHexWithoutColons | decode/dec.py:109 | dropping the colons from the address text gives the address's `bytes.hex()` |
| Render.ColonHexRoundTrip | decode/dec.py:109 | the address text, fed back through the input check, gives the address bytes |
| Render.UuidTextLayout | decode/dec.py:153-154 | the UUID text has 36 characters, with `-` at 8, 13, 18 and 23 and lower-case hex digits elsewhere |
| Render.UuidTextWithoutDashes | decode/dec.py:153-154 | without its dashes the UUID text is the hex of the 16 bytes in order |

## Left out

- Argument-count check, `print` output and `sys.exit` codes (decode/dec.py:40-46, 53-58, 163-173): these are command-line plumbing. Errors are returned as `DecodeError` values instead.
- Date conversion of the DUID-LLT time (decode/dec.py:86-99): it depends on a calendar library. The record keeps the raw 32-bit `time`.
- Whitespace between digit pairs, which `bytes.fromhex` tolerates: the model treats whitespace as a non-hex character and refuses it.
- The `struct.error` path for the reads after the type code: `BE16` and `BE32` require exactly 2 or 4 bytes, and `Decode` proves those reads always get them. Only the type read can come up short, as `Truncated`, and only when `Decode` is called directly on fewer than 2 bytes.
- The catch-all `except Exception` (decode/dec.py:171-173): nothing in the modelled code can raise any other exception.
- The `0x` prefix on the EN identifier and on unknown-type data (decode/dec.py:124, 161): that is print formatting. The bytes are kept in the record, and `ToHex` renders them.
- decode/main.go: it calls a Go library whose source is not part of this model.

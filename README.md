# gotron legacy codec, modelled in Dafny

gotron answers the server-discovery queries of Armagetron Advanced clients
over the game's legacy UDP wire format. This project models the codec behind
those answers and proves properties of it:

- **The envelope.** `RawDataToLegacyMessage` splits a datagram into the
  descriptor id, the message id, the word count and the rest.
  `BuildLegacyPacket` writes the descriptor, a zero message id, the word
  count, the payload, a pad byte for an odd payload and a zero sender id.
- **The scalar encoders.**
  - `encodeInt32` writes a 32-bit word as two big-endian 16-bit words, low
    word first.
  - `encodeString` writes a length word, then packs the NUL-terminated bytes
    two to a signed 16-bit word.
  - `encodeReal` writes the REAL format: a 25-bit mantissa, the sign at bit
    25 and a 6-bit exponent above it.
- **The two server-info payloads.** `PacketLegacySmallServerInfo` and
  `PacketLegacyBigServerInfo` build the small and big replies.
- **The dispatch.** The descriptor switch of `handleLegacyMessage`, with
  `sendSmallServerInfo` and `sendBigServerInfo` minus the socket write.

Modules:

- `Bytes` (bytes.dfy): Go's `uint8`, `uint16` and `uint32` as integer
  subset types, `Option`, and `encoding/binary`'s big-endian 16-bit put and
  get.
- `Helper` (helper.dfy): internal/app/helper.go.
- `Legacy` (legacy.dfy): internal/app/legacy.go.
- `Server` (server.dfy): the dispatch in internal/app/server.go.

The source's imperative functions are Dafny methods written step by step as
Go writes them:

- `EncodeString` and `PacketLegacySmallServerInfo`: the packing loop;
- `EncodeReal`: the two scaling loops and the two clamps;
- `BuildLegacyPacket`: the appends and the `padded` flag;
- `PacketLegacyBigServerInfo`: one append per field, in the source's order;
  the eighteen fields after the name go onto a local run first, which is
  appended to the packet in one piece (same bytes, same order).

Each method is proved equal to a specification function:
`StringBytes`, `SmallServerInfoPayload`, `EncodeInt32(PackedReal(f))`,
`LegacyPacket` and `BigServerInfoPayload`. The properties are then proved
about those functions, against independent partners:

- inverse decoders of the encodings: `DecodeInt32`, `ParseString`
  (stricter than a plain reader: it rejects a zero length word and a missing
  terminator), and `RawDataToLegacyMessage` itself for the envelope;
- the value a REAL word stands for: `RealMagnitude`, `RealUlp`, `RealSign`.

Go's `uint16(...)` conversions, which wrap, are written out as `% 0x1_0000`.
The int16 arithmetic of the string packing is written out with `Int8`,
`Wrap16` and `ToUint16`. A `float32` is modelled as an exact `real`:
`encodeReal` only divides by 64 and by 2 and multiplies by 2^25, which is
exact in binary floating point. The literal `0.1` that the big reply encodes
is the float32 nearest to it, 13421773 / 2^27.

The code is followed wherever a description of the protocol says otherwise:

- **Minimum envelope length.** A datagram is rejected below 8 bytes (legacy.go:29),
  although the envelope needs only its 6 header bytes.
- **Exponent clamp.** It is dead code. The scaling loops stop at exponent 63
  (`ScaleFacts`), so the clamp at helper.go:85-90 never fires.
  `PackedRealParts` states that the word is packed from the unclamped
  exponent.
- **Saturation.** From 2^63 on it comes from the mantissa clamp at
  helper.go:80-82 alone (`RealSaturates`).

## Model

| member | source | states |
|---|---|---|
| Bytes.BE16 | internal/app/legacy.go:146-147 | PutUint16 writes two bytes, high byte first: r[0] * 256 + r[1] is the value |
| Bytes.Uint16At | internal/app/legacy.go:33-35 | binary.BigEndian.Uint16 of two bytes at an offset: high byte times 256 plus low byte; meaning given by the Bytes.Uint16AtBytes and Bytes.BE16RoundTrip rows |
| Bytes.Uint16AtBytes | internal/app/legacy.go:33-35 | the big-endian read of two bytes splits back into those two bytes (quotient and remainder by 256) |
| Bytes.BE16RoundTrip | internal/app/legacy.go:33-35 | reading a 16-bit word back from what PutUint16 wrote gives the value, whatever follows it |
| Helper.EncodeInt32 | internal/app/helper.go:8-13 | encodeInt32 always returns exactly four bytes |
| Helper.EncodeInt32Bytes | internal/app/helper.go:8-13 | the four bytes are bits 8-15, 0-7, 24-31, 16-23 of the value (low word first, each word big-endian); a value below 2^16, such as a port, has zero third and fourth bytes |
| Helper.EncodeInt32RoundTrip | internal/app/helper.go:10-11 | the inverse decoder DecodeInt32, reading (b0*256+b1) + 65536*(b2*256+b3) at the start of the encoding, whatever follows, gets the value back |
| Helper.EncodeInt32Injective | internal/app/helper.go:8-13 | distinct values have distinct encodings |
| Helper.Int8 | internal/app/helper.go:31-34 | int8(b): the byte as a two's-complement signed char; meaning given by the Helper.PackPairWord row |
| Helper.Wrap16 | internal/app/helper.go:37 | the int16 wrap-around of the shift hi << 8 and of the sum lo + (hi << 8); meaning given by the Helper.PackPairWord row |
| Helper.ToUint16 | internal/app/helper.go:37 | uint16(x) of an int16: its two's-complement bits read as unsigned; meaning given by the Helper.PackPairWord row |
| Helper.PackPair | internal/app/helper.go:31-37 | shortVal of one loop step, from data[i] and data[i+1] (0 past the end); meaning given by the Helper.PackPairWord and Helper.PackPairRoundTrip rows |
| Helper.PackPairWord | internal/app/helper.go:31-40 | the packed word is (int8(lo) + 256 * int8(hi)) mod 2^16; its low byte is lo; its high byte is hi when lo < 0x80 and hi - 1 mod 256 otherwise |
| Helper.PackPairRoundTrip | internal/app/helper.go:37-40 | the two big-endian bytes of a packed word determine the pair: UnpackPair recovers (lo, hi) |
| Helper.PackedWords | internal/app/helper.go:30-42 | what the packing loop appends from byte i on, one big-endian shortVal per pair; meaning given by the Helper.PackedWordsLength, Helper.PackedWordsAt and Helper.UnpackPackedWords rows |
| Helper.StringBytes | internal/app/helper.go:15-44 | the result of encodeString: the uint16 length word of s + [0], then the packed words; meaning given by the Helper.EncodeString, Helper.StringBytesLength, Helper.StringBytesWord, Helper.EmptyString and Helper.StringRoundTrip rows |
| Helper.EncodeString | internal/app/helper.go:15-44 | the loop (length word wrapped to uint16, one packed word per pair, a missing hi taken as 0) writes exactly StringBytes(s) |
| Helper.PackedWordsLength | internal/app/helper.go:30-42 | the loop from byte i writes the remaining bytes rounded up to whole words |
| Helper.PackedWordsAt | internal/app/helper.go:30-42 | word k of the loop's output packs data[i + 2k] and data[i + 2k + 1] (0 past the end) |
| Helper.StringBytesLength | internal/app/helper.go:17-42 | an encoded string is 2 + 2 * ceil((\|s\| + 1) / 2) bytes long, and for \|s\| + 1 < 2^16 its first word is \|s\| + 1 |
| Helper.StringBytesWord | internal/app/helper.go:30-41 | in word k of an encoded string, the second byte is data[2k] and the first byte is data[2k + 1], less one when data[2k] is negative as a signed char |
| Helper.EmptyString | internal/app/helper.go:17-42 | encodeString("") is [0, 1, 0, 0] |
| Helper.UnpackPackedWords | internal/app/helper.go:30-42 | unpacking the loop's words, followed by anything, gives back the packed bytes data[i..] |
| Helper.StringRoundTrip | internal/app/helper.go:15-44 | for \|s\| + 1 < 2^16 the inverse decoder ParseString, on an encoded string followed by anything, gives s back, with the size of the encoding |
| Helper.Pack | internal/app/helper.go:93 | the packed word holds mant mod 2^25 in bits 0-24, the sign in bit 25 and exp mod 64 in bits 26-31 |
| Helper.PackSum | internal/app/helper.go:93 | with the parts in range the OR is a sum, mant + sign * 2^25 + exp * 2^26, and each part reads back |
| Helper.ScaleCoarse | internal/app/helper.go:65-68 | the first loop of encodeReal: divide y by 64 and add 6 to exp while y >= 64 and exp < 58; meaning given by the Helper.ScaleFacts row |
| Helper.ScaleFine | internal/app/helper.go:71-74 | the second loop: halve y and add 1 to exp while y >= 1 and exp < 63; meaning given by the Helper.ScaleFacts row |
| Helper.Scale | internal/app/helper.go:62-74 | both loops from exp 0 on the magnitude; meaning given by the Helper.ScaleFacts, Helper.ScaleBelowTwoTo63, Helper.ScaleFromTwoTo63 and Helper.ScaledFitsMantissa rows |
| Helper.PackedReal | internal/app/helper.go:55-93 | the word trans that encodeReal packs: sign, both loops, uint32 conversion, both clamps, the OR; meaning given by the Helper.EncodeReal, Helper.PackedRealParts, Helper.PackedRealUnclamped, Helper.RealBracket, Helper.RealSaturates, Helper.RealMonotonic and Helper.RealSignSymmetry rows |
| Helper.EncodeReal | internal/app/helper.go:48-96 | the two scaling loops, the uint32 conversion, both clamps, the packing and encodeInt32 compute exactly EncodeInt32(PackedReal(f)) |
| Helper.ScaleFacts | internal/app/helper.go:64-74 | after both loops y * 2^exp is \|f\|, exp <= 63, y >= 1/2 when exp > 0, and y < 1 unless exp stopped at 63 |
| Helper.ScaleBelowTwoTo63 | internal/app/helper.go:64-74 | below 2^63 the loops leave y in [0, 1) and exp is the least exponent with \|f\| < 2^exp |
| Helper.ScaleFromTwoTo63 | internal/app/helper.go:64-74 | from 2^63 on the loops stop at exp 63 with y >= 1 |
| Helper.ScaledFitsMantissa | internal/app/helper.go:77 | below 2^70 the loops leave y < 128, so uint32(y * 2^25) is in range |
| Helper.PackedRealParts | internal/app/helper.go:76-93 | the word is packed from the clamped mantissa, the sign and the loops' exponent: the exponent clamp changes nothing |
| Helper.PackedRealUnclamped | internal/app/helper.go:76-93 | below 2^63 neither clamp fires: bits 0-24 are floor(y * 2^25) < 2^25 (>= 2^24 when exp > 0), bits 26-31 the loops' exponent, bit 25 the sign |
| Helper.RealBracket | internal/app/helper.go:55-93 | below 2^63 the word carries the sign, RealMagnitude(w) <= \|f\| < RealMagnitude(w) + RealUlp(w), and the exponent is the least with \|f\| < 2^exp |
| Helper.RealSaturates | internal/app/helper.go:77-90 | from 2^63 to 2^70 the word saturates: mantissa 2^25 - 1, exponent 63, the sign of f |
| Helper.PackedRealNegate | internal/app/helper.go:55-60 | for f > 0, bit 25 of f's word is clear and -f's word is f's word plus 2^25 |
| Helper.EncodeInt32SetBit25 | internal/app/helper.go:8-13 | setting a clear bit 25 of a word adds 2 to the third encoded byte and leaves the other three alone |
| Helper.RealSignSymmetry | internal/app/helper.go:55-95 | for f > 0, encodeReal(-f) is encodeReal(f) with 2 added to the third byte, the encoding of bit 25 |
| Helper.RealMonotonic | internal/app/helper.go:48-93 | for 0 <= f <= g below 2^70, the packed word of f is at most the packed word of g |
| Helper.RealZero | internal/app/helper.go:48-95 | encodeReal(0) packs to 0 and encodes to [0, 0, 0, 0] |
| Helper.RealOne | internal/app/helper.go:48-95 | encodeReal(1) packs to 0x05000000 and encodes to [0, 0, 0x05, 0] |
| Helper.RealHalf | internal/app/legacy.go:136 | encodeReal(0.5), the acceleration, packs to 0x01000000 and encodes to [0, 0, 1, 0] |
| Helper.RealTen | internal/app/legacy.go:139 | encodeReal(10), the walls length, packs to 0x11400000 and encodes to [0, 0, 0x11, 0x40] |
| Helper.RealFloat32Tenth | internal/app/legacy.go:135 | the float32 0.1 (13421773 / 2^27), the cycle delay, packs to 0x00333333 and encodes to [0x33, 0x33, 0, 0x33] |
| Legacy.RawDataToLegacyMessage | internal/app/legacy.go:28-43 | fails exactly on datagrams shorter than 8 bytes; on success the three header words, big-endian, and Data put back together are the datagram (so Data is data[6:], uncut) |
| Legacy.HeaderRoundTrip | internal/app/legacy.go:33-41 | decoding three written header words and at least two more bytes gives those words back and the rest as Data |
| Legacy.WordCount | internal/app/legacy.go:158-163 | below 0x1FFFF bytes the word count is ceil(n / 2): twice it is n plus n mod 2 |
| Legacy.Padding | internal/app/legacy.go:173-175 | one zero byte for an odd length, none for an even one |
| Legacy.LegacyPacket | internal/app/legacy.go:144-181 | the packet BuildLegacyPacket returns; meaning given by the Legacy.BuildLegacyPacket, Legacy.LegacyPacketLayout, Legacy.LegacyPacketRoundTrip and Server.ReplyDecodes rows |
| Legacy.WrappingIncrement | internal/app/legacy.go:158-161 | incrementing the uint16 word count after uint16(len / 2) wrapped is the same as wrapping len / 2 + 1, so the odd-length count is ceil(n / 2) mod 2^16 |
| Legacy.BuildLegacyPacket | internal/app/legacy.go:144-181 | the appends, the uint16 word count with its wrapping increment and the padded flag produce exactly LegacyPacket(descriptor, data) |
| Legacy.LegacyPacketLayout | internal/app/legacy.go:146-178 | the packet is 8 + n + n mod 2 bytes: descriptor, zero message id, word count ceil(n / 2) (below 0x1FFFF bytes), the payload, a zero pad for odd n, two zero bytes at the end |
| Legacy.LegacyPacketRoundTrip | internal/app/legacy.go:144-181 | decoding a built packet gives the descriptor, message id 0, the word count and, as Data, the payload, its pad and the zero sender id |
| Legacy.SmallServerInfoPayload | internal/app/legacy.go:45-96 | the small payload: the port, the hostname and a zero transaction number, each encoded; meaning given by the Legacy.PacketLegacySmallServerInfo and Legacy.SmallServerInfoRoundTrip rows |
| Legacy.PacketLegacySmallServerInfo | internal/app/legacy.go:45-96 | the inlined port words, length word, packing loop and zero transaction number produce exactly encodeInt32(port) + encodeString(hostname) + encodeInt32(0) |
| Legacy.SmallServerInfoRoundTrip | internal/app/legacy.go:50-93 | the small payload is 10 + 2 * ceil((\|hostname\| + 1) / 2) bytes, and the inverse decoders read back the port, the hostname and a zero transaction number |
| Legacy.BigServerInfoPayload | internal/app/legacy.go:98-142 | the big payload: the port, an empty hostname, the name, then the fixed fields; meaning given by the Legacy.PacketLegacyBigServerInfo, Legacy.BigServerInfoLayout and Legacy.BigServerInfoRoundTrip rows |
| Legacy.BigServerInfoTail | internal/app/legacy.go:108-139 | the eighteen fields after the name, in the source's order; meaning given by the Legacy.FixedWholeFields and Legacy.FixedFields rows |
| Legacy.PacketLegacyBigServerInfo | internal/app/legacy.go:98-142 | the appends in field order produce exactly BigServerInfoPayload(cfg) |
| Legacy.ReleaseVersionBytes | internal/app/legacy.go:114 | "0.2.9.2.3" encodes to [0, 10, 46, 48, 46, 50, 46, 57, 46, 50, 0, 51] |
| Legacy.FixedWholeFields | internal/app/legacy.go:108-132 | the thirteen integer and string fields after the name encode to fixed bytes |
| Legacy.FixedFields | internal/app/legacy.go:108-139 | all eighteen fields after the name, the five REALs included, encode to one fixed 80-byte tail |
| Legacy.BigServerInfoLayout | internal/app/legacy.go:98-142 | the big payload is encodeInt32(port), [0, 1, 0, 0], encodeString(name) and the fixed tail: it depends only on the port and the name |
| Legacy.BigServerInfoRoundTrip | internal/app/legacy.go:101-106 | the big payload is 90 + 2 * ceil((\|name\| + 1) / 2) bytes; the inverse decoders read back the port, an empty hostname and the name, and the last 80 bytes are the fixed tail |
| Server.Response | internal/app/server.go:55-79 | a datagram gets a reply exactly when it is at least 8 bytes long with descriptor 52 or 53; 52 gets the SmallServerInfo packet, 53 the BigServerInfo packet |
| Server.HandleLegacyMessage | internal/app/server.go:55-79 | decoding, giving up on an error and switching on the descriptor yields exactly Response(cfg, data) |
| Server.SendSmallServerInfo | internal/app/server.go:81-88 | the packet written is BuildLegacyPacket(50, the small payload) |
| Server.SendBigServerInfo | internal/app/server.go:90-103 | the packet written is BuildLegacyPacket(51, the big payload) |
| Server.ResponseDecodes | internal/app/server.go:66-78 | every reply has even length and decodes with message id 0 and descriptor 50 (for 52) or 51 (for 53) |
| Server.ReplyDecodes | internal/app/legacy.go:144-181 | any built packet has even length and decodes with its descriptor and message id 0 |
| Server.DefaultSmallPayload | cmd/gotron/main.go:14-19 | for the configured server (port 4534, empty hostname) the small payload is [0x11, 0xB6, 0, 0, 0, 1, 0, 0, 0, 0, 0, 0] |
| Server.DefaultSmallPacket | internal/app/server.go:81-88 | for the configured server the packet written is the 20 bytes [0, 50, 0, 0, 0, 6, 0x11, 0xB6, 0, 0, 0, 1, 0, 0, 0, 0, 0, 0, 0, 0] |
| Server.DefaultSmallReply | internal/app/server.go:66-69 | a GetSmallServerInfo datagram to the configured server is answered with those 20 bytes |

## Left out

- The UDP socket, the receive loop, `WriteToUDP` and the goroutine per
  datagram (internal/app/server.go:26-53, 84, 97): network I/O and
  concurrency. A reply is modelled as the bytes that would be written.
- Logging, both in server.go and the debug `fmt.Printf` at
  internal/app/helper.go:20. It has no effect on the bytes written.
- The text of the decode error (internal/app/legacy.go:30): the failure is
  `None`.
- cmd/gotron/main.go's startup. Only its configuration values appear, in
  the Default* lemmas.
- `encodeReal` on NaN, on the infinities and on magnitudes of 2^70 or more.
  Go's float-to-uint32 conversion at helper.go:77 is then out of range and
  implementation-defined. `PackedReal` and `EncodeReal` require
  |f| < 2^70; between 2^63 and 2^70 the conversion is still in range and
  the word saturates.
- `float32` rounding: inputs are exact reals. This is faithful for every
  float32 input, because the scaling is by powers of two.
- Go strings are their bytes; no UTF-8 decoding is modelled.
- WordCount, LegacyPacketLayout: the word count is stated only below
  0x1FFFF payload bytes. Beyond that the uint16 wraps; the function models
  the wrap, but no contract describes it.
- StringBytesLength, StringRoundTrip, SmallServerInfoRoundTrip,
  BigServerInfoRoundTrip: the length word and the decoding are stated only
  for strings whose length plus terminator is below 2^16. Longer strings
  wrap the length word, which the functions model.
- RealMonotonic: stated for inputs below 2^70 only, as the encoding itself.

# An acoustic Ethernet-like link: frame codec and receiver

This project models the core of a small program that sends short text messages
as sound. The model covers two parts.

**The frame codec** (`ethernet_frame.py`).
- An encoder renders a source address, a destination address and a text
  payload as a string of bits.
- The frame is a 56-bit alternating preamble, the start frame delimiter
  `10101011`, and then the 4B/5B line coding of the data block followed by the
  block's CRC-32.
- The data block is a 48-bit destination, a 48-bit source, a 16-bit payload
  length and eight bits per payload character.
- A decoder takes such a string apart, checks the CRC, and prints
  `source destination payload`, or `Not valid message.` when anything at all
  goes wrong.

**The receiver** (`receiver.py`).
- It turns each received frequency into a bit when the frequency lies within
  a margin of one of the two tones.
- It watches for the end of the preamble, then collects the frame bits.
- The first silent reading ends the frame, which is handed to the decoder
  without a preamble.

The Dafny modules are:

- `Wrappers`: `Option` and `Result`.
- `Binary`: bit strings.
  - `get_bits` is `GetBits`, proved against the function `BitsOf`.
  - `int(text, 2)` is `ParseBin`.
  - `get_bytes` is `GetBytes`.
  - `get_hash` is `GetHash`.
  - Python's slicing, which clamps at the end of the text, is `Take` and `Drop`.
- `Crc32`: the CRC-32 of IEEE 802.3 section 3.2.9, in its bit-reflected form.
- `Utf8`: strict UTF-8 decoding, following Table 3-7 of the Unicode Standard.
- `LineCode`: the two 4B/5B tables.
  - `four_to_five` is `FourToFive`, and `five_to_four` is `FiveToFour`.
  - Each is a method with a loop, proved against a recursive function.
- `EthernetFrame`: `Encoder` and `Decoder`.
  - The result of `Decoder(...)` is modelled as a value: a `Result<Decoded, DecodeError>`.
  - The constructor's steps are the methods `DecodeFrame`, `ReadFields` and
    `ReadBody`, proved against `DecodeFrameSpec`.
- `Rx`: the receiver.
  - The loop body is the function `Step` on a record of the receiver's four
    fields.
  - The `Receiver` class has those fields as mutable state.
  - Its methods are proved to change them exactly as `SyncStep`,
    `PreambleStep` and `Listening` say.

Each Python exception becomes a `DecodeError`:

| Python | `DecodeError` |
|---|---|
| `KeyError` in `five_to_four` | `InvalidCodeword` |
| `ValueError` from `int('', 2)` | `NotANumber` |
| `OverflowError` from `to_bytes` | `ByteOverflow` |
| `UnicodeDecodeError` | `NotUtf8` |
| the "Wrong hash" exception | `WrongHash` |

`Decode` turns every one of them into `"Not valid message."`, as the bare
`except:` does.

Behaviour of the code that the model keeps:
- The preamble ends once the buffer holds more than ten bits
  (`len(self.bits) > 10`).
- Every decoding failure becomes the one text `"Not valid message."`. The
  model keeps the kinds in `DecodeFrameSpec` and collapses them in
  `DecodeText`, as `decode` does.
- Oversized addresses and lengths are silently truncated to their field width
  (modulo 2^48, or 2^16), not rejected.
- `HiRoundTrip` is an example: source 0, destination 1 and payload `hi`
  decode to `0 1 hi`.

## Model

| member | source | states |
|---|---|---|
| Binary.GetBits | ethernet_frame.py:10-17 | returns exactly `8*byte_size` bits, all `0`/`1`, whose binary value is `number mod 2^(8*byte_size)` (Python's floor `//` and `%`, so also for negative numbers), and equals `BitsOf` |
| Binary.BitsOfValue | ethernet_frame.py:10-17 | the value of the `w` low bits of `x` is `x mod 2^w` |
| Binary.BitsOfMod | ethernet_frame.py:10-17 | `get_bits` only sees `x mod 2^w`: wrap-around of oversized fields |
| Binary.BitsOfValueOf | ethernet_frame.py:10-17 | rendering the value of a bit string at its own width gives the string back |
| Binary.ParseBin | ethernet_frame.py:6 | on texts of `0`s and `1`s, `int(text, 2)` succeeds exactly when the text is non-empty and raises ValueError on the empty text, and its value rendered at the text's width is the text |
| Binary.ParseBinOfBits | ethernet_frame.py:6 | `int(·, 2)` reads back what `get_bits` wrote: `x mod 2^w`, and `x` itself when in range |
| Binary.Take | ethernet_frame.py:160 | a slice `text[0:n]` has at most `n` characters and never more than the text |
| Binary.Drop | ethernet_frame.py:131 | `text[n:]` is what follows `text[0:n]`: the two rejoin to the text |
| Binary.GetBytes | ethernet_frame.py:4-7 | an empty text raises ValueError; on success gives `len//8` bytes whose big-endian value is the bits' value; a non-empty whole number of binary bytes always succeeds |
| Binary.BytesOfValue | ethernet_frame.py:7 | `to_bytes(k, 'big')` of `n` denotes `n mod 2^(8k)` |
| Binary.BytesOfBigEndian | ethernet_frame.py:7 | `to_bytes` inverts big-endian reading of `k` bytes |
| Binary.BytesToBitsValue | ethernet_frame.py:4-7 | the bits of a byte string denote its big-endian value |
| Binary.GetBytesOfBytesToBits | ethernet_frame.py:4-7 | `get_bytes` recovers any non-empty byte string from its bits |
| Binary.GetHash | ethernet_frame.py:20-22 | the hash exists exactly when `get_bytes` succeeds and is below 2^32 (the `& 0xffffffff`) |
| Utf8.DecodeOne | ethernet_frame.py:176 | a well-formed UTF-8 sequence takes one to four bytes, and one byte exactly when the lead byte is ASCII |
| Utf8.Decode | ethernet_frame.py:176 | strict `bytes.decode()` yields at most one character per byte |
| Utf8.DecodeAscii | ethernet_frame.py:176 | an all-ASCII byte string decodes, character for character, to the characters with those codes |
| LineCode.EncodeNibble | ethernet_frame.py:28-45 | every four-bit string is a key of the encoding table; its code-group is five bits and decodes back to it |
| LineCode.DecodeGroup | ethernet_frame.py:104-120 | every code-group is five bits and decodes to a nibble the encoding table maps back to it |
| LineCode.EncodingKeys | ethernet_frame.py:28-45 | the encoding table's keys are exactly the sixteen four-bit strings |
| LineCode.TablesInverse | ethernet_frame.py:104-120 | the decoding table is the exact inverse of the encoding table, in both directions |
| LineCode.DecodeGroupLength | ethernet_frame.py:182-183 | a short trailing group is never a code-group |
| LineCode.FourToFiveSpec | ethernet_frame.py:92-98 | the coding of `4n` bits is `5n` bits, all `0`/`1` |
| LineCode.FourToFive | ethernet_frame.py:92-98 | the loop appends the code-group of each nibble in order, giving `FourToFiveSpec` |
| LineCode.FiveToFourSpec | ethernet_frame.py:178-184 | on success the input has `5n` bits and the result `4n` bits; on failure the offending group is not a code-group |
| LineCode.FiveToFour | ethernet_frame.py:178-184 | the loop, stopping with a KeyError at the first group that is not a code-group, gives `FiveToFourSpec` |
| LineCode.FiveToFourSucceeds | ethernet_frame.py:178-184 | decoding succeeds if and only if the length is a multiple of five and every five-bit group is a code-group |
| LineCode.FiveToFourOfFourToFive | ethernet_frame.py:92-98 | `five_to_four(four_to_five(bits)) == bits` |
| LineCode.FourToFiveOfFiveToFour | ethernet_frame.py:178-184 | whenever `five_to_four(m)` succeeds, `four_to_five` of its result is `m` |
| LineCode.FiveToFourAppend | ethernet_frame.py:178-184 | decoding a concatenation whose first part decodes is that part's nibbles followed by the decoding of the rest |
| EthernetFrame.GetAlternatingBinary | ethernet_frame.py:73-80 | `size` bits, `1` at even and `0` at odd positions |
| EthernetFrame.GetPreamble | ethernet_frame.py:82-84 | 56 alternating bits starting with `1` |
| EthernetFrame.GetFrameDelimiter | ethernet_frame.py:86-90 | exactly `10101011` |
| EthernetFrame.PayloadBits | ethernet_frame.py:66-71 | eight bits per character, all `0`/`1` |
| EthernetFrame.ConvertToBits | ethernet_frame.py:66-71 | the loop gives `PayloadBits` |
| EthernetFrame.PayloadBitsAreBytes | ethernet_frame.py:66-71 | the payload bits are the bits of the byte string of character codes modulo 256 |
| EthernetFrame.DataBits | ethernet_frame.py:52 | the data block is `112 + 8*len(payload)` bits, a whole number of bytes, all `0`/`1` |
| EthernetFrame.HashBits | ethernet_frame.py:53 | the rendered checksum is 32 bits |
| EthernetFrame.Encode | ethernet_frame.py:47-64 | the frame of `Encoder.__init__`/`encode`, of length `64 + 5*(144 + 8*len(payload))/4` |
| EthernetFrame.FrameLayout | ethernet_frame.py:55-58 | frame layout: 62 alternating bits from `1`, then `11`, so bits 56-63 are `10101011`; after bit 64 the 4B/5B code of data block and hash; total length as above |
| EthernetFrame.FrameHead | ethernet_frame.py:55-56 | preamble and delimiter together are 64 bits, alternating up to bit 61, then `11` |
| EthernetFrame.FrameTail | ethernet_frame.py:57-58 | the line-coded part starts at bit 64 and the frame is `244 + 10*len(payload)` bits |
| EthernetFrame.ReadField | ethernet_frame.py:158-171 | a field read succeeds exactly when the slice is non-empty binary; its value is below `2^width` and renders back to the slice |
| EthernetFrame.ReadFieldOfBits | ethernet_frame.py:158-171 | reading a field from the front of `get_bits` output recovers the value modulo `2^width`, and slicing leaves the rest |
| EthernetFrame.GetMessage | ethernet_frame.py:173-176 | a zero length or an empty remainder raises (`int('', 2)`); a decoded payload has at most `length` characters |
| EthernetFrame.GetMessageOfPayload | ethernet_frame.py:173-176 | a non-empty ASCII payload is recovered from its bits whatever follows them, and the slicing leaves exactly what follows |
| EthernetFrame.CheckHash | ethernet_frame.py:186-189 | the check passes exactly when the remaining text is 32 characters and parses to the CRC-32 of the data block |
| EthernetFrame.FrameHashChecks | ethernet_frame.py:186-189 | the hash the encoder appends passes the check |
| EthernetFrame.DecodeFrame | ethernet_frame.py:122-127 | `Decoder.__init__`: strip 64 bits when asked, undo the line code, read the fields (`DecodeFrameSpec`) |
| EthernetFrame.ReadFields | ethernet_frame.py:129-140 | the header fields sliced off in turn while the data block is collected (`FieldsSpec`) |
| EthernetFrame.ReadBody | ethernet_frame.py:141-146 | payload, hash as the whole remainder, then the check (`BodySpec`) |
| EthernetFrame.Decimal | ethernet_frame.py:153 | `str(n)` is a non-empty text of decimal digits, with no leading zero unless `n` is 0 |
| EthernetFrame.DecimalOfValue | ethernet_frame.py:153 | the digits `str(n)` prints, read most significant first, denote `n` |
| EthernetFrame.DecimalInjective | ethernet_frame.py:153 | different numbers print as different texts |
| EthernetFrame.ShowInjective | ethernet_frame.py:153-154 | the joined text determines the source, the destination and the payload |
| EthernetFrame.Decode | ethernet_frame.py:148-156 | `decode` gives `DecodeText`, which is `"Not valid message."` if and only if decoding failed |
| EthernetFrame.DecodeTextFails | ethernet_frame.py:151-156 | the printed triple can never be mistaken for the failure text, and vice versa |
| EthernetFrame.FieldsOfData | ethernet_frame.py:129-140 | the header of an encoded data block reads back as the addresses modulo 2^48 and the payload length |
| EthernetFrame.BodyOfPayload | ethernet_frame.py:141-146 | after the header, a non-empty ASCII payload followed by its hash decodes to that payload, data block and hash |
| EthernetFrame.FrameLineCode | ethernet_frame.py:122-127 | stripping the preamble and undoing the line code of a frame gives data block plus hash |
| EthernetFrame.DecodeEncoded | ethernet_frame.py:122-146 | the decoder recovers every field of an encoded frame with a payload of 1 to 65535 ASCII characters, addresses modulo 2^48 |
| EthernetFrame.RoundTrip | ethernet_frame.py:148-156 | `decode(encode(s, d, p)) == "s d p"` for `0 <= s, d < 2^48` and a payload of 1 to 65535 ASCII characters |
| EthernetFrame.HiRoundTrip | ethernet_frame.py:148-156 | source 0, destination 1, payload `hi` decodes to `0 1 hi` |
| EthernetFrame.HiText | ethernet_frame.py:153-154 | the joined text of the example is `0 1 hi` |
| EthernetFrame.EmptyPayloadRejected | ethernet_frame.py:173-176 | an encoded frame with an empty payload fails with ValueError and decodes to `"Not valid message."` |
| EthernetFrame.TrailingBitsRejected | ethernet_frame.py:143-146 | any bits appended to an encoded frame make it invalid: a broken line code, or a hash field longer than 32 bits |
| EthernetFrame.TrailingLineCode | ethernet_frame.py:127 | the line code of a frame with bits appended is data block and hash followed by whatever the appended bits decode to |
| EthernetFrame.DecodeWithoutPreamble | ethernet_frame.py:123-124 | decoding with the preamble equals decoding what follows bit 64 without it |
| EthernetFrame.BadLineCodeRejected | ethernet_frame.py:178-184 | a group that is not a code-group, or a short last group, makes decoding fail |
| Rx.InRange | receiver.py:83-88 | in range if and only if within the margin of either tone, both bounds inclusive |
| Rx.HertzToBit | receiver.py:90-94 | `0` if and only if within the low window (the low window wins on overlap); a `1` in range is within the high window |
| Rx.ToneWindows | receiver.py:83-94 | with separate windows, each tone gives its bit, both window edges are accepted, and one hertz beyond an outer edge is rejected |
| Rx.Step | receiver.py:24-29 | per in-range reading: synced becomes true exactly at a `1`; the preamble is started; it ends exactly when started, not ended, and the buffer closes the preamble; the buffer then restarts with the new bit, and otherwise gains it |
| Rx.Receiver.constructor | receiver.py:14-19 | not synced, no bits, preamble neither started nor ended |
| Rx.Receiver.HandleSyncingPlayer | receiver.py:36-39 | sets synced at the first `1` (`SyncStep`) |
| Rx.Receiver.HandlePreamble | receiver.py:41-50 | starts the preamble, or ends it (clearing the buffer) after more than ten bits ending in `11` (`PreambleStep`) |
| Rx.Receiver.Listen | receiver.py:21-34 | `listen`'s final fields and outcome are `Listening` of its readings |
| Rx.ListeningStops | receiver.py:21-34 | listening stops at the first out-of-range reading once bits are buffered, and decodes exactly those bits, once, with `with_preamble=False` |
| Rx.ListeningContinues | receiver.py:21-34 | while no reading ends it, listen only absorbs readings |
| Rx.RunSynced | receiver.py:36-39 | after any readings, synced holds if and only if it held before or some reading in range gave a `1` |
| Rx.RunStarted | receiver.py:41-44 | the preamble is started if and only if it was before or some reading was in range |
| Rx.RunAfterPreamble | receiver.py:45-50 | once ended, the preamble stays ended and the buffer is never cleared again: every later in-range bit is appended |
| Rx.FirstToneStartsPreamble | receiver.py:41-44 | the first in-range reading only starts the preamble; its bit is the whole buffer |
| Rx.PreambleEndKeepsTrigger | receiver.py:45-50 | when the preamble ends, the buffer holds only the bit of the ending reading |
| Rx.PreambleOpen | receiver.py:45-47 | no prefix of the first 63 frame bits ends the preamble |
| Rx.PreambleRun | receiver.py:41-50 | during a frame's first 64 bits the buffer holds every bit so far and nothing ends |
| Rx.BodyRun | receiver.py:45-50 | after bit 64 of a frame the buffer holds exactly the bits from 64 on |
| Rx.ReceiveFrame | receiver.py:21-34 | a frame carried tone by tone, then silence, is decoded as the whole frame with its preamble |
| Rx.ReceiveEncoded | receiver.py:21-34 | the tones of an encoded frame, then silence, make listen print `source destination payload` |

## Left out

- `get_hertz` (receiver.py:52-67): reading audio and the FFT are floating point
  and I/O. The receiver reads a given sequence of integer frequencies instead.
- `sync_player` (receiver.py:69-81): the clock alignment acts on audio samples.
  `HandleSyncingPlayer` keeps only its effect on `synced`.
- `Rx.Receiver.Listen`:
  - It does not model blocking forever when the readings run out; it returns
    `StillListening` instead.
  - It does not model the print of the buffer after each bit, or the two
    preamble prints.
- `sender.py`, the command-line parsing and `main` in receiver.py, and the
  configuration constants are left out: they are I/O and configuration.
  `FREQ_ZERO`, `FREQ_ONE` and `ACCEPTED_MARGIN` are the parameters in `Tones`.
- `binascii.crc32` is foreign code. `Crc32.Checksum` is the IEEE 802.3
  section 3.2.9 CRC in its own right, with no proof of equivalence to the
  library. No lemma depends on more than its being a function of the bytes.
- `Binary.ParseBin`: does not accept the signs, the `0b`/`0B` prefix, the
  underscores and the surrounding whitespace that Python's `int(text, 2)`
  also accepts, because the decoder
  only ever hands it `0`/`1` text taken from the line decoder's output.
- `LineCode.FourToFive` requires a whole number of binary nibbles. Its only
  caller, the Encoder, always passes one, so the KeyError it would raise on
  other input is not modelled.
- `Utf8.Decode`: the round trip is proved for ASCII payloads only. Other
  characters are encoded modulo 256 by `get_bits(1, ord(c))` and generally do
  not survive; the model states no more about them.
- Dafny's `char` is a Unicode scalar value, so lone surrogates, which Python
  strings can hold, do not arise in the model.
- `Encoder` and `Decoder` are not classes in the model. Their attributes are
  written once in the constructor and never changed, so they are locals of
  `Encode` and `DecodeFrame` and fields of the value `Decoded`.

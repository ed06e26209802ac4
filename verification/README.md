# Duck-image payload recovery, modelled in Dafny

The web back end of the duck-image tool recovers a byte payload hidden in the
low bits of an RGB carrier image. It runs in four steps. This project models
each of them as pure Dafny functions and proves what they promise.

1. **Watermark mask.** A top-left rectangle of the carrier carries no bits.
   It is `floor(W * 40 / 100)` pixels wide and `floor(H * 8 / 100)` pixels
   high. It exists only when both sides are positive (module `Watermark`).
2. **Bit-plane extractor** (`_extract_payload_with_k`, module `BitPlane`).
   - It visits the channel bytes outside the rectangle in row-major,
     channel-minor order.
   - It reads the low `k` bits of each byte, most significant first.
   - It reads the first 32 bits as a big-endian header length, then cuts
     that many bytes out of the bits behind them.
3. **Header parser** (`_parse_header`, module `Header`).
   - The fields are: flag byte, optional 32-byte password digest and 16-byte
     salt, `ext_len` and `ext`, then a big-endian u32 `data_len` and the data.
   - A truncated field, a data-length mismatch, a missing password and a
     wrong password each have their own error. All four truncation checks
     raise the same "Header corrupted." error.
   - A locked header's data is XOR-ed with the key stream.
4. **Key stream** (`_generate_key_stream`, module `KeyStream`). It
   concatenates SHA-256 blocks of `password ++ hex(salt) ++ decimal(counter)`
   and cuts the result to the requested length.

Module `Decoder` models the `decode` route's loop. It tries depths 2, 6 and 8,
keeps the first payload that parses and otherwise re-raises the last error.
It also models the `rstrip(b"\x00")` applied to recovered video bytes.

Supporting modules:
- `Bytes`: bits and bytes, `numpy.packbits`/`unpackbits`, `struct` `">I"`, and
  byte-wise XOR defined bit by bit.
- `Arith`: the multiplication, division and remainder facts the bit and
  pixel arithmetic rests on.
- `Outcomes`: one `Error` constructor per message the code raises, plus
  `Result` and `Option`.

Modelling choices:
- SHA-256 is the parameter `hash: Hasher`. A `Hasher` is any function from
  byte strings to 32-byte digests. No property here depends on its internals.
- A password is modelled as its UTF-8 bytes. The empty string is exactly the
  empty byte string, and encoding `password + salt.hex()` is the same as
  concatenating the encodings.
- The carrier is its dimensions plus its row-major, channel-minor byte
  buffer, with three channels per pixel.
- The parser walks the buffer from the front. Each bounds check compares what
  is left with what the next field needs, which is the comparison the code
  makes between `len(header)` and its running index.
- The three attempts of the decode loop are pure. `Decoder.FirstSuccess`
  therefore takes their results as a sequence, and its `tried` count records
  how many the loop looks at before it breaks.

Two behaviours of the code are worth knowing. Both are proved:
- The open header for data `"hello"` with extension `"txt"` is 14 bytes
  long: flag, `ext_len`, three extension bytes, four length bytes and five
  data bytes (`Header.HelloTxt`). Dropping the last byte gives a length
  mismatch (`Header.HelloTxtTruncated`).
- Nothing protects the data bytes. Replacing the data of an open header with
  other bytes of the same length still parses, and returns the replacement
  (`Header.DataTamperUndetected`). A locked header's digest covers only the
  password and salt, not the ciphertext: a replaced ciphertext still unlocks
  with the password and comes back XOR-ed with the key stream
  (`Header.LockedTamperUndetected`).

## Model

| member | source | states |
|---|---|---|
| `Watermark.Mask` | web_backend/app.py:18-28 | the mask has the carrier's shape, and a pixel is left out exactly when it lies in the reserved rectangle |
| `Watermark.SkipW` | web_backend/app.py:23 | `int(w * 0.40)` is the largest s with `100 * s <= 40 * w`, and never exceeds w |
| `Watermark.SkipH` | web_backend/app.py:24 | `int(h * 0.08)` is the largest s with `100 * s <= 8 * h`, and never exceeds h |
| `Watermark.RegionFits` | web_backend/app.py:23-27 | the reserved rectangle never reaches past the image, and it removes at most `H * W` pixels |
| `Watermark.ReservedIff` | web_backend/app.py:23-26 | a rectangle is reserved exactly when the carrier is at least 13 pixels high and 3 wide |
| `Watermark.ThousandByFiveHundred` | web_backend/app.py:18-27 | on a 1000 x 500 carrier the reserved rectangle is rows 0-39 by columns 0-399 |
| `Bytes.LowBits` | web_backend/app.py:31-32 | the n-bit big-endian form of x has length n and reads back as `x mod 2^n` |
| `Bytes.LowBitsAt` | web_backend/app.py:32 | bit j of the n-bit form of x is bit n-1-j of x |
| `Bytes.LowBitsOfValue` | web_backend/app.py:32 | every bit string is the n-bit form of its own value |
| `Bytes.BitsValueAppend` | web_backend/app.py:37-38 | the value of `a + b` is `value(a) * 2^len(b) + value(b)` |
| `Bytes.PackBytes` | web_backend/app.py:43 | packing 8n bits yields n bytes |
| `Bytes.PackBytesAt` | web_backend/app.py:43 | byte m of the packed bits is bits `[8m, 8m+8)` read most significant first |
| `Bytes.UnpackBytes` | web_backend/app.py:32 | unpacking n bytes yields 8n bits |
| `Bytes.UnpackAppend` | web_backend/app.py:32 | unpacking distributes over concatenation |
| `Bytes.PackUnpack` | web_backend/app.py:37 | packing the bits of a byte string gives the byte string back |
| `Bytes.UnpackPack` | web_backend/app.py:42-43 | unpacking packed bits gives the bits back |
| `Bytes.U32BE` | web_backend/app.py:38 | `">I"` reads four bytes as a number below 2^32 |
| `Bytes.U32Bytes` | web_backend/app.py:73 | the four-byte big-endian form of n reads back as n |
| `Bytes.U32BytesOfValue` | web_backend/app.py:73 | any four bytes are the big-endian form of their own value |
| `Bytes.U32OfBits` | web_backend/app.py:36-38 | packing 32 bits and reading `">I"` gives the value of the 32 bits |
| `Bytes.ValueOfFourBytes` | web_backend/app.py:36-38 | thirty-two bits read as one number are their four bytes in base 256 |
| `Bytes.XorBitSeqTwice` | web_backend/app.py:85 | XOR-ing a bit string twice with the same key bits gives it back |
| `Bytes.XorByte` | web_backend/app.py:85 | the bits of `a ^ b` are the bitwise XOR of the bits of a and b |
| `Bytes.XorBytes` | web_backend/app.py:85 | zip stops at the shorter input, and byte i of the result is `x[i] ^ y[i]` |
| `Bytes.XorInvolution` | web_backend/app.py:84-85 | XOR with a key stream at least as long as the data, applied twice, restores the data |
| `Bytes.XorByteTwice` | web_backend/app.py:85 | `(a ^ b) ^ b == a` |
| `Bytes.ByteOfBits` | web_backend/app.py:85 | two bytes with the same eight bits are equal |
| `BitPlane.RepeatEach` | web_backend/app.py:28 | repeating every flag ch times multiplies the length by ch |
| `BitPlane.RepeatEachAt` | web_backend/app.py:28 | position `c * ch + j` of the repeated row holds flag c |
| `BitPlane.FlatMask` | web_backend/app.py:28-30 | the flattened mask has `H * W * ch` entries |
| `BitPlane.FlatMaskAt` | web_backend/app.py:28-30 | entry `(r * W + c) * ch + j` of the flattened mask is the flag of pixel (r, c) |
| `BitPlane.Select` | web_backend/app.py:30-31 | the selection keeps one value per set flag |
| `BitPlane.SelectAt` | web_backend/app.py:30-31 | a kept value at position p lands at the index equal to the number of set flags before p |
| `BitPlane.SelectIgnoresCleared` | web_backend/app.py:30-31 | values whose flag is clear do not affect the selection |
| `BitPlane.SelectAll` | web_backend/app.py:30-31 | with every flag set, the selection is the whole buffer |
| `BitPlane.CarrierMask` | web_backend/app.py:25-30 | the carrier's flat mask has one flag per channel byte |
| `BitPlane.ChannelIncluded` | web_backend/app.py:25-30 | a channel byte carries bits exactly when its pixel lies outside the reserved rectangle, and all three channels share that |
| `BitPlane.ChannelBits` | web_backend/app.py:31-32 | a channel byte contributes k bits, bit j being bit k-1-j of the byte |
| `BitPlane.ChannelBitsAreLowBits` | web_backend/app.py:31-32 | masking, unpacking and keeping the last k bits is the k-bit big-endian form of the byte |
| `BitPlane.BitStream` | web_backend/app.py:31-33 | the stream has k bits per included channel byte |
| `BitPlane.BitStreamAt` | web_backend/app.py:31-33 | bit `i * k + j` of the stream is bit k-1-j of the i-th included byte |
| `BitPlane.CarrierBitAt` | web_backend/app.py:21-33 | the k-bit group of channel ch of an included pixel starts at k times the number of included bytes before it, and holds that byte's low bits |
| `BitPlane.IncludedBytes` | web_backend/app.py:25-31 | the selected channel bytes number three per pixel outside the reserved rectangle: `3 * (H * W - excluded pixels)` |
| `BitPlane.CarrierBits` | web_backend/app.py:29-33 | the carrier's bit stream at depth k has k bits for each of those bytes |
| `BitPlane.MaskRowCount` | web_backend/app.py:25-27 | a mask row holds W open pixels, less the rectangle's width in the first `skip_h` rows |
| `BitPlane.MaskPrefixCount` | web_backend/app.py:25-30 | the first n mask rows flatten to three flags per open pixel among them |
| `BitPlane.ReservedRegionIgnored` | web_backend/app.py:21-43 | two carriers of one size that agree outside the reserved rectangle give the same extraction result at every depth |
| `BitPlane.SmallCarrierUsesEveryByte` | web_backend/app.py:26-31 | when no rectangle is reserved, every channel byte is read |
| `BitPlane.CutHeader` | web_backend/app.py:34-43 | InsufficientData exactly when fewer than 32 bits are available; LengthInvalid exactly when the length is 0 or overruns the bits; on success `header_len` bytes whose bits are those after the prefix |
| `BitPlane.LengthPrefix` | web_backend/app.py:36-38 | the packed, `">I"`-read prefix is the value of the first 32 bits |
| `BitPlane.PackRange` | web_backend/app.py:42-43 | packing a range yields `count` bytes whose bits are that range |
| `BitPlane.PackRangeAt` | web_backend/app.py:42-43 | byte m of a packed range is the m-th group of eight bits after its start |
| `BitPlane.CutHeaderByteAt` | web_backend/app.py:39-43 | byte m of an extracted header is bits `[32+8m, 40+8m)` read most significant first |
| `BitPlane.ExtractPayload` | web_backend/app.py:21-43 | InsufficientData exactly when the stream has fewer than 32 bits; LengthInvalid exactly when the length prefix is 0 or runs past the bits; a returned header is non-empty, below 2^32 bytes, and its length-prefixed frame opens the bit stream |
| `BitPlane.ExtractIffFramed` | web_backend/app.py:21-43 | extraction returns h exactly when h is non-empty, fits in 32 bits of length, and its length-prefixed frame opens the carrier's bit stream |
| `BitPlane.CutFramed` | web_backend/app.py:34-43 | a stream that opens with the frame of a non-empty header yields that header |
| `BitPlane.CutIsFramed` | web_backend/app.py:34-43 | a header cut from a stream had its frame at the front of the stream |
| `BitPlane.FramedParts` | web_backend/app.py:36-42 | a frame at the front splits into the 32 length bits and the header bits behind them |
| `BitPlane.LengthFieldBytes` | web_backend/app.py:36-38 | a length prefix n means the stream opens with the 32 bits of n's big-endian form |
| `KeyStream.HexDigit` | web_backend/app.py:46 | a nibble's digit is one of the ASCII characters `0-9a-f` |
| `KeyStream.Hex` | web_backend/app.py:46 | `salt.hex()` has two characters per byte |
| `KeyStream.UnHexHex` | web_backend/app.py:46 | reading the hex form back yields the salt |
| `KeyStream.HexInjective` | web_backend/app.py:46 | distinct salts have distinct hex forms |
| `KeyStream.Decimal` | web_backend/app.py:50 | `str(counter)` is non-empty ASCII digits without a leading zero |
| `KeyStream.DecimalValueOf` | web_backend/app.py:50 | reading the decimal form back yields the counter |
| `KeyStream.DecimalInjective` | web_backend/app.py:50 | distinct counters give distinct block inputs |
| `KeyStream.KeyMaterial` | web_backend/app.py:46 | the key material is the password followed by text that reads back, as hex, to the salt, two characters per salt byte |
| `KeyStream.KeyMaterialInjective` | web_backend/app.py:46 | for one password, distinct salts give distinct key material |
| `KeyStream.PasswordDigest` | web_backend/app.py:81-83 | the digest the password is checked against, which a locked header stores: SHA-256 of the key material |
| `KeyStream.Blocks` | web_backend/app.py:49-51 | n blocks hold `32 * n` bytes |
| `KeyStream.BlocksAt` | web_backend/app.py:49-51 | byte i of the blocks is byte `i mod 32` of the digest for counter `i div 32` |
| `KeyStream.BlocksPrefix` | web_backend/app.py:49-51 | fewer blocks are a prefix of more blocks |
| `KeyStream.BlockCount` | web_backend/app.py:49 | the loop produces the fewest blocks whose bytes cover the length |
| `KeyStream.KeyStreamOf` | web_backend/app.py:52 | the key stream has exactly the requested length |
| `KeyStream.GenerateKeyStream` | web_backend/app.py:45-52 | the loop's output is the first `length` bytes of the counter-indexed digests |
| `KeyStream.KeyStreamAt` | web_backend/app.py:45-52 | byte i of the key stream is byte `i mod 32` of `sha256(key material ++ str(i div 32))` |
| `KeyStream.KeyStreamPrefix` | web_backend/app.py:45-52 | a shorter key stream is a prefix of a longer one for the same password and salt |
| `Header.BodyBytes` | web_backend/app.py:69-74 | the body layout is 5 bytes plus the extension and the data |
| `Header.ParseBody` | web_backend/app.py:67-76 | HeaderCorrupted exactly when `ext_len` is missing or fewer than `ext_len + 4` bytes follow it; otherwise only DataLengthMismatch can fail |
| `Header.ParseLayout` | web_backend/app.py:54-76 | only HeaderCorrupted or DataLengthMismatch can fail; an empty buffer, or flag 1 with fewer than 48 bytes after it, is corrupted; a parsed header is locked exactly when the flag is 1 |
| `Header.Unlock` | web_backend/app.py:77-86 | an open header yields its data; a locked one fails with PasswordRequired exactly when the password is empty, fails with WrongPassword exactly when the password is non-empty and its digest differs, and otherwise returns data that XOR-ed with the key stream gives back the stored data |
| `Header.ParseHeader` | web_backend/app.py:54-86 | when parsing fails, the error is a password error (missing or wrong) exactly when the buffer passes every structural check; a recovered result comes only from the layout of a well-formed header, with its extension and as many bytes as its data |
| `Header.ParseHeaderIff` | web_backend/app.py:54-86 | parsing succeeds exactly on the layout of a well-formed header that is open, or locked with a non-empty password whose digest is the stored one |
| `Header.ParseHeaderOfLayout` | web_backend/app.py:54-86 | the layout of a well-formed header reads as that header unlocked with the password |
| `Header.ParseBodyOfLayout` | web_backend/app.py:67-76 | the body layout of an extension and data parses back to them |
| `Header.ParseBodyIsLayout` | web_backend/app.py:67-76 | whatever the body fields parse to, they are its layout |
| `Header.ParseBodyIff` | web_backend/app.py:67-76 | the body parses to (ext, data) exactly when it is their layout |
| `Header.ParseAfterProtection` | web_backend/app.py:56-69 | after a valid flag, digest and salt, the parser reads the body fields, whatever they are |
| `Header.ParsedAfterProtection` | web_backend/app.py:56-76 | a buffer split into protection and body parses as its body does, and a parsed result lays out as the buffer |
| `Header.LayoutRoundTrip` | web_backend/app.py:54-76 | every well-formed header survives writing and reading back |
| `Header.ParsedIsLayout` | web_backend/app.py:54-76 | whatever a buffer parses to is well formed, and the buffer is its layout |
| `Header.ParseLayoutIff` | web_backend/app.py:54-76 | a buffer parses to h exactly when h is well formed and the buffer is h's layout |
| `Header.BodyPrefixRejected` | web_backend/app.py:67-76 | a cut-short body is corrupted while a field before the data is cut, and mismatched once only data is missing |
| `Header.BodyExtensionRejected` | web_backend/app.py:73-76 | bytes after the data make the length mismatch |
| `Header.TruncationDetected` | web_backend/app.py:56-76 | every strict prefix of a header is rejected: HeaderCorrupted while a field before the data is cut, DataLengthMismatch once only data bytes are missing |
| `Header.ExtensionDetected` | web_backend/app.py:73-76 | bytes appended after the data are rejected with DataLengthMismatch |
| `Header.DataTamperUndetected` | web_backend/app.py:74-78 | the data bytes of an open header can be replaced by any bytes of the same length and still parse |
| `Header.LockedTamperUndetected` | web_backend/app.py:74-86 | the ciphertext of a locked header can be replaced by any bytes of the same length: the right password still unlocks it, and the replacement XOR-ed with the key stream comes back |
| `Header.SealedRoundTrip` | web_backend/app.py:62-86 | a locked header built to the layout recovers the plain data and extension with its password |
| `Header.WrongPasswordRejected` | web_backend/app.py:81-83 | a non-empty password whose digest differs from the stored one is refused |
| `Header.PasswordRequiredWhenLocked` | web_backend/app.py:79-80 | a locked header read with the empty password asks for one |
| `Header.OpenRoundTrip` | web_backend/app.py:77-78 | an open header yields its data and extension whatever password is given |
| `Header.HelloTxt` | web_backend/app.py:54-78 | the 14-byte open header for `"hello"` and `"txt"` parses to that data and extension |
| `Header.HelloTxtTruncated` | web_backend/app.py:73-76 | the same header without its last byte is a length mismatch |
| `Decoder.Attempt` | web_backend/app.py:207-209 | an attempt never fails with the generic failure |
| `Decoder.FirstSuccess` | web_backend/app.py:206-216 | the loop looks at attempts in order, all before the last one it looks at failed, a success is that attempt's result, and a failure is the last attempt's error (the fallback only for an empty list) |
| `Decoder.FirstSuccessIff` | web_backend/app.py:206-216 | the loop succeeds exactly when some attempt does |
| `Decoder.FirstSuccessOfThree` | web_backend/app.py:206-216 | over three attempts the loop returns the first success, otherwise the third attempt's result |
| `Decoder.Decode` | web_backend/app.py:206-216 | decoding is the depth-2 result if it parses, else the depth-6 result if it parses, else the depth-8 result, error included |
| `Decoder.DecodeNeverGeneric` | web_backend/app.py:215-216 | a failed decode reports the depth-8 error, never the generic fallback |
| `Decoder.SealedPayloadDecodes` | web_backend/app.py:206-216 | a locked header whose frame opens the depth-2 bit stream decodes with its password |
| `Decoder.OpenPayloadDecodes` | web_backend/app.py:206-216 | an open header whose frame opens the depth-2 bit stream decodes with any password |
| `Decoder.StripTrailingZeros` | web_backend/app.py:232 | the result is a prefix that is empty or ends in a non-zero byte, and everything cut off is zero |
| `Decoder.StripUnique` | web_backend/app.py:232 | those properties determine the result |
| `Decoder.StripIdempotent` | web_backend/app.py:232 | stripping twice is stripping once |
| `Decoder.StripPadding` | web_backend/app.py:232 | zero padding of any length is removed |
| `Decoder.TrailingZeroLost` | web_backend/app.py:232 | content that ends in a zero byte comes back shorter |

## Left out

- Flask routes, form handling, `send_file` and the mimetype choice: HTTP plumbing with no bearing on the payload.
- The video-merge and image-fetch routes: ffmpeg processes and network access.
- PIL decoding and numpy conversions: the carrier is given as dimensions plus an RGB byte buffer.
- The binpng video recovery, apart from `rstrip(b"\x00")`: temporary-file and image I/O.
- The encoder: it lives in a module that is not part of this model. Round-trip lemmas use headers built by hand to the layout the parser reads (`Header.Seal`, `Header.Serialize`).
- SHA-256 internals: the hash is a parameter returning 32 bytes.
- The UTF-8 decoding of `ext` with `errors="ignore"`: the extension stays raw bytes.
- The float ratios 0.40 and 0.08: they are modelled as integer `floor(W * 40 / 100)` and `floor(H * 8 / 100)`, which match the float products' truncation for every image size.
- Depths outside 1..8: the code only calls the extractor with 2, 6 and 8.
- Exceptions other than the codec's own errors (a `struct` or numpy failure): none can arise on the inputs modelled.
- Determinism of the key stream: it is implicit, since every operation is a pure function of its inputs.

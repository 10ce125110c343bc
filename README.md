# Payload codec of the deepfake-detection watermarking backend

The backend hides a short metadata record, `username|YYYY-MM-DD HH:MM:SS`, in an image. An
encoder network embeds a fixed-size bit vector (the payload) into the image. A decoder network
reads a guess of that vector back. This project models the pure bit-level layer around the two
networks. That layer has two formats.

* **Hamming(7,4) format** (`embedding.py`, `Decoder.py`):
  * Each character becomes its code point in binary, eight digits at least (`str_to_bits`).
  * The bit stream is cut into 4-bit blocks. Each block is zero-filled and turned into a 7-bit
    Hamming codeword laid out as `p1 p2 d0 p3 d1 d2 d3`.
  * The resulting stream is zero-filled or truncated to the payload size.
  * Decoding cuts the thresholded bits into 7-bit blocks and pads the last one. It computes
    the syndrome, keeps four data bits per block, reads 8-bit groups as characters and strips
    trailing NULs.
  * The route splits the text at the first `|`.
* **Raw format** (`app.py`, `dataset.py`):
  * The record is UTF-8 encoded. In the dataset it is also base64 encoded.
  * So training payloads carry the base64 text of the record, while the serving route
    embeds, and decodes and splits, the raw UTF-8 record. The two sides lay out bytes
    identically (`Dataset.TrainingMatchesServing`), but their contents differ: base64
    text never contains `|`.
  * Each byte becomes eight bits, and the result is truncated or zero-filled to 1024 bits.
  * Decoding regroups bits by eight, zero-filling a short last group. It strips trailing zero
    bytes, decodes UTF-8 and splits at the first `|`.

Modules:

* `BitCodec` (`bits.dfy`) holds the shared bit and byte vocabulary: `Binary8`, `BitString`,
  `FromBits`, `Pad`, `FitToPayload` and `RStrip`.
* `Metadata` (`metadata.dfy`) holds the `username|timestamp` record, the split done by both
  routes, and a UTF-8 encoder.
* `Embedding` (`embedding.dfy`) is the Hamming encoder.
* `Decoder` (`decoder.dfy`) is the Hamming decoder and its round-trip theorems.
* `App` (`app.dfy`) is the raw format of the serving code.
* `Dataset` (`dataset.dfy`) is the training dataset's payload builder as a class.

Bits are `int`s restricted to 0 and 1, and bytes are `int`s below 256.

Operations that work by loops in the source are methods with loops. Each method is proved
equal to a recursive specification function, and the properties are proved about that
function. The methods are `StrToBits`, `EccEncodeMetadata`, `BitsToStr`, `EccDecodePayload`,
`BytesToPayloadTensor`, `PayloadTensorToBytes` and `ImageDataset.MetadataToTensor`.
`hamming_decode` has no loop but updates its block in place, so `HammingDecode` is a method
too. It works on a local copy of the block and is proved equal to `BlockData`.

The two decoders differ, and the model keeps the difference:
* `bits_to_str` reads a short final group as a shorter binary number (`GroupChars`).
* `payload_tensor_to_string` zero-fills that group first (`GroupBytes`, shifted by
  `ByteOfShifted`).

`str_to_bits` gives a character with code point 256 or more all of its binary digits, more
than eight. `Binary8` models exactly that. The 8-bit layout and the round trips are
therefore stated for characters below 256.

## Model

| member | source | states |
|---|---|---|
| BitCodec.Binary8 | embedding.py:40 | the `08b` rendering of a code point has at least 8 digits, exactly 8 below 256, and reads back as the same number |
| BitCodec.BitStringAt | app.py:81-83 | bit `i` of the expanded byte string is bit `7 - i % 8` (most significant first) of byte `i / 8`, and the string has 8 bits per byte |
| BitCodec.FitToPayload | app.py:84-85 | the fitted vector has exactly the payload length, keeps the input's prefix and is zero beyond the input |
| BitCodec.RStrip | Decoder.py:44 | the result is a prefix of the input that does not end in the stripped value, and everything removed is that value |
| BitCodec.RStripPadded | Decoder.py:44 | stripping undoes zero-filling of a sequence that does not already end in the fill value |
| Embedding.HammingEncode | embedding.py:29-35 | a block of at most 4 bits is zero-filled to 4 and becomes 7 bits whose three parity checks hold and whose data positions 3, 5, 6 and 7 carry the filled block |
| Embedding.StrToBits | embedding.py:37-41 | the loop produces the concatenation of every character's binary digits |
| Embedding.StrBitsLayout | embedding.py:37-41 | for code points below 256 the stream has 8 bits per character, and bit `i` is bit `7 - i % 8` of character `i / 8` |
| Embedding.EccStreamBlock | embedding.py:46-48 | codeword `j` of the ECC stream is the Hamming encoding of the `j`-th 4-bit block, the last one possibly short |
| Embedding.EccStream | embedding.py:44-48 | the ECC stream has 7 bits per started 4-bit block |
| Embedding.EccEncodeMetadata | embedding.py:43-53 | the payload is the ECC stream of the string's bits, zero-filled or truncated to the payload size |
| Decoder.Syndrome | Decoder.py:31-34 | the error position is between 0 and 7 and is 0 exactly when all three parity checks hold |
| Decoder.SyndromeLocatesError | Decoder.py:31-34 | a codeword has error position 0, and flipping its bit `k` gives error position `k` |
| Decoder.HammingDecode | Decoder.py:27-37 | the decoder pads a short block with zeros and returns the four data bits as they were read, before the flip |
| Decoder.HammingRoundTrip | Decoder.py:27-37 | decoding the encoding of a 4-bit block returns the block |
| Decoder.DecodeMissesDataError | Decoder.py:30-37 | after one flipped bit `k` the error position is `k`, yet the decoder returns the original block exactly when `k` is a parity position (1, 2 or 4) |
| Decoder.CorrectBlockFixesSingleError | Decoder.py:34-37 | a decoder that reads the data bits after applying the flip recovers the block from the codeword and from every single-bit error |
| Decoder.DecodeBlocks | Decoder.py:48-51 | decoding yields 4 bits per started 7-bit block |
| Decoder.GroupCharsAt | Decoder.py:41-43 | character `j` is the value of bits `8j .. 8j+8`; a short final group is read as a shorter binary number, without zero-filling |
| Decoder.BitsToStr | Decoder.py:39-44 | the loop produces the grouped characters with trailing NULs removed |
| Decoder.EccDecodePayload | Decoder.py:46-52 | the loop decodes every 7-bit block and hands the data bits to the character grouping |
| Decoder.DecodeEncodeStream | Decoder.py:48-51 | decoding an ECC stream returns the encoded bits zero-filled to a multiple of 4 |
| Decoder.GroupCharsOfStrBits | Decoder.py:39-43 | grouping the bits of a string of code points below 256 gives the string back |
| Decoder.StrBitsRoundTrip | Decoder.py:39-44 | `bits_to_str` undoes `str_to_bits` followed by any zero fill, for strings that do not end in NUL |
| Decoder.EccRoundTrip | Decoder.py:46-52 | decoding the payload built by `ecc_encode_metadata` returns the string whenever its 14 bits per character fit |
| Decoder.EccMetadataRoundTrip | Decoder.py:85-90 | for a username without a bar character, the decode route recovers the username and timestamp that the embed route joined |
| Metadata.Split | Decoder.py:86-90 | with a bar character, the text is the fingerprint, a bar and the timestamp, with no bar in the fingerprint; without one, all of it is the fingerprint and the timestamp is empty; the raw-format route of the server splits its decoded text the same way |
| Metadata.SplitJoin | embedding.py:81-82 | splitting the joined username and timestamp gives back both fields when the username has no bar character |
| Metadata.SplitJoinWithBar | Decoder.py:87-88 | a username containing a bar character is cut at its first bar |
| Metadata.Utf8Encode | app.py:76-77 | the UTF-8 encoding has between one and four bytes per character in total, contains a zero byte exactly when the text has NUL, and contains byte 0x7C exactly when it has a bar character |
| Metadata.Utf8CharRoundTrip | app.py:77 | each character's UTF-8 bytes decode back to its code point |
| Metadata.Utf8EncodeInjective | app.py:101 | UTF-8 encoding is injective, so the decoded text is the only string with the recovered bytes |
| App.EncodeMetadataPlain | app.py:73-77 | the raw record is the username's UTF-8 bytes, byte 0x7C, then the timestamp's bytes, with no zero byte when neither field has NUL; the training dataset builds the same record before base64 |
| App.BytesToPayloadTensor | app.py:79-86 | the loop and the truncate-then-pad produce the byte string's bits fitted to 1024 |
| App.PayloadLayout | app.py:81-85 | the payload has the requested length; bit `i` is bit `7 - i % 8` of byte `i / 8` inside the data and zero beyond it |
| App.ByteOfShifted | app.py:96-98 | a short final group is zero-filled on the right, so its value is shifted left by the missing bit count |
| App.GroupBytesAt | app.py:94-99 | byte `j` is the value of bits `8j .. 8j+8` times 2 to the number of missing bits |
| App.PayloadTensorToBytes | app.py:88-100 | the loop produces the grouped bytes with trailing zero bytes removed |
| App.GroupBytesOfBitString | app.py:94-99 | regrouping the bits of a byte string gives the byte string back |
| App.PlainRoundTrip | app.py:79-100 | decoding a payload returns the embedded bytes when they fit and do not end in a zero byte |
| App.PlainTruncated | app.py:84 | a payload that holds only `q` whole bytes regroups to the first `q` bytes, so decoding gives those bytes with trailing zero bytes stripped |
| App.MetadataPlainRoundTrip | app.py:182-187 | for a username without a bar character and a timestamp not ending in NUL, the decoding route recovers exactly the embedded record bytes, and the only text with those bytes splits into the embedded username and timestamp |
| App.EncodeMetadataPlainLastByte | app.py:100 | the record ends in a zero byte, which the strip would remove, exactly when the timestamp ends in NUL; a NUL anywhere else survives decoding |
| Dataset.ImageDataset.constructor | dataset.py:12-20 | the dataset keeps the payload size it is given |
| Dataset.ImageDataset.MetadataToTensor | dataset.py:38-45 | the loop, the truncation and the append-until-full loop produce the byte string's bits fitted to the dataset's payload size |
| Dataset.TrainingMatchesServing | dataset.py:38-45 | for the same bytes and a payload size of 1024, the training payload equals the payload the server builds; this is agreement of layout only, since training is given base64 text and serving the raw record |

## Left out

- The neural networks, their training and image input and output: none of these touch the payload codec.
- The float tensors, the `> 0.5` threshold in `ecc_decode_payload` and `round().int()` in `payload_tensor_to_string`: the model starts from the 0/1 integers those produce. The decoder network ends in a sigmoid (model.py:34, model.py:42), so `round()` yields only 0 or 1. Any other rounded value is not modelled: a digit such as 2 makes `int(..., 2)` at app.py:98 raise `ValueError`, and a leading -1 makes `bytes()` at app.py:100 raise.
- The one-element scalar case of `payload_tensor_to_string` (app.py:91-92) is the one-element sequence in the model.
- The clock (`datetime.now()`) and the random username of the dataset: the timestamp and the username are parameters.
- base64 in `ImageDataset.encode_metadata`: the model takes the encoded bytes as given. The record before base64 is `App.EncodeMetadataPlain`.
- UTF-8 decoding with `errors="ignore"` (app.py:101) is not modelled as a function. It is stated through `Metadata.Utf8EncodeInjective` and the second clause of `App.MetadataPlainRoundTrip`, about a text whose encoding equals the recovered bytes. Malformed byte sequences are not modelled.
- Characters are Unicode scalar values, as Dafny's `char` is. A lone surrogate, which a Python string can hold, is not modelled: `str_to_bits` would give it 16 bits, and `encode("utf-8")` at app.py:77 raises on it.
- Flask request handling, response fields, file listing and transforms in the dataset, and device placement: these are I/O.
- Decoder.HammingDecode: the source flips a bit of the caller's list in place; the model flips a local copy, since the caller passes a fresh list and never reads it again.
- The decoding pipeline (`Decoder.EccDecodePayload` and its round trips) keeps the decoder as written. `Decoder.CorrectBlock` is the corrected block decoder, and on error-free blocks both return the same data.
- An empty group never reaches `int(..., 2)`: the loops only form non-empty groups, so that error path is not modelled.

## Findings

| source | as written | input that shows it | evidently intended | confidence | as-written member | corrected member |
|---|---|---|---|---|---|---|
| Decoder.py:30-37 | `d0..d3` are unpacked before the located bit is flipped, and the flip touches only the list, so the returned data bits are never corrected | the codeword `[0,0,0,0,0,0,0]` of block `[0,0,0,0]` with bit 3 flipped: the error position is 3, yet `[1,0,0,0]` is returned | the four data bits are read from the corrected block, so any single-bit error is repaired | high; not executed | Decoder.DecodeMissesDataError | Decoder.CorrectBlockFixesSingleError |

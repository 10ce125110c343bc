/** The raw bit format of the API server (app.py): the metadata text is
    UTF-8 encoded, every byte becomes eight bits, and the bit stream is cut
    or zero-filled to PAYLOAD_SIZE; on the way back every eight bits, a
    short last group zero-filled on the right, become one byte and trailing
    zero bytes are stripped. The payload arrives here already rounded to
    0/1 integers. */
module App {
  import opened BitCodec
  import opened Metadata

  /** PAYLOAD_SIZE: the number of payload bits the networks carry. */
  const PayloadSize: nat := 1024

  /** encode_metadata_plain, with the formatted current time as a
      parameter: the UTF-8 bytes of `username|timestamp`. */
  function EncodeMetadataPlain(username: string, timestamp: string): (b: seq<Byte>)
    ensures b == Utf8Encode(username) + [0x7C] + Utf8Encode(timestamp)
    ensures '\0' !in username && '\0' !in timestamp ==> 0 !in b
  {
    Utf8EncodeAppend(username, "|" + timestamp);
    Utf8EncodeAppend("|", timestamp);
    assert username + "|" + timestamp == username + ("|" + timestamp);
    Utf8Encode(Join(username, timestamp))
  }

  /** The record ends in a zero byte, which the decoder's strip would
      remove, exactly when the timestamp ends in NUL; a NUL anywhere else
      survives. */
  lemma EncodeMetadataPlainLastByte(username: string, timestamp: string)
    ensures |EncodeMetadataPlain(username, timestamp)| >= 1
    ensures var b := EncodeMetadataPlain(username, timestamp);
      (b[|b| - 1] == 0) <==> (timestamp != [] && timestamp[|timestamp| - 1] == '\0')
  {
    var text := Join(username, timestamp);
    assert EncodeMetadataPlain(username, timestamp) == Utf8Encode(text);
    assert text[|text| - 1] == if timestamp == [] then '|' else timestamp[|timestamp| - 1];
    Utf8EncodeLastByte(text);
  }

  /** bytes_to_payload_tensor, up to the tensor conversion: eight bits per
      byte, cut or zero-filled to PAYLOAD_SIZE bits. */
  method BytesToPayloadTensor(b: seq<Byte>) returns (bits: seq<Bit>)
    ensures bits == FitToPayload(BitString(b), PayloadSize)
  {
    bits := [];
    for k := 0 to |b|
      invariant bits + BitString(b[k..]) == BitString(b)
    {
      var digits := Binary8(b[k]);
      assert (bits + digits) + BitString(b[k + 1..]) == BitString(b) by {
        BitStringStep(b, k);
        AppendRegroup(bits, digits, BitString(b[k + 1..]), BitString(b));
      }
      bits := bits + digits;
    }
    assert b[|b|..] == [];
    bits := bits[..Min(PayloadSize, |bits|)];
    bits := bits + Repeat<Bit>(0, PayloadSize - |bits|);
  }

  /** A payload of n bits built from bytes: bit i is bit 7 - i mod 8 of
      byte i / 8, most significant first, while the bytes last, and 0
      after them; a cut keeps the first n bits. */
  lemma PayloadLayout(b: seq<Byte>, n: nat, i: nat)
    requires i < n
    ensures |FitToPayload(BitString(b), n)| == n
    ensures i < 8 * |b| ==> FitToPayload(BitString(b), n)[i] == BitOf(b[i / 8], 7 - i % 8)
    ensures 8 * |b| <= i ==> FitToPayload(BitString(b), n)[i] == 0
  {
    assert AllBytes(b);
    if i < 8 * |b| {
      BitStringAt(b, i);
    }
  }

  /** A byte string's elements are byte codes (stated once here so that
      proofs need not unfold the subset type of every element). */
  lemma ByteCodes(b: seq<Byte>)
    ensures AllBytes(b)
  {
  }

  /** The bytes payload_tensor_to_string builds before stripping: one per
      group of eight bits, a short last group zero-filled on the right. */
  function GroupBytes(bits: seq<Bit>): (r: seq<Byte>)
    ensures |r| == (|bits| + 7) / 8
    decreases |bits|
  {
    if bits == [] then []
    else
      var k := Min(8, |bits|);
      [ByteOf(bits[..k])] + GroupBytes(bits[k..])
  }

  /** The byte a group of at most eight bits becomes: `int(bytebits, 2)`
      once the group is zero-filled on the right to eight bits. */
  function ByteOf(group: seq<Bit>): Byte
    requires |group| <= 8
  {
    Pow2Eight();
    FromBits(Pad(group, 8))
  }

  /** A short group of k bits counts 2^(8-k) times its own value. */
  lemma ByteOfShifted(group: seq<Bit>)
    requires |group| <= 8
    ensures ByteOf(group) == FromBits(group) * Pow2(8 - |group|)
  {
    FromBitsPadded(group, 8 - |group|);
    assert Pad(group, 8) == group + Repeat<Bit>(0, 8 - |group|);
  }

  /** One step of the regrouping loop. */
  lemma GroupBytesStep(bits: seq<Bit>, i: nat)
    requires i < |bits|
    ensures GroupBytes(bits[i..])
         == [ByteOf(bits[i..Min(i + 8, |bits|)])] + GroupBytes(bits[Min(i + 8, |bits|)..])
  {
    var next := Min(i + 8, |bits|);
    SliceOfSuffix(bits, i, next - i);
    SuffixOfSuffix(bits, i, next - i);
  }

  /** Dropping j groups of eight bits drops j bytes. */
  lemma {:induction false} GroupBytesDrop(bits: seq<Bit>, j: nat)
    requires 8 * j <= |bits|
    ensures j <= |GroupBytes(bits)|
    ensures GroupBytes(bits)[j..] == GroupBytes(bits[8 * j..])
  {
    if j > 0 {
      var bytes, tail := GroupBytes(bits), bits[8..];
      assert bytes[1..] == GroupBytes(tail);
      GroupBytesDrop(tail, j - 1);
      SuffixOfSuffix(bytes, 1, j - 1);
      SuffixOfSuffix(bits, 8, 8 * (j - 1));
    }
  }

  /** Byte j is the number written by bit group j followed by zeros up to
      eight digits: a short last group of k bits counts 2^(8-k) times its
      own value. */
  lemma GroupBytesAt(bits: seq<Bit>, j: nat)
    requires j < (|bits| + 7) / 8
    ensures var g := bits[8 * j .. Min(8 * j + 8, |bits|)];
            GroupBytes(bits)[j] == FromBits(g) * Pow2(8 - |g|)
  {
    var i := 8 * j;
    assert i < |bits|;
    var g := bits[i .. Min(i + 8, |bits|)];
    assert GroupBytes(bits[i..])[0] == ByteOf(g) by {
      GroupBytesStep(bits, i);
    }
    ByteOfShifted(g);
    assert GroupBytes(bits)[j] == GroupBytes(bits[i..])[0] by {
      GroupBytesDrop(bits, j);
      HeadOfSuffix(GroupBytes(bits), j);
    }
  }

  /** payload_tensor_to_string, up to the UTF-8 decoding: the regrouped
      bytes with trailing zero bytes stripped. */
  method PayloadTensorToBytes(arr: seq<Bit>) returns (raw: seq<Byte>)
    ensures raw == RStrip(GroupBytes(arr), 0)
  {
    var bytesList: seq<Byte> := [];
    var i := 0;
    while i < |arr|
      invariant 0 <= i <= |arr|
      invariant bytesList + GroupBytes(arr[i..]) == GroupBytes(arr)
    {
      var next := Min(i + 8, |arr|);
      var byteBits := arr[i..next];
      if |byteBits| < 8 {
        byteBits := byteBits + Repeat<Bit>(0, 8 - |byteBits|);
      }
      assert byteBits == Pad(arr[i..next], 8);
      var val: Byte := FromBits(byteBits);
      assert (bytesList + [val]) + GroupBytes(arr[next..]) == GroupBytes(arr) by {
        assert val == ByteOf(arr[i..next]);
        GroupBytesStep(arr, i);
        AppendRegroup(bytesList, [val], GroupBytes(arr[next..]), GroupBytes(arr));
      }
      bytesList := bytesList + [val];
      i := next;
    }
    assert arr[|arr|..] == [];
    assert bytesList == GroupBytes(arr);
    raw := RStrip(bytesList, 0);
  }

  /** Regrouping works group by group: a prefix made of whole eight-bit
      groups regroups on its own. */
  lemma {:induction false} GroupBytesAppend(x: seq<Bit>, y: seq<Bit>)
    requires |x| % 8 == 0
    ensures GroupBytes(x + y) == GroupBytes(x) + GroupBytes(y)
  {
    if x == [] {
      assert x + y == y;
    } else {
      assert (x + y)[..8] == x[..8];
      assert (x + y)[8..] == x[8..] + y;
      GroupBytesAppend(x[8..], y);
    }
  }

  /** Zero bits regroup into zero bytes, a short last group included. */
  lemma {:induction false} GroupBytesZeros(m: nat)
    ensures GroupBytes(Repeat<Bit>(0, m)) == Repeat<Byte>(0, (m + 7) / 8)
  {
    if m > 0 {
      var k := Min(8, m);
      assert Repeat<Bit>(0, m)[..k] == Repeat<Bit>(0, k);
      assert Repeat<Bit>(0, m)[k..] == Repeat<Bit>(0, m - k);
      assert Pad(Repeat<Bit>(0, k), 8) == Repeat<Bit>(0, 8);
      FromBitsZeros(8);
      GroupBytesZeros(m - k);
      assert (m + 7) / 8 == 1 + (m - k + 7) / 8;
      assert Repeat<Byte>(0, (m + 7) / 8) == [0] + Repeat<Byte>(0, (m - k + 7) / 8);
    }
  }

  /** Regrouping the bits of a byte string gives the bytes back. */
  lemma {:induction false} GroupBytesOfBitString(b: seq<Byte>)
    ensures GroupBytes(BitString(b)) == b
  {
    if b != [] {
      var head := Binary8(b[0]);
      var rest := BitString(b[1..]);
      assert BitString(b) == head + rest;
      assert (head + rest)[..8] == head && (head + rest)[8..] == rest;
      assert Pad(head, 8) == head;
      GroupBytesOfBitString(b[1..]);
      assert b == [b[0]] + b[1..];
    }
  }

  /** The byte-level round trip: bytes that fit in n bits and do not end in
      a zero byte come back unchanged. */
  lemma PlainRoundTrip(b: seq<Byte>, n: nat)
    requires 8 * |b| <= n
    requires b == [] || b[|b| - 1] != 0
    ensures RStrip(GroupBytes(FitToPayload(BitString(b), n)), 0) == b
  {
    var bits := BitString(b);
    ByteCodes(b);
    MulEight(|b|);
    var z := n - |bits|;
    var zeros := Repeat<Bit>(0, z);
    assert GroupBytes(FitToPayload(bits, n)) == b + Repeat<Byte>(0, (z + 7) / 8) by {
      FitPadded(bits, n);
      GroupBytesAppend(bits, zeros);
      GroupBytesOfBitString(b);
      GroupBytesZeros(z);
    }
    RStripPadded(b, 0, (z + 7) / 8);
  }

  /** Bytes that do not fit are cut: a payload of 8q bits carries exactly
      the first q bytes. */
  lemma PlainTruncated(b: seq<Byte>, q: nat)
    requires q <= |b|
    ensures GroupBytes(FitToPayload(BitString(b), 8 * q)) == b[..q]
    ensures RStrip(GroupBytes(FitToPayload(BitString(b), 8 * q)), 0) == RStrip(b[..q], 0)
  {
    assert GroupBytes(FitToPayload(BitString(b), 8 * q)) == b[..q] by {
      ByteCodes(b[..q]);
      BitStringPrefix(b, q);
      GroupBytesOfBitString(b[..q]);
    }
  }

  /** The raw format's metadata round trip: for a username without '|' and
      a timestamp not ending in NUL whose bytes fit in PAYLOAD_SIZE bits, the decoding
      route recovers exactly the embedded bytes; they are the UTF-8 encoding
      of exactly one text, and splitting that text gives the username and the
      timestamp back. */
  lemma MetadataPlainRoundTrip(username: string, timestamp: string, text: string)
    requires '|' !in username
    requires timestamp == [] || timestamp[|timestamp| - 1] != '\0'
    requires 8 * |EncodeMetadataPlain(username, timestamp)| <= PayloadSize
    ensures RStrip(GroupBytes(FitToPayload(BitString(EncodeMetadataPlain(username, timestamp)), PayloadSize)), 0)
         == EncodeMetadataPlain(username, timestamp)
    ensures Utf8Encode(text) == EncodeMetadataPlain(username, timestamp) ==> Split(text) == Fields(username, timestamp)
  {
    var b := EncodeMetadataPlain(username, timestamp);
    EncodeMetadataPlainLastByte(username, timestamp);
    PlainRoundTrip(b, PayloadSize);
    if Utf8Encode(text) == b {
      Utf8EncodeInjective(text, Join(username, timestamp));
      SplitJoin(username, timestamp);
    }
  }
}

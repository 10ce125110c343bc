/** The Hamming(7,4) payload format of the embedding service
    (embedding.py): the metadata text becomes eight bits per character,
    every four bits become a seven-bit Hamming codeword, and the codeword
    stream is cut or zero-filled to the payload size. */
module Embedding {
  import opened BitCodec

  /** The data bits of a seven-bit word, at 0-based positions 2, 4, 5, 6
      (1-based positions 3, 5, 6, 7). */
  function DataBits(w: seq<Bit>): (d: seq<Bit>)
    requires |w| == 7
    ensures |d| == 4
  {
    [w[2], w[4], w[5], w[6]]
  }

  /** A Hamming(7,4) codeword: for each parity position 1, 2 and 4
      (1-based), the positions whose index has that bit set hold an even
      number of ones. */
  predicate IsCodeword(c: seq<Bit>)
  {
    && |c| == 7
    && (c[0] as int + c[2] + c[4] + c[6]) % 2 == 0
    && (c[1] as int + c[2] + c[5] + c[6]) % 2 == 0
    && (c[3] as int + c[4] + c[5] + c[6]) % 2 == 0
  }

  /** hamming_encode: a block of at most four data bits, zero-filled to
      four, laid out as [p1, p2, d0, p3, d1, d2, d3]. A longer block, which
      the caller never passes, contributes only its first four bits. */
  function HammingEncode(block: seq<Bit>): (c: seq<Bit>)
    ensures |c| == 7
    ensures IsCodeword(c)
    ensures DataBits(c) == Pad(block, 4)[..4]
  {
    var d := Pad(block, 4);
    var p1 := Xor(Xor(d[0], d[1]), d[3]);
    var p2 := Xor(Xor(d[0], d[2]), d[3]);
    var p3 := Xor(Xor(d[1], d[2]), d[3]);
    [p1, p2, d[0], p3, d[1], d[2], d[3]]
  }

  /** The bits str_to_bits produces: `format(ord(c), '08b')` for every
      character, concatenated. */
  function StrBits(s: string): seq<Bit>
  {
    BitString(Ords(s))
  }

  /** str_to_bits. */
  method StrToBits(s: string) returns (bits: seq<Bit>)
    ensures bits == StrBits(s)
  {
    bits := [];
    for i := 0 to |s|
      invariant bits + BitString(Ords(s)[i..]) == StrBits(s)
    {
      var digits := Binary8(s[i] as nat);
      assert (bits + digits) + BitString(Ords(s)[i + 1..]) == StrBits(s) by {
        BitStringStep(Ords(s), i);
        AppendRegroup(bits, digits, BitString(Ords(s)[i + 1..]), StrBits(s));
      }
      bits := bits + digits;
    }
    assert Ords(s)[|s|..] == [];
  }

  /** With every character code below 256, a string of n characters gives
      8n bits, and character i fills bits 8i to 8i+7, most significant bit
      first. */
  lemma StrBitsLayout(s: string, i: nat)
    requires forall k :: 0 <= k < |s| ==> s[k] as int < 256
    requires i < 8 * |s|
    ensures |StrBits(s)| == 8 * |s|
    ensures StrBits(s)[i] == BitOf(s[i / 8] as nat, 7 - i % 8)
  {
    BitStringAt(Ords(s), i);
  }

  /** The codeword stream before padding: hamming_encode of every
      four-bit block of the input, the last block possibly shorter. */
  function EccStream(bits: seq<Bit>): (r: seq<Bit>)
    ensures |r| == 7 * ((|bits| + 3) / 4)
    decreases |bits|
  {
    if bits == [] then []
    else
      var k := Min(4, |bits|);
      HammingEncode(bits[..k]) + EccStream(bits[k..])
  }

  /** Dropping j input blocks drops j codewords. */
  lemma {:induction false} EccStreamDrop(bits: seq<Bit>, j: nat)
    requires 4 * j <= |bits|
    ensures 7 * j <= |EccStream(bits)|
    ensures EccStream(bits)[7 * j..] == EccStream(bits[4 * j..])
  {
    if j > 0 {
      var tail := bits[4..];
      var stream := EccStream(bits);
      assert stream[7..] == EccStream(tail) by {
        assert stream == HammingEncode(bits[..4]) + EccStream(tail);
      }
      EccStreamDrop(tail, j - 1);
      SuffixOfSuffix(stream, 7, 7 * (j - 1));
      SuffixOfSuffix(bits, 4, 4 * (j - 1));
    }
  }

  /** The stream of a non-empty input starts with the codeword of its
      first block. */
  lemma EccStreamHead(bits: seq<Bit>)
    requires bits != []
    ensures 7 <= |EccStream(bits)|
    ensures EccStream(bits)[..7] == HammingEncode(bits[..Min(4, |bits|)])
  {
    var k := Min(4, |bits|);
    assert EccStream(bits) == HammingEncode(bits[..k]) + EccStream(bits[k..]);
  }

  /** Block j of the stream is the codeword of input block j. */
  lemma EccStreamBlock(bits: seq<Bit>, j: nat)
    requires j < (|bits| + 3) / 4
    ensures 7 * j + 7 <= |EccStream(bits)|
    ensures EccStream(bits)[7 * j .. 7 * j + 7] == HammingEncode(bits[4 * j .. Min(4 * j + 4, |bits|)])
  {
    var rest := bits[4 * j..];
    EccStreamDrop(bits, j);
    EccStreamHead(rest);
    SliceOfSuffix(EccStream(bits), 7 * j, 7);
    SliceOfSuffix(bits, 4 * j, Min(4, |rest|));
  }

  /** One step of the encoding loop: the stream from offset i is the
      codeword of the block at i followed by the stream after that block. */
  lemma EccStreamStep(bits: seq<Bit>, i: nat)
    requires i < |bits|
    ensures EccStream(bits[i..])
         == HammingEncode(bits[i..Min(i + 4, |bits|)]) + EccStream(bits[Min(i + 4, |bits|)..])
  {
    var next := Min(i + 4, |bits|);
    SliceOfSuffix(bits, i, next - i);
    SuffixOfSuffix(bits, i, next - i);
  }

  /** ecc_encode_metadata, up to the tensor conversion: the codeword stream
      of the text's bits, zero-filled or cut to exactly payloadSize bits. */
  method EccEncodeMetadata(meta: string, payloadSize: nat) returns (payload: seq<Bit>)
    ensures payload == FitToPayload(EccStream(StrBits(meta)), payloadSize)
  {
    var bits := StrToBits(meta);
    var bitsEcc: seq<Bit> := [];
    var i := 0;
    while i < |bits|
      invariant 0 <= i <= |bits|
      invariant bitsEcc + EccStream(bits[i..]) == EccStream(bits)
    {
      var next := Min(i + 4, |bits|);
      var codeword := HammingEncode(bits[i..next]);
      assert (bitsEcc + codeword) + EccStream(bits[next..]) == EccStream(bits) by {
        EccStreamStep(bits, i);
        AppendRegroup(bitsEcc, codeword, EccStream(bits[next..]), EccStream(bits));
      }
      bitsEcc := bitsEcc + codeword;
      i := next;
    }
    assert bits[|bits|..] == [];
    assert bitsEcc == EccStream(bits);
    if |bitsEcc| < payloadSize {
      bitsEcc := bitsEcc + Repeat(0, payloadSize - |bitsEcc|);
    } else {
      bitsEcc := bitsEcc[..payloadSize];
    }
    payload := bitsEcc;
  }
}

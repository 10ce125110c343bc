/** The decoding service's side of the Hamming(7,4) payload format
    (Decoder.py): every seven payload bits go through hamming_decode, the
    data bits are regrouped eight at a time into characters, and trailing
    NULs are stripped. The payload arrives here already thresholded to 0/1
    bits. */
module Decoder {
  import opened BitCodec
  import opened Embedding
  import opened Metadata

  /** error_pos of hamming_decode: c1 + (c2 << 1) + (c3 << 2), each ci the
      XOR of one parity group. It is always in 0..7, so the index
      error_pos - 1 is in range whenever it is used, and it is 0 exactly on
      codewords. */
  function Syndrome(w: seq<Bit>): (e: nat)
    requires |w| == 7
    ensures e <= 7
    ensures (e == 0) == IsCodeword(w)
  {
    var c1 := Xor(Xor(Xor(w[0], w[2]), w[4]), w[6]);
    var c2 := Xor(Xor(Xor(w[1], w[2]), w[5]), w[6]);
    var c3 := Xor(Xor(Xor(w[3], w[4]), w[5]), w[6]);
    c1 as int + 2 * (c2 as int) + 4 * (c3 as int)
  }

  /** The word with the bit at 1-based position k inverted (`^= 1`). */
  function Flip(w: seq<Bit>, k: nat): (r: seq<Bit>)
    requires 1 <= k <= |w|
    ensures |r| == |w| && r[k - 1] != w[k - 1]
    ensures forall i :: 0 <= i < |w| && i != k - 1 ==> r[i] == w[i]
  {
    w[k - 1 := 1 - w[k - 1]]
  }

  /** The syndrome of a codeword is 0, and after inverting one bit it names
      that bit's 1-based position. */
  lemma SyndromeLocatesError(block: seq<Bit>, k: nat)
    requires 1 <= k <= 7
    ensures Syndrome(HammingEncode(block)) == 0
    ensures Syndrome(Flip(HammingEncode(block), k)) == k
  {
    var c := HammingEncode(block);
    var w := Flip(c, k);
    assert w == c[k - 1 := 1 - c[k - 1]];
  }

  /** What hamming_decode returns for a block of at most seven bits: the
      data positions of the zero-filled block. */
  function BlockData(block: seq<Bit>): (d: seq<Bit>)
    requires |block| <= 7
    ensures |d| == 4
  {
    DataBits(Pad(block, 7))
  }

  /** hamming_decode, as written: the block is zero-filled to seven bits,
      d0..d3 are read out, and only then is the bit at error_pos inverted,
      so the returned bits are positions 2, 4, 5, 6 of the filled block
      whatever the syndrome says. */
  method HammingDecode(block: seq<Bit>) returns (data: seq<Bit>)
    requires |block| <= 7
    ensures data == BlockData(block)
  {
    var b := block;
    if |b| < 7 {
      b := b + Repeat<Bit>(0, 7 - |b|);
    }
    var p1, p2, d0, p3, d1, d2, d3 := b[0], b[1], b[2], b[3], b[4], b[5], b[6];
    var c1 := Xor(Xor(Xor(p1, d0), d1), d3);
    var c2 := Xor(Xor(Xor(p2, d0), d2), d3);
    var c3 := Xor(Xor(Xor(p3, d1), d2), d3);
    var errorPos := c1 as int + 2 * (c2 as int) + 4 * (c3 as int);
    assert errorPos == Syndrome(b);
    if errorPos != 0 && errorPos <= 7 {
      b := b[errorPos - 1 := Xor(b[errorPos - 1], 1)];
    }
    data := [d0, d1, d2, d3];
  }

  /** Decoding an error-free codeword gives its four data bits back. */
  lemma HammingRoundTrip(block: seq<Bit>)
    requires |block| == 4
    ensures BlockData(HammingEncode(block)) == block
  {
    assert Pad(block, 4)[..4] == block;
  }

  /** With one bit of a codeword inverted, hamming_decode returns the right
      data exactly when the inverted bit is a parity bit (position 1, 2 or
      4); an inverted data bit is located by the syndrome but still comes
      out inverted. */
  lemma DecodeMissesDataError(block: seq<Bit>, k: nat)
    requires |block| == 4 && 1 <= k <= 7
    ensures Syndrome(Flip(HammingEncode(block), k)) == k
    ensures BlockData(Flip(HammingEncode(block), k)) == block <==> k in {1, 2, 4}
  {
    SyndromeLocatesError(block, k);
    var c := HammingEncode(block);
    var w := Flip(c, k);
    assert Pad(w, 7) == w;
    assert Pad(block, 4)[..4] == block;
    assert DataBits(c) == block;
    if k !in {1, 2, 4} {
      var i := if k == 3 then 0 else k - 4;
      assert DataBits(w)[i] != block[i];
    }
  }

  /** hamming_decode as evidently intended: invert the bit the syndrome
      names before reading the data bits. */
  function CorrectBlock(block: seq<Bit>): (data: seq<Bit>)
    requires |block| <= 7
    ensures |data| == 4
  {
    var w := Pad(block, 7);
    var e := Syndrome(w);
    DataBits(if e == 0 then w else Flip(w, e))
  }

  /** The corrected decoder recovers the data from a codeword with at most
      one inverted bit. */
  lemma CorrectBlockFixesSingleError(block: seq<Bit>, k: nat)
    requires |block| == 4 && k <= 7
    ensures CorrectBlock(HammingEncode(block)) == block
    ensures 1 <= k ==> CorrectBlock(Flip(HammingEncode(block), k)) == block
  {
    var c := HammingEncode(block);
    assert Pad(block, 4)[..4] == block;
    assert CorrectBlock(c) == block by {
      SyndromeLocatesError(block, 1);
      assert Pad(c, 7) == c;
    }
    if 1 <= k {
      var w := Flip(c, k);
      assert CorrectBlock(w) == block by {
        SyndromeLocatesError(block, k);
        assert Pad(w, 7) == w;
        assert Flip(w, k) == c;
      }
    }
  }

  /** The data bits ecc_decode_payload collects: DataBits of every seven-bit
      block, the last block zero-filled. */
  function DecodeBlocks(bits: seq<Bit>): (r: seq<Bit>)
    ensures |r| == 4 * ((|bits| + 6) / 7)
    decreases |bits|
  {
    if bits == [] then []
    else
      var k := Min(7, |bits|);
      BlockData(bits[..k]) + DecodeBlocks(bits[k..])
  }

  /** One step of the decoding loop. */
  lemma DecodeBlocksStep(bits: seq<Bit>, i: nat)
    requires i < |bits|
    ensures DecodeBlocks(bits[i..])
         == BlockData(bits[i..Min(i + 7, |bits|)]) + DecodeBlocks(bits[Min(i + 7, |bits|)..])
  {
    var next := Min(i + 7, |bits|);
    SliceOfSuffix(bits, i, next - i);
    SuffixOfSuffix(bits, i, next - i);
  }

  /** The characters bits_to_str makes before stripping: one per group of
      eight bits, a shorter last group read as a shorter binary number. */
  function GroupChars(bits: seq<Bit>): (r: string)
    ensures |r| == (|bits| + 7) / 8
    decreases |bits|
  {
    if bits == [] then []
    else
      var k := Min(8, |bits|);
      [GroupChar(bits[..k])] + GroupChars(bits[k..])
  }

  /** `chr(int(group, 2))` for a group of at most eight bits. */
  function GroupChar(group: seq<Bit>): (c: char)
    requires |group| <= 8
    ensures c as int == FromBits(group) < 256
  {
    Pow2Monotone(|group|, 8);
    Pow2Eight();
    FromBits(group) as char
  }

  /** One step of the regrouping loop. */
  lemma GroupCharsStep(bits: seq<Bit>, i: nat)
    requires i < |bits|
    ensures GroupChars(bits[i..])
         == [GroupChar(bits[i..Min(i + 8, |bits|)])] + GroupChars(bits[Min(i + 8, |bits|)..])
  {
    var next := Min(i + 8, |bits|);
    SliceOfSuffix(bits, i, next - i);
    SuffixOfSuffix(bits, i, next - i);
  }

  /** Dropping j groups of eight bits drops j characters. */
  lemma {:induction false} GroupCharsDrop(bits: seq<Bit>, j: nat)
    requires 8 * j <= |bits|
    ensures j <= |GroupChars(bits)|
    ensures GroupChars(bits)[j..] == GroupChars(bits[8 * j..])
  {
    if j > 0 {
      var chars, tail := GroupChars(bits), bits[8..];
      assert chars[1..] == GroupChars(tail);
      GroupCharsDrop(tail, j - 1);
      SuffixOfSuffix(chars, 1, j - 1);
      SuffixOfSuffix(bits, 8, 8 * (j - 1));
    }
  }

  /** Character j is the number written by bit group j. */
  lemma GroupCharsAt(bits: seq<Bit>, j: nat)
    requires j < (|bits| + 7) / 8
    ensures GroupChars(bits)[j] as int == FromBits(bits[8 * j .. Min(8 * j + 8, |bits|)])
  {
    var i := 8 * j;
    assert i < |bits|;
    var g := bits[i .. Min(i + 8, |bits|)];
    assert GroupChars(bits[i..])[0] == GroupChar(g) by {
      GroupCharsStep(bits, i);
    }
    assert GroupChars(bits)[j] == GroupChars(bits[i..])[0] by {
      GroupCharsDrop(bits, j);
      HeadOfSuffix(GroupChars(bits), j);
    }
  }

  /** bits_to_str. */
  method BitsToStr(bits: seq<Bit>) returns (text: string)
    ensures text == RStrip(GroupChars(bits), '\0')
  {
    var chars: string := [];
    var i := 0;
    while i < |bits|
      invariant 0 <= i <= |bits|
      invariant chars + GroupChars(bits[i..]) == GroupChars(bits)
    {
      var next := Min(i + 8, |bits|);
      var c := GroupChar(bits[i..next]);
      assert (chars + [c]) + GroupChars(bits[next..]) == GroupChars(bits) by {
        GroupCharsStep(bits, i);
        AppendRegroup(chars, [c], GroupChars(bits[next..]), GroupChars(bits));
      }
      chars := chars + [c];
      i := next;
    }
    assert bits[|bits|..] == [];
    assert chars == GroupChars(bits);
    text := RStrip(chars, '\0');
  }

  /** ecc_decode_payload, from the thresholded bits on. */
  method EccDecodePayload(bits: seq<Bit>) returns (text: string)
    ensures text == RStrip(GroupChars(DecodeBlocks(bits)), '\0')
  {
    var decodedBits: seq<Bit> := [];
    var i := 0;
    while i < |bits|
      invariant 0 <= i <= |bits|
      invariant decodedBits + DecodeBlocks(bits[i..]) == DecodeBlocks(bits)
    {
      var next := Min(i + 7, |bits|);
      var data := HammingDecode(bits[i..next]);
      assert (decodedBits + data) + DecodeBlocks(bits[next..]) == DecodeBlocks(bits) by {
        DecodeBlocksStep(bits, i);
        AppendRegroup(decodedBits, data, DecodeBlocks(bits[next..]), DecodeBlocks(bits));
      }
      decodedBits := decodedBits + data;
      i := next;
    }
    assert bits[|bits|..] == [];
    assert decodedBits == DecodeBlocks(bits);
    text := BitsToStr(decodedBits);
  }

  /** Decoding works block by block: a prefix made of whole seven-bit
      blocks decodes on its own. */
  lemma {:induction false} DecodeBlocksAppend(x: seq<Bit>, y: seq<Bit>)
    requires |x| % 7 == 0
    ensures DecodeBlocks(x + y) == DecodeBlocks(x) + DecodeBlocks(y)
  {
    if x == [] {
      assert x + y == y;
    } else {
      assert (x + y)[..7] == x[..7];
      assert (x + y)[7..] == x[7..] + y;
      DecodeBlocksAppend(x[7..], y);
    }
  }

  /** Zero fill decodes to zero data bits. */
  lemma {:induction false} DecodeBlocksZeros(m: nat)
    ensures DecodeBlocks(Repeat<Bit>(0, m)) == Repeat<Bit>(0, 4 * ((m + 6) / 7))
  {
    if m > 0 {
      var k := Min(7, m);
      assert Repeat<Bit>(0, m)[..k] == Repeat<Bit>(0, k);
      assert Repeat<Bit>(0, m)[k..] == Repeat<Bit>(0, m - k);
      DecodeBlocksZeros(m - k);
      assert Pad(Repeat<Bit>(0, k), 7) == Repeat<Bit>(0, 7);
      assert DataBits(Repeat<Bit>(0, 7)) == Repeat<Bit>(0, 4);
      assert (m + 6) / 7 == 1 + (m - k + 6) / 7;
      assert Repeat<Bit>(0, 4 * ((m + 6) / 7)) == Repeat<Bit>(0, 4) + Repeat<Bit>(0, 4 * ((m - k + 6) / 7));
    }
  }

  /** Decoding an error-free codeword stream gives back the encoded bits,
      zero-filled to a whole number of four-bit blocks. */
  lemma {:induction false} DecodeEncodeStream(bits: seq<Bit>)
    ensures DecodeBlocks(EccStream(bits)) == Pad(bits, 4 * ((|bits| + 3) / 4))
  {
    if bits != [] {
      var k := Min(4, |bits|);
      var c := HammingEncode(bits[..k]);
      var rest := bits[k..];
      assert EccStream(bits) == c + EccStream(rest);
      DecodeBlocksAppend(c, EccStream(rest));
      DecodeCodeword(bits[..k]);
      DecodeEncodeStream(rest);
      if |bits| < 4 {
        assert rest == [];
        assert Pad(bits[..k], 4)[..4] == Pad(bits, 4);
      } else {
        assert Pad(bits[..k], 4)[..4] == bits[..4];
        assert 4 * ((|bits| + 3) / 4) == 4 + 4 * ((|rest| + 3) / 4);
        PadConcat(bits[..4], rest, 4 * ((|rest| + 3) / 4));
        assert bits[..4] + rest == bits;
      }
    }
  }

  /** A single codeword decodes to the zero-filled block it encodes. */
  lemma DecodeCodeword(block: seq<Bit>)
    ensures DecodeBlocks(HammingEncode(block)) == Pad(block, 4)[..4]
  {
    var c := HammingEncode(block);
    assert c[..7] == c && c[7..] == [];
    assert Pad(c, 7) == c;
  }

  /** Padding a concatenation pads its second part. */
  lemma PadConcat(a: seq<Bit>, b: seq<Bit>, n: nat)
    ensures a + Pad(b, n) == Pad(a + b, |a| + n)
  {
    if |b| < n {
      assert a + (b + Repeat<Bit>(0, n - |b|)) == (a + b) + Repeat<Bit>(0, n - |b|);
    }
  }

  /** Regrouping works group by group: a prefix made of whole eight-bit
      groups regroups on its own. */
  lemma {:induction false} GroupCharsAppend(x: seq<Bit>, y: seq<Bit>)
    requires |x| % 8 == 0
    ensures GroupChars(x + y) == GroupChars(x) + GroupChars(y)
  {
    if x == [] {
      assert x + y == y;
    } else {
      assert (x + y)[..8] == x[..8];
      assert (x + y)[8..] == x[8..] + y;
      GroupCharsAppend(x[8..], y);
    }
  }

  /** Zero bits regroup into NUL characters, a short last group included. */
  lemma {:induction false} GroupCharsZeros(m: nat)
    ensures GroupChars(Repeat<Bit>(0, m)) == Repeat<char>('\0', (m + 7) / 8)
  {
    if m > 0 {
      var k := Min(8, m);
      assert Repeat<Bit>(0, m)[..k] == Repeat<Bit>(0, k);
      assert Repeat<Bit>(0, m)[k..] == Repeat<Bit>(0, m - k);
      FromBitsZeros(k);
      GroupCharsZeros(m - k);
      assert (m + 7) / 8 == 1 + (m - k + 7) / 8;
      assert Repeat<char>('\0', (m + 7) / 8) == ['\0'] + Repeat<char>('\0', (m - k + 7) / 8);
    }
  }

  /** Regrouping the bits str_to_bits makes gives the string back when
      every character code is below 256. */
  lemma {:induction false} GroupCharsOfStrBits(s: string)
    requires forall k :: 0 <= k < |s| ==> s[k] as int < 256
    ensures GroupChars(StrBits(s)) == s
  {
    if s != [] {
      var head := Binary8(s[0] as nat);
      assert Ords(s)[1..] == Ords(s[1..]);
      var rest := StrBits(s[1..]);
      assert StrBits(s) == head + rest;
      assert (head + rest)[..8] == head && (head + rest)[8..] == rest;
      GroupCharsOfStrBits(s[1..]);
      assert s == [s[0]] + s[1..];
    }
  }

  /** bits_to_str undoes str_to_bits followed by any zero fill, for text of
      character codes below 256 that does not end in NUL. */
  lemma StrBitsRoundTrip(s: string, m: nat)
    requires forall k :: 0 <= k < |s| ==> s[k] as int < 256
    requires s == [] || s[|s| - 1] != '\0'
    ensures RStrip(GroupChars(StrBits(s) + Repeat<Bit>(0, m)), '\0') == s
  {
    assert AllBytes(Ords(s));
    GroupCharsAppend(StrBits(s), Repeat<Bit>(0, m));
    GroupCharsOfStrBits(s);
    GroupCharsZeros(m);
    RStripPadded(s, '\0', (m + 7) / 8);
  }

  /** The codeword stream of a text of character codes below 256 has 14
      bits per character and decodes to the text's bits. */
  lemma DecodeStreamOfStrBits(s: string)
    requires forall k :: 0 <= k < |s| ==> s[k] as int < 256
    ensures |StrBits(s)| == 8 * |s|
    ensures |EccStream(StrBits(s))| == 14 * |s|
    ensures DecodeBlocks(EccStream(StrBits(s))) == StrBits(s)
  {
    var bits := StrBits(s);
    assert AllBytes(Ords(s));
    assert |bits| == 8 * |s|;
    assert (|bits| + 3) / 4 == 2 * |s|;
    DecodeEncodeStream(bits);
    assert Pad(bits, 4 * (2 * |s|)) == bits;
  }

  lemma MulFourteen(a: nat)
    ensures (14 * a) % 7 == 0
  {
  }

  /** Zero fill after a whole number of codewords decodes to zero data
      bits after the data. */
  lemma ZeroFillDecodes(ecc: seq<Bit>, n: nat)
    requires |ecc| % 7 == 0 && |ecc| <= n
    ensures DecodeBlocks(FitToPayload(ecc, n))
         == DecodeBlocks(ecc) + Repeat<Bit>(0, 4 * ((n - |ecc| + 6) / 7))
  {
    FitPadded(ecc, n);
    DecodeBlocksAppend(ecc, Repeat<Bit>(0, n - |ecc|));
    DecodeBlocksZeros(n - |ecc|);
  }

  /** The Hamming format round trip: with no bit errors, decoding the
      payload ecc_encode_metadata builds gives the text back, provided its
      character codes are below 256, it does not end in NUL and its 14 bits
      per character fit the payload. */
  lemma EccRoundTrip(s: string, n: nat)
    requires forall k :: 0 <= k < |s| ==> s[k] as int < 256
    requires s == [] || s[|s| - 1] != '\0'
    requires 14 * |s| <= n
    ensures RStrip(GroupChars(DecodeBlocks(FitToPayload(EccStream(StrBits(s)), n))), '\0') == s
  {
    var ecc := EccStream(StrBits(s));
    DecodeStreamOfStrBits(s);
    MulFourteen(|s|);
    ZeroFillDecodes(ecc, n);
    StrBitsRoundTrip(s, 4 * ((n - |ecc| + 6) / 7));
  }

  /** The decoding route's end-to-end round trip: the fields the embedding
      route put into `username|timestamp` come back out of the split, for a
      username without '|', character codes below 256, a timestamp not
      ending in NUL and a text whose 14 bits per character fit the payload. */
  lemma EccMetadataRoundTrip(username: string, timestamp: string, n: nat)
    requires '|' !in username
    requires forall k :: 0 <= k < |Join(username, timestamp)| ==> Join(username, timestamp)[k] as int < 256
    requires timestamp == [] || timestamp[|timestamp| - 1] != '\0'
    requires 14 * |Join(username, timestamp)| <= n
    ensures Split(RStrip(GroupChars(DecodeBlocks(FitToPayload(EccStream(StrBits(Join(username, timestamp))), n))), '\0'))
         == Fields(username, timestamp)
  {
    var text := Join(username, timestamp);
    assert text[|text| - 1] != '\0';
    EccRoundTrip(text, n);
    SplitJoin(username, timestamp);
  }
}

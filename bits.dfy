/** Bit- and byte-level helpers shared by both payload formats: the binary
    digits of a number (Python's `format(v, '08b')` and `int(s, 2)`), zero
    padding, truncation to a payload size, and stripping a trailing fill
    value (Python's `rstrip`). */
module BitCodec {

  /** One payload bit as the Python lists hold it: the integer 0 or 1. */
  type Bit = b: int | 0 <= b <= 1

  /** One element of a Python `bytes` value. */
  type Byte = b: int | 0 <= b < 256

  function Min(a: int, b: int): int { if a < b then a else b }

  function Max(a: int, b: int): int { if a < b then b else a }

  function Pow2(n: nat): (p: nat)
    ensures p >= 1
  {
    if n == 0 then 1 else 2 * Pow2(n - 1)
  }

  lemma {:induction false} Pow2Monotone(m: nat, n: nat)
    requires m <= n
    ensures Pow2(m) <= Pow2(n)
  {
    if m < n { Pow2Monotone(m, n - 1); }
  }

  lemma MulEight(a: nat)
    ensures (8 * a) % 8 == 0 && (8 * a) / 8 == a
  {
  }

  lemma Pow2Eight()
    ensures Pow2(8) == 256
  {
  }

  /** Python's `[x] * n`. */
  function Repeat<T>(x: T, n: nat): (r: seq<T>)
    ensures |r| == n
    ensures forall i :: 0 <= i < n ==> r[i] == x
  {
    seq(n, _ => x)
  }

  /** Python's `^` on two bits. */
  function Xor(a: Bit, b: Bit): (r: Bit)
    ensures r == (a as int + b) % 2
  {
    if a == b then 0 else 1
  }

  /** Bit k of v, counting from the least significant bit 0. */
  function BitOf(v: nat, k: nat): Bit
  {
    if k == 0 then v % 2 else BitOf(v / 2, k - 1)
  }

  /** The `width` lowest binary digits of v, most significant first. */
  function ToBits(v: nat, width: nat): (r: seq<Bit>)
    ensures |r| == width
    ensures forall j :: 0 <= j < width ==> r[j] == BitOf(v, width - 1 - j)
  {
    if width == 0 then [] else ToBits(v / 2, width - 1) + [v % 2]
  }

  /** Python's `int(s, 2)` on a string of binary digits, most significant
      first. The empty string, on which Python raises, never reaches it in
      the payload code: every group taken there has at least one bit. */
  function FromBits(bits: seq<Bit>): (v: nat)
    ensures v < Pow2(|bits|)
  {
    if bits == [] then 0 else 2 * FromBits(bits[..|bits| - 1]) + bits[|bits| - 1]
  }

  lemma {:induction false} FromToBits(v: nat, width: nat)
    requires v < Pow2(width)
    ensures FromBits(ToBits(v, width)) == v
  {
    if width > 0 {
      var digits := ToBits(v / 2, width - 1);
      assert (digits + [v % 2])[..width - 1] == digits;
      FromToBits(v / 2, width - 1);
    }
  }

  lemma {:induction false} ToFromBits(bits: seq<Bit>)
    ensures ToBits(FromBits(bits), |bits|) == bits
  {
    if bits != [] {
      var n := |bits|;
      ToFromBits(bits[..n - 1]);
      assert FromBits(bits) / 2 == FromBits(bits[..n - 1]);
      assert bits == bits[..n - 1] + [bits[n - 1]];
    }
  }

  /** A group of zero digits reads as 0. */
  lemma {:induction false} FromBitsZeros(n: nat)
    ensures FromBits(Repeat<Bit>(0, n)) == 0
  {
    if n > 0 {
      var zeros: seq<Bit> := Repeat<Bit>(0, n);
      assert zeros[..n - 1] == Repeat<Bit>(0, n - 1);
      assert zeros[n - 1] == 0;
      FromBitsZeros(n - 1);
    }
  }

  /** Zero digits appended on the right multiply the number by a power of
      two. */
  lemma {:induction false} FromBitsPadded(g: seq<Bit>, n: nat)
    ensures FromBits(g + Repeat<Bit>(0, n)) == FromBits(g) * Pow2(n)
  {
    if n == 0 {
      assert g + Repeat<Bit>(0, n) == g;
    } else {
      var longer, shorter := g + Repeat<Bit>(0, n), g + Repeat<Bit>(0, n - 1);
      assert longer[..|longer| - 1] == shorter;
      assert longer[|longer| - 1] == 0;
      assert FromBits(longer) == 2 * FromBits(shorter);
      FromBitsPadded(g, n - 1);
      MulTwo(FromBits(g), Pow2(n - 1));
    }
  }

  lemma MulTwo(v: nat, p: nat)
    ensures v * (2 * p) == 2 * (v * p)
  {
  }

  /** Python's `int.bit_length()`: the number of binary digits of v. */
  function BitLength(v: nat): (n: nat)
    ensures v < Pow2(n)
    ensures v > 0 ==> n >= 1 && Pow2(n - 1) <= v
  {
    if v == 0 then 0 else 1 + BitLength(v / 2)
  }

  lemma BitLengthAtMost(v: nat, width: nat)
    requires v < Pow2(width)
    ensures BitLength(v) <= width
  {
  }

  lemma ByteBitLength(v: nat)
    ensures v < 256 ==> BitLength(v) <= 8
  {
    Pow2Eight();
    if v < 256 { BitLengthAtMost(v, 8); }
  }

  /** Python's `format(v, '08b')`: the binary digits of v, left-padded with
      zeros to eight; a value of 256 or more keeps all its digits. */
  function Binary8(v: nat): (r: seq<Bit>)
    ensures |r| == Max(8, BitLength(v))
    ensures v < 256 ==> |r| == 8
    ensures FromBits(r) == v
  {
    var width := Max(8, BitLength(v));
    ByteBitLength(v);
    Pow2Monotone(BitLength(v), width);
    FromToBits(v, width);
    ToBits(v, width)
  }

  /** A value below 256 is formatted as exactly eight digits, its own. */
  lemma Binary8OfByte(v: nat)
    requires v < 256
    ensures Binary8(v) == ToBits(v, 8)
  {
  }

  /** Python's `ord` on every character of a string. */
  function Ords(s: string): (codes: seq<nat>)
    ensures |codes| == |s|
    ensures forall i :: 0 <= i < |s| ==> codes[i] == s[i] as nat
  {
    seq(|s|, i requires 0 <= i < |s| => s[i] as nat)
  }

  /** `"".join(format(c, '08b') for c in codes)`: the digits of every code
      in order. */
  function BitString(codes: seq<nat>): (r: seq<Bit>)
    ensures AllBytes(codes) ==> |r| == 8 * |codes|
  {
    if codes == [] then []
    else Binary8(codes[0]) + BitString(codes[1..])
  }

  /** The digit string of a concatenation is the concatenation of the
      digit strings. */
  lemma {:induction false} BitStringAppend(x: seq<nat>, y: seq<nat>)
    ensures BitString(x + y) == BitString(x) + BitString(y)
  {
    if x == [] {
      assert x + y == y;
    } else {
      assert (x + y)[0] == x[0] && (x + y)[1..] == x[1..] + y;
      BitStringAppend(x[1..], y);
    }
  }

  /** One step of a loop that formats the codes one at a time. */
  lemma BitStringStep(codes: seq<nat>, k: nat)
    requires k < |codes|
    ensures BitString(codes[k..]) == Binary8(codes[k]) + BitString(codes[k + 1..])
  {
    assert codes[k..][0] == codes[k] && codes[k..][1..] == codes[k + 1..];
  }

  /** The first 8q digits of a digit string are those of its first q
      codes, when these are below 256. */
  lemma BitStringPrefix(codes: seq<nat>, q: nat)
    requires q <= |codes| && AllBytes(codes[..q])
    ensures FitToPayload(BitString(codes), 8 * q) == BitString(codes[..q])
  {
    var kept, dropped := codes[..q], codes[q..];
    SplitAt(codes, q);
    BitStringAppend(kept, dropped);
    FitPrefix(BitString(kept), BitString(dropped), 8 * q);
  }

  /** Every code of the sequence is below 256, so each is one byte. */
  predicate AllBytes(codes: seq<nat>)
  {
    forall k :: 0 <= k < |codes| ==> codes[k] < 256
  }

  /** With codes below 256, bit i of the string is bit 7 - i mod 8 of code
      i / 8: each code takes eight bits, most significant first, in order. */
  lemma {:induction false} BitStringAt(codes: seq<nat>, i: nat)
    requires AllBytes(codes)
    requires i < 8 * |codes|
    ensures |BitString(codes)| == 8 * |codes|
    ensures BitString(codes)[i] == BitOf(codes[i / 8], 7 - i % 8)
  {
    var tail := codes[1..];
    assert BitString(codes) == Binary8(codes[0]) + BitString(tail);
    if i < 8 {
      Binary8OfByte(codes[0]);
      assert i / 8 == 0 && i % 8 == i;
      assert BitString(codes)[i] == Binary8(codes[0])[i];
    } else {
      AllBytesTail(codes);
      BitStringAt(tail, i - 8);
      assert (i - 8) / 8 == i / 8 - 1 && (i - 8) % 8 == i % 8;
      assert BitString(codes)[i] == BitString(tail)[i - 8];
    }
  }

  lemma AllBytesTail(codes: seq<nat>)
    requires codes != [] && AllBytes(codes)
    ensures AllBytes(codes[1..]) && codes[0] < 256
  {
    var tail := codes[1..];
    forall k | 0 <= k < |tail| ensures tail[k] < 256 { assert tail[k] == codes[k + 1]; }
  }

  /** Python's `block + [0]*(n - len(block))`: zeros appended up to length n;
      a block of length n or more is left as it is. */
  function Pad(block: seq<Bit>, n: nat): (r: seq<Bit>)
    ensures |r| == Max(n, |block|)
    ensures r[..|block|] == block
    ensures forall i :: |block| <= i < |r| ==> r[i] == 0
  {
    if |block| < n then block + Repeat<Bit>(0, n - |block|) else block
  }

  /** A bit stream brought to exactly n bits: cut to its first n bits, or
      followed by zeros up to n. */
  function FitToPayload(bits: seq<Bit>, n: nat): (r: seq<Bit>)
    ensures |r| == n
    ensures forall i :: 0 <= i < Min(n, |bits|) ==> r[i] == bits[i]
    ensures forall i :: |bits| <= i < n ==> r[i] == 0
  {
    if |bits| < n then bits + Repeat<Bit>(0, n - |bits|) else bits[..n]
  }

  /** A stream of at most n bits is zero-filled to n. */
  lemma FitPadded(x: seq<Bit>, n: nat)
    requires |x| <= n
    ensures FitToPayload(x, n) == x + Repeat<Bit>(0, n - |x|)
  {
    if |x| == n {
      assert x[..n] == x + Repeat<Bit>(0, 0);
    }
  }

  /** A stream whose first n bits are x is cut to x. */
  lemma FitPrefix(x: seq<Bit>, y: seq<Bit>, n: nat)
    requires |x| == n
    ensures FitToPayload(x + y, n) == x
  {
    assert (x + y)[..n] == x;
  }

  /** Python's `s.rstrip(z)` for a single fill value z: the longest prefix
      of s that does not end with z, everything after it being z. */
  function RStrip<T(==)>(s: seq<T>, z: T): (r: seq<T>)
    ensures r <= s
    ensures r == [] || r[|r| - 1] != z
    ensures forall i :: |r| <= i < |s| ==> s[i] == z
  {
    if s != [] && s[|s| - 1] == z then RStrip(s[..|s| - 1], z) else s
  }

  /** Stripping undoes appending fill values to a sequence that does not
      already end with the fill value. */
  lemma RStripPadded<T>(s: seq<T>, z: T, n: nat)
    requires s == [] || s[|s| - 1] != z
    ensures RStrip(s + Repeat(z, n), z) == s
  {
    var padded := s + Repeat(z, n);
    var r := RStrip(padded, z);
    assert s != [] ==> padded[|s| - 1] != z;
    assert |r| == |s|;
    assert r == padded[..|r|];
  }

  lemma SplitAt<T>(s: seq<T>, q: nat)
    requires q <= |s|
    ensures s == s[..q] + s[q..]
  {
  }

  lemma HeadOfSuffix<T>(s: seq<T>, j: nat)
    requires j < |s|
    ensures s[j] == s[j..][0]
  {
  }

  lemma SliceOfSuffix<T>(s: seq<T>, a: nat, n: nat)
    requires a + n <= |s|
    ensures s[a..][..n] == s[a..a + n]
  {
  }

  lemma SuffixOfSuffix<T>(s: seq<T>, a: nat, b: nat)
    requires a + b <= |s|
    ensures s[a..][b..] == s[a + b..]
  {
  }

  /** Moving the next piece from the unprocessed rest onto the accumulator. */
  lemma AppendRegroup<T>(acc: seq<T>, x: seq<T>, rest: seq<T>, whole: seq<T>)
    requires acc + (x + rest) == whole
    ensures (acc + x) + rest == whole
  {
  }
}

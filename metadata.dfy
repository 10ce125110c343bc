/** The metadata text a payload carries, `username|timestamp`: how the
    services build it, how it becomes bytes (UTF-8, section 3 of RFC 3629),
    and how the decoding routes split it back into a fingerprint and a
    timestamp. */
module Metadata {
  import opened BitCodec

  /** The two fields the decoding routes report. */
  datatype Fields = Fields(fingerprint: string, timestamp: string)

  /** `f"{username}|{timestamp}"`. The timestamp is the caller's rendering
      of the current time as `%Y-%m-%d %H:%M:%S`. */
  function Join(username: string, timestamp: string): string
  {
    username + "|" + timestamp
  }

  /** The decoding routes' split: with a '|' in the text, the fingerprint is
      everything before the first '|' and the timestamp everything after it
      (further '|' included), as `text.split("|", 1)` gives; without one,
      the fingerprint is the whole text and the timestamp is empty. */
  function Split(text: string): (f: Fields)
    ensures '|' in text ==> f.fingerprint + "|" + f.timestamp == text && '|' !in f.fingerprint
    ensures '|' !in text ==> f == Fields(text, "")
  {
    if text == [] then Fields("", "")
    else if text[0] == '|' then Fields("", text[1..])
    else
      var rest := Split(text[1..]);
      assert text == [text[0]] + text[1..];
      Fields([text[0]] + rest.fingerprint, rest.timestamp)
  }

  /** Splitting a joined `username|timestamp` gives both fields back
      whenever the username has no '|'; the timestamp may contain any
      character. */
  lemma {:induction false} SplitJoin(username: string, timestamp: string)
    requires '|' !in username
    ensures Split(Join(username, timestamp)) == Fields(username, timestamp)
  {
    var text := Join(username, timestamp);
    if username != [] {
      assert text[1..] == Join(username[1..], timestamp);
      SplitJoin(username[1..], timestamp);
      assert [username[0]] + username[1..] == username;
    }
  }

  /** A username with a '|' is cut at its first '|': the fingerprint is the
      part of the username before it. */
  lemma {:induction false} SplitJoinWithBar(username: string, timestamp: string, i: nat)
    requires i < |username| && username[i] == '|' && '|' !in username[..i]
    ensures Split(Join(username, timestamp)).fingerprint == username[..i]
  {
    var text := Join(username, timestamp);
    if i == 0 {
      assert text[0] == '|';
    } else {
      assert text[1..] == Join(username[1..], timestamp);
      assert username[1..][..i - 1] == username[..i][1..];
      SplitJoinWithBar(username[1..], timestamp, i - 1);
      assert [username[0]] + username[..i][1..] == username[..i];
    }
  }

  /** The UTF-8 bytes of one character (a Unicode scalar value): one byte
      below U+0080, then two, three or four bytes, each after the first of
      the form 10xxxxxx. */
  function Utf8Char(c: char): (r: seq<Byte>)
    ensures 1 <= |r| <= 4
    ensures (|r| == 1) == (c as int < 0x80)
    ensures |r| == 1 ==> r[0] == c as int
    ensures |r| == Utf8Length(r[0])
    ensures (0 in r) <==> c == '\0'
    ensures (0x7C in r) <==> c == '|'
  {
    var v := c as int;
    if v < 0x80 then [v]
    else if v < 0x800 then [0xC0 + v / 0x40, 0x80 + v % 0x40]
    else if v < 0x10000 then [0xE0 + v / 0x1000, 0x80 + (v / 0x40) % 0x40, 0x80 + v % 0x40]
    else [0xF0 + v / 0x40000, 0x80 + (v / 0x1000) % 0x40, 0x80 + (v / 0x40) % 0x40, 0x80 + v % 0x40]
  }

  /** The length of a UTF-8 sequence, read from its lead byte. */
  function Utf8Length(lead: Byte): nat
  {
    if lead < 0x80 then 1 else if lead < 0xE0 then 2 else if lead < 0xF0 then 3 else 4
  }

  /** The code point a one- to four-byte UTF-8 sequence stands for: the
      payload bits of the lead byte followed by six bits per continuation
      byte. */
  function Utf8Scalar(r: seq<Byte>): int
    requires 1 <= |r| <= 4
  {
    var b := seq(|r|, k requires 0 <= k < |r| => r[k] as int);
    if |r| == 1 then b[0]
    else if |r| == 2 then (b[0] - 0xC0) * 0x40 + (b[1] - 0x80)
    else if |r| == 3 then (b[0] - 0xE0) * 0x1000 + (b[1] - 0x80) * 0x40 + (b[2] - 0x80)
    else (b[0] - 0xF0) * 0x40000 + (b[1] - 0x80) * 0x1000 + (b[2] - 0x80) * 0x40 + (b[3] - 0x80)
  }

  /** Reading the bytes of a character back gives the character. */
  lemma Utf8CharRoundTrip(c: char)
    ensures Utf8Scalar(Utf8Char(c)) == c as int
  {
    var v := c as int;
    if v >= 0x80 {
      assert v == (v / 0x40) * 0x40 + v % 0x40;
      assert v / 0x40 == (v / 0x1000) * 0x40 + (v / 0x40) % 0x40;
      assert v / 0x1000 == (v / 0x40000) * 0x40 + (v / 0x1000) % 0x40;
    }
  }

  /** `s.encode("utf-8")`. */
  function Utf8Encode(s: string): (r: seq<Byte>)
    ensures |s| <= |r| <= 4 * |s|
    ensures (0 in r) <==> ('\0' in s)
    ensures (0x7C in r) <==> ('|' in s)
  {
    if s == [] then []
    else
      assert s == [s[0]] + s[1..];
      Utf8Char(s[0]) + Utf8Encode(s[1..])
  }

  /** Encoding a concatenation is concatenating the encodings. */
  lemma {:induction false} Utf8EncodeAppend(a: string, b: string)
    ensures Utf8Encode(a + b) == Utf8Encode(a) + Utf8Encode(b)
  {
    if a == [] {
      assert a + b == b;
    } else {
      var ab := a + b;
      assert ab[0] == a[0] && ab[1..] == a[1..] + b;
      Utf8EncodeAppend(a[1..], b);
      assert Utf8Encode(ab) == Utf8Char(a[0]) + Utf8Encode(a[1..] + b);
    }
  }

  /** The encoding of a non-empty string ends in a zero byte exactly when
      the string ends in NUL: every other character's bytes are non-zero. */
  lemma Utf8EncodeLastByte(s: string)
    requires s != []
    ensures |Utf8Encode(s)| >= 1
    ensures (Utf8Encode(s)[|Utf8Encode(s)| - 1] == 0) <==> s[|s| - 1] == '\0'
  {
    var n := |s|;
    var init, c := s[..n - 1], s[n - 1];
    assert s == init + [c];
    Utf8EncodeAppend(init, [c]);
    assert Utf8Encode([c]) == Utf8Char(c) + Utf8Encode([c][1..]);
    assert [c][1..] == [];
    var r := Utf8Char(c);
    assert r[|r| - 1] in r;
  }

  /** Different strings have different UTF-8 encodings, so decoding a valid
      encoding recovers the one string it came from. */
  lemma {:induction false} Utf8EncodeInjective(a: string, b: string)
    requires Utf8Encode(a) == Utf8Encode(b)
    ensures a == b
  {
    if a != [] && b != [] {
      var ha, hb := Utf8Char(a[0]), Utf8Char(b[0]);
      var e := Utf8Encode(a);
      assert e == ha + Utf8Encode(a[1..]);
      assert e == hb + Utf8Encode(b[1..]);
      assert ha[0] == e[0] == hb[0];
      assert ha == e[..|ha|] == hb;
      Utf8CharRoundTrip(a[0]);
      Utf8CharRoundTrip(b[0]);
      assert e[|ha|..] == Utf8Encode(a[1..]) == Utf8Encode(b[1..]);
      Utf8EncodeInjective(a[1..], b[1..]);
      assert a == [a[0]] + a[1..] && b == [b[0]] + b[1..];
    }
  }
}

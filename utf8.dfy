/**
 * UTF-8 as RFC 3629 defines it (section 4, the syntax of UTF-8 byte
 * sequences), which is what `String::from_utf8` accepts, and the lossy
 * decoding `String::from_utf8_lossy` / `CStr::to_string_lossy` perform.
 *
 * Three views of validity are related here: the grammar of one character
 * (`IsChar`), the scanner that walks a buffer (`CharLen`, `Valid`), and the
 * image of the encoder of Unicode scalar values (`Encode`).
 */
module Utf8 {
  import opened Gp

  /** A Unicode scalar value: a code point that is not a surrogate. */
  type Scalar = c: int | 0 <= c < 0xD800 || 0xE000 <= c < 0x11_0000

  predicate IsTail(b: Byte) { 0x80 <= b <= 0xBF }

  /** RFC 3629 section 4: UTF8-char = UTF8-1 / UTF8-2 / UTF8-3 / UTF8-4. */
  predicate IsChar(e: seq<Byte>) {
    if |e| == 1 then
      e[0] <= 0x7F
    else if |e| == 2 then
      0xC2 <= e[0] <= 0xDF && IsTail(e[1])
    else if |e| == 3 then
      IsTail(e[2]) &&
      ((e[0] == 0xE0 && 0xA0 <= e[1] <= 0xBF) ||
       (0xE1 <= e[0] <= 0xEC && IsTail(e[1])) ||
       (e[0] == 0xED && 0x80 <= e[1] <= 0x9F) ||
       (0xEE <= e[0] <= 0xEF && IsTail(e[1])))
    else if |e| == 4 then
      IsTail(e[2]) && IsTail(e[3]) &&
      ((e[0] == 0xF0 && 0x90 <= e[1] <= 0xBF) ||
       (0xF1 <= e[0] <= 0xF3 && IsTail(e[1])) ||
       (e[0] == 0xF4 && 0x80 <= e[1] <= 0x8F))
    else
      false
  }

  // ---------------------------------------------------------------------
  // The scanner

  /** Length of the character a lead byte announces; 0 if it cannot lead one. */
  function Width(lead: Byte): (w: nat)
    ensures w <= 4
  {
    if lead <= 0x7F then 1
    else if 0xC2 <= lead <= 0xDF then 2
    else if 0xE0 <= lead <= 0xEF then 3
    else if 0xF0 <= lead <= 0xF4 then 4
    else 0
  }

  /** The range RFC 3629 allows for the byte after a given lead byte. */
  predicate SecondOk(lead: Byte, b: Byte) {
    if lead == 0xE0 then 0xA0 <= b <= 0xBF
    else if lead == 0xED then 0x80 <= b <= 0x9F
    else if lead == 0xF0 then 0x90 <= b <= 0xBF
    else if lead == 0xF4 then 0x80 <= b <= 0x8F
    else IsTail(b)
  }

  /**
   * How many bytes at the head of `s` agree with the character its first
   * byte announces (at most that character's width).
   */
  function PrefixLen(s: seq<Byte>): (n: nat)
    ensures n <= |s| && n <= 4
    ensures |s| > 0 ==> n <= Width(s[0])
    ensures |s| > 0 && Width(s[0]) > 0 ==> n >= 1
  {
    if |s| == 0 || Width(s[0]) == 0 then 0
    else if Width(s[0]) == 1 || |s| == 1 || !SecondOk(s[0], s[1]) then 1
    else if Width(s[0]) == 2 || |s| == 2 || !IsTail(s[2]) then 2
    else if Width(s[0]) == 3 || |s| == 3 || !IsTail(s[3]) then 3
    else 4
  }

  /** Length of the well-formed character at the head of `s`; 0 if there is none. */
  function CharLen(s: seq<Byte>): (n: nat)
    ensures n <= |s| && n <= 4
    ensures n > 0 ==> IsChar(s[..n])
    ensures forall k :: 1 <= k <= |s| && IsChar(s[..k]) ==> n == k
  {
    if |s| > 0 && PrefixLen(s) == Width(s[0]) then PrefixLen(s) else 0
  }

  /** `s` is a sequence of well-formed characters (RFC 3629: UTF8-octets = *( UTF8-char )). */
  predicate Valid(s: seq<Byte>)
    decreases |s|
  {
    |s| == 0 || (CharLen(s) > 0 && Valid(s[CharLen(s)..]))
  }

  /** The scanner reads exactly one character off a character followed by anything. */
  lemma CharLenOfChar(e: seq<Byte>, rest: seq<Byte>)
    requires IsChar(e)
    ensures CharLen(e + rest) == |e|
  {
    assert (e + rest)[..|e|] == e;
  }

  /** A character in front of valid text keeps it valid. */
  lemma ValidCons(e: seq<Byte>, rest: seq<Byte>)
    requires IsChar(e) && Valid(rest)
    ensures Valid(e + rest)
  {
    CharLenOfChar(e, rest);
    assert (e + rest)[|e|..] == rest;
  }

  // ---------------------------------------------------------------------
  // Encoding and decoding scalar values

  /** The UTF-8 encoding of one scalar value (RFC 3629 section 3). */
  function EncodeChar(c: Scalar): (e: seq<Byte>)
    ensures IsChar(e)
  {
    if c < 0x80 then
      [c as Byte]
    else if c < 0x800 then
      [(0xC0 + c / 64) as Byte, (0x80 + c % 64) as Byte]
    else if c < 0x1_0000 then
      [(0xE0 + c / 4096) as Byte, (0x80 + c / 64 % 64) as Byte, (0x80 + c % 64) as Byte]
    else
      [(0xF0 + c / 262144) as Byte, (0x80 + c / 4096 % 64) as Byte,
       (0x80 + c / 64 % 64) as Byte, (0x80 + c % 64) as Byte]
  }

  /** The scalar value one well-formed character encodes. */
  function DecodeChar(e: seq<Byte>): (c: Scalar)
    requires IsChar(e)
  {
    if |e| == 1 then
      e[0] as int
    else if |e| == 2 then
      (e[0] as int - 0xC0) * 64 + (e[1] as int - 0x80)
    else if |e| == 3 then
      (e[0] as int - 0xE0) * 4096 + (e[1] as int - 0x80) * 64 + (e[2] as int - 0x80)
    else
      (e[0] as int - 0xF0) * 262144 + (e[1] as int - 0x80) * 4096
        + (e[2] as int - 0x80) * 64 + (e[3] as int - 0x80)
  }

  lemma DivMod64(c: int, q: int, r: int)
    requires c == q * 64 + r && 0 <= r < 64
    ensures c / 64 == q && c % 64 == r
  {
  }

  lemma DivMod4096(c: int, q: int, r: int)
    requires c == q * 4096 + r && 0 <= r < 4096
    ensures c / 4096 == q
  {
  }

  lemma DivMod262144(c: int, q: int, r: int)
    requires c == q * 262144 + r && 0 <= r < 262144
    ensures c / 262144 == q
  {
  }

  /** Decoding undoes encoding for a single scalar value. */
  lemma DecodeEncodeChar(c: Scalar)
    ensures DecodeChar(EncodeChar(c)) == c
  {
    var e := EncodeChar(c);
    if c < 0x80 {
    } else if c < 0x800 {
      DivMod64(c, c / 64, c % 64);
      assert e[0] as int - 0xC0 == c / 64 && e[1] as int - 0x80 == c % 64;
    } else if c < 0x1_0000 {
      var x, y, z := c / 4096, c / 64 % 64, c % 64;
      assert c / 64 == (c / 64 / 64) * 64 + y;
      DivMod4096(c, c / 64 / 64, y * 64 + z);
      assert e[0] as int - 0xE0 == x && e[1] as int - 0x80 == y && e[2] as int - 0x80 == z;
      assert c == x * 4096 + y * 64 + z;
    } else {
      var w, x, y, z := c / 262144, c / 4096 % 64, c / 64 % 64, c % 64;
      var c1 := c / 64;
      var c2 := c1 / 64;
      assert c1 == c2 * 64 + y;
      assert c2 == (c2 / 64) * 64 + c2 % 64;
      DivMod4096(c, c2, y * 64 + z);
      DivMod262144(c, c2 / 64, (c2 % 64) * 4096 + y * 64 + z);
      assert e[0] as int - 0xF0 == w && e[1] as int - 0x80 == x;
      assert e[2] as int - 0x80 == y && e[3] as int - 0x80 == z;
      assert c == w * 262144 + x * 4096 + y * 64 + z;
    }
  }

  /** Encoding undoes decoding for a single well-formed character. */
  lemma EncodeDecodeChar(e: seq<Byte>)
    requires IsChar(e)
    ensures EncodeChar(DecodeChar(e)) == e
  {
    var c := DecodeChar(e);
    if |e| == 2 {
      DivMod64(c, e[0] as int - 0xC0, e[1] as int - 0x80);
    } else if |e| == 3 {
      var x, y, z := e[0] as int - 0xE0, e[1] as int - 0x80, e[2] as int - 0x80;
      DivMod64(c, x * 64 + y, z);
      DivMod64(c / 64, x, y);
      DivMod4096(c, x, y * 64 + z);
    } else if |e| == 4 {
      var w, x, y, z := e[0] as int - 0xF0, e[1] as int - 0x80, e[2] as int - 0x80, e[3] as int - 0x80;
      DivMod64(c, (w * 64 + x) * 64 + y, z);
      DivMod64(c / 64, w * 64 + x, y);
      DivMod4096(c, w * 64 + x, y * 64 + z);
      DivMod64(c / 4096, w, x);
      DivMod262144(c, w, x * 4096 + y * 64 + z);
    }
  }

  /** The encoding of a string of scalar values. */
  function Encode(cs: seq<Scalar>): (s: seq<Byte>)
  {
    if cs == [] then [] else EncodeChar(cs[0]) + Encode(cs[1..])
  }

  /** The scalar values of valid text (what a Rust `str` holds). */
  function Decode(s: seq<Byte>): (cs: seq<Scalar>)
    requires Valid(s)
    decreases |s|
  {
    if |s| == 0 then [] else [DecodeChar(s[..CharLen(s)])] + Decode(s[CharLen(s)..])
  }

  /** Every encoding is valid and decodes back to what was encoded. */
  lemma {:induction false} DecodeEncode(cs: seq<Scalar>)
    ensures Valid(Encode(cs))
    ensures Decode(Encode(cs)) == cs
  {
    if cs != [] {
      var e := EncodeChar(cs[0]);
      DecodeEncode(cs[1..]);
      ValidCons(e, Encode(cs[1..]));
      CharLenOfChar(e, Encode(cs[1..]));
      assert (e + Encode(cs[1..]))[..|e|] == e;
      assert (e + Encode(cs[1..]))[|e|..] == Encode(cs[1..]);
      DecodeEncodeChar(cs[0]);
    }
  }

  /** Valid text is the encoding of what it decodes to. */
  lemma {:induction false} EncodeDecode(s: seq<Byte>)
    requires Valid(s)
    ensures Encode(Decode(s)) == s
    decreases |s|
  {
    if |s| > 0 {
      var n := CharLen(s);
      EncodeDecode(s[n..]);
      var c := DecodeChar(s[..n]);
      var cs := [c] + Decode(s[n..]);
      assert Decode(s) == cs;
      EncodeDecodeChar(s[..n]);
      assert cs[0] == c && cs[1..] == Decode(s[n..]);
      assert Encode(cs) == EncodeChar(c) + Encode(Decode(s[n..]));
      assert s == s[..n] + s[n..];
    }
  }

  /** The scanner accepts exactly the encodings of strings of scalar values. */
  lemma ValidIffEncoding(s: seq<Byte>)
    ensures Valid(s) <==> exists cs :: Encode(cs) == s
  {
    if Valid(s) {
      EncodeDecode(s);
    }
    if cs :| Encode(cs) == s {
      DecodeEncode(cs);
    }
  }

  /** Only the scalar value U+0000 is encoded with a NUL byte. */
  lemma {:induction false} EncodeWithoutNul(cs: seq<Scalar>)
    requires forall i :: 0 <= i < |cs| ==> cs[i] != 0
    ensures 0 !in Encode(cs)
  {
    if cs != [] {
      EncodeWithoutNul(cs[1..]);
      var e := EncodeChar(cs[0]);
      assert 0 !in e;
      assert Encode(cs) == e + Encode(cs[1..]);
    }
  }

  // ---------------------------------------------------------------------
  // Lossy decoding

  /** The encoding of U+FFFD REPLACEMENT CHARACTER. */
  const Replacement: seq<Byte> := [0xEF, 0xBF, 0xBD]

  /**
   * Lossy decoding: well-formed characters are kept, and each maximal
   * ill-formed subpart (the longest head that could still start a
   * character, at least one byte) becomes U+FFFD.
   */
  function Lossy(s: seq<Byte>): (r: seq<Byte>)
    decreases |s|
  {
    if |s| == 0 then []
    else if CharLen(s) > 0 then s[..CharLen(s)] + Lossy(s[CharLen(s)..])
    else Replacement + Lossy(s[if PrefixLen(s) == 0 then 1 else PrefixLen(s)..])
  }

  /** Lossy decoding always yields valid text. */
  lemma {:induction false} LossyValid(s: seq<Byte>)
    ensures Valid(Lossy(s))
    decreases |s|
  {
    if |s| == 0 {
    } else if CharLen(s) > 0 {
      var n := CharLen(s);
      LossyValid(s[n..]);
      ValidCons(s[..n], Lossy(s[n..]));
    } else {
      var k := if PrefixLen(s) == 0 then 1 else PrefixLen(s);
      LossyValid(s[k..]);
      assert IsChar(Replacement);
      ValidCons(Replacement, Lossy(s[k..]));
    }
  }

  /** Lossy decoding changes nothing exactly when the input is valid. */
  lemma {:induction false} LossyIdentity(s: seq<Byte>)
    ensures Lossy(s) == s <==> Valid(s)
    decreases |s|
  {
    if Valid(s) {
      if |s| > 0 {
        var n := CharLen(s);
        LossyIdentity(s[n..]);
        assert s == s[..n] + s[n..];
      }
    } else {
      LossyValid(s);
    }
  }
}

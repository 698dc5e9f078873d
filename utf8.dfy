/**
 * Rust text as bytes: a `&str` is a sequence of bytes that is well-formed
 * UTF-8 (RFC 3629), and every length and index the source uses counts bytes.
 */
module Utf8 {

  type byte = b: int | 0 <= b < 256

  /** A continuation byte has the bit pattern 10xxxxxx. */
  predicate IsContinuation(b: byte) {
    0x80 <= b < 0xC0
  }

  /**
   * `str::is_char_boundary`: index 0, the end of the string, or an index
   * whose byte is not a continuation byte. An index past the end is not one.
   */
  predicate IsCharBoundary(s: seq<byte>, i: nat): (b: bool)
    ensures b ==> i <= |s|
    ensures i == 0 || i == |s| ==> b
  {
    if i == 0 then true
    else if i < |s| then !IsContinuation(s[i])
    else i == |s|
  }

  /** Only the 7-bit subset: every byte is a code point of its own. */
  predicate IsAscii(s: seq<byte>) {
    forall i :: 0 <= i < |s| ==> s[i] < 0x80
  }

  /** The second byte allowed after a lead byte (the table of RFC 3629, section 4). */
  predicate SecondByteOk(lead: byte, b: byte) {
    if lead == 0xE0 then 0xA0 <= b <= 0xBF
    else if lead == 0xED then 0x80 <= b <= 0x9F
    else if lead == 0xF0 then 0x90 <= b <= 0xBF
    else if lead == 0xF4 then 0x80 <= b <= 0x8F
    else IsContinuation(b)
  }

  /** Width in bytes of the well-formed code point that begins s, or 0 if s does not begin with one. */
  function LeadWidth(s: seq<byte>): (w: nat)
    ensures w <= 4 && w <= |s|
    ensures w > 0 ==> !IsContinuation(s[0])
    ensures forall j :: 1 <= j < w ==> IsContinuation(s[j])
  {
    if |s| == 0 then 0
    else if s[0] < 0x80 then 1
    else if 0xC2 <= s[0] <= 0xDF then
      (if |s| >= 2 && IsContinuation(s[1]) then 2 else 0)
    else if 0xE0 <= s[0] <= 0xEF then
      (if |s| >= 3 && SecondByteOk(s[0], s[1]) && IsContinuation(s[2]) then 3 else 0)
    else if 0xF0 <= s[0] <= 0xF4 then
      (if |s| >= 4 && SecondByteOk(s[0], s[1]) && IsContinuation(s[2]) && IsContinuation(s[3]) then 4 else 0)
    else 0
  }

  /** Well-formed UTF-8: a sequence of well-formed code points. */
  predicate ValidUtf8(s: seq<byte>)
    decreases |s|
  {
    s == [] || (LeadWidth(s) > 0 && ValidUtf8(s[LeadWidth(s)..]))
  }

  /** The UTF-8 encoding of one Unicode scalar value. */
  function EncodeChar(c: char): (e: seq<byte>)
    ensures 1 <= |e| <= 4 && LeadWidth(e) == |e|
  {
    var n := c as int;
    if n < 0x80 then [n]
    else if n < 0x800 then
      TwoByteRanges(n);
      [0xC0 + n / 64, 0x80 + n % 64]
    else if n < 0x10000 then
      ThreeByteRanges(n);
      [0xE0 + n / 4096, 0x80 + (n / 64) % 64, 0x80 + n % 64]
    else
      FourByteRanges(n);
      [0xF0 + n / 0x40000, 0x80 + (n / 4096) % 64, 0x80 + (n / 64) % 64, 0x80 + n % 64]
  }

  lemma TwoByteRanges(n: int)
    requires 0x80 <= n < 0x800
    ensures 0xC2 <= 0xC0 + n / 64 <= 0xDF
  {
  }

  lemma ThreeByteRanges(n: int)
    requires 0x800 <= n < 0x10000 && !(0xD800 <= n < 0xE000)
    ensures 0xE0 <= 0xE0 + n / 4096 <= 0xEF
    ensures n / 4096 == 0 ==> 0x20 <= (n / 64) % 64
    ensures n / 4096 == 0xD ==> (n / 64) % 64 < 0x20
  {
  }

  lemma FourByteRanges(n: int)
    requires 0x10000 <= n < 0x110000
    ensures 0xF0 <= 0xF0 + n / 0x40000 <= 0xF4
    ensures n / 0x40000 == 0 ==> 0x10 <= (n / 4096) % 64
    ensures n / 0x40000 == 4 ==> (n / 4096) % 64 < 0x10
  {
  }

  /** The bytes of a Rust string literal. */
  function EncodeUtf8(s: string): seq<byte>
  {
    if s == [] then [] else EncodeChar(s[0]) + EncodeUtf8(s[1..])
  }

  /**
   * The bytes of a 7-bit string literal, one per character (a character
   * outside ASCII would become '?'); for ASCII text this is its UTF-8
   * encoding, see AsciiBytesIsUtf8.
   */
  function AsciiBytes(s: string): seq<byte>
  {
    seq(|s|, i requires 0 <= i < |s| => if s[i] as int < 0x80 then s[i] as int else '?' as int)
  }

  /** LeadWidth looks only at the bytes of the code point it measures. */
  lemma LeadWidthOfExtension(s: seq<byte>, t: seq<byte>)
    requires LeadWidth(s) > 0 && LeadWidth(s) <= |t|
    requires t[..LeadWidth(s)] == s[..LeadWidth(s)]
    ensures LeadWidth(t) == LeadWidth(s)
  {
  }

  /** Well-formed UTF-8 followed by well-formed UTF-8 is well-formed. */
  lemma {:induction false} ValidUtf8Append(a: seq<byte>, b: seq<byte>)
    requires ValidUtf8(a) && ValidUtf8(b)
    ensures ValidUtf8(a + b)
    decreases |a|
  {
    if a == [] {
      assert a + b == b;
    } else {
      var w := LeadWidth(a);
      ValidUtf8Append(a[w..], b);
      ValidUtf8PrependCodePoint(a, w, b);
    }
  }

  /** The first code point of a, put before well-formed text that continues a after it, keeps it well-formed. */
  lemma ValidUtf8PrependCodePoint(a: seq<byte>, w: nat, b: seq<byte>)
    requires 0 < w == LeadWidth(a) && ValidUtf8(a[w..] + b)
    ensures ValidUtf8(a + b)
  {
    var ab := a + b;
    assert ab[..w] == a[..w];
    LeadWidthOfExtension(a, ab);
    assert ab[w..] == a[w..] + b;
  }

  /** Encoding yields well-formed UTF-8. */
  lemma {:induction false} EncodeUtf8IsValid(s: string)
    ensures ValidUtf8(EncodeUtf8(s))
  {
    if s != [] {
      var e, rest := EncodeChar(s[0]), EncodeUtf8(s[1..]);
      EncodeUtf8IsValid(s[1..]);
      LeadWidthOfExtension(e, e + rest);
      assert (e + rest)[|e|..] == rest;
    }
  }

  /** Encoding distributes over concatenation. */
  lemma {:induction false} EncodeUtf8Append(a: string, b: string)
    ensures EncodeUtf8(a + b) == EncodeUtf8(a) + EncodeUtf8(b)
  {
    if a == [] {
      assert a + b == b;
    } else {
      assert (a + b)[1..] == a[1..] + b;
      EncodeUtf8Append(a[1..], b);
    }
  }

  /** Cutting well-formed UTF-8 at a char boundary leaves well-formed UTF-8. */
  lemma {:induction false} BoundaryPrefixIsValid(s: seq<byte>, k: nat)
    requires ValidUtf8(s) && IsCharBoundary(s, k)
    ensures ValidUtf8(s[..k])
    decreases |s|
  {
    if k == 0 {
      assert s[..k] == [];
    } else if k == |s| {
      assert s[..k] == s;
    } else {
      var w := LeadWidth(s);
      assert w <= k;
      LeadWidthOfExtension(s, s[..k]);
      BoundaryPrefixIsValid(s[w..], k - w);
      assert s[..k][w..] == s[w..][..k - w];
    }
  }

  /** Text made of 7-bit characters only. */
  predicate IsAsciiText(s: string) {
    forall i :: 0 <= i < |s| ==> s[i] as int < 0x80
  }

  /** ASCII text encodes to one byte per character, each its code. */
  lemma {:induction false} EncodeAscii(s: string)
    requires IsAsciiText(s)
    ensures |EncodeUtf8(s)| == |s| && IsAscii(EncodeUtf8(s))
    ensures forall i :: 0 <= i < |s| ==> EncodeUtf8(s)[i] == s[i] as int
  {
    if s != [] {
      EncodeAscii(s[1..]);
    }
  }

  /** For ASCII text the one-byte-per-character form is the UTF-8 encoding. */
  lemma AsciiBytesIsUtf8(s: string)
    requires IsAsciiText(s)
    ensures AsciiBytes(s) == EncodeUtf8(s)
  {
  }

  /** In ASCII text every index up to the length is a char boundary. */
  lemma AsciiBoundaries(s: seq<byte>, k: nat)
    requires IsAscii(s) && k <= |s|
    ensures IsCharBoundary(s, k)
  {
  }

  /** Every byte of a non-empty encoding after the first is a continuation byte, and the first is not. */
  lemma EncodeCharShape(c: char)
    ensures !IsContinuation(EncodeChar(c)[0])
    ensures forall j :: 1 <= j < |EncodeChar(c)| ==> IsContinuation(EncodeChar(c)[j])
  {
  }
}

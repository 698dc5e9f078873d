/**
 * The benchmark's boundary-safe truncation into a 63-byte `ArrayString`,
 * with the benchmark's own inputs and expected outputs as witnesses.
 */
module FixedStringsBench {
  import opened Wrappers
  import opened Utf8
  import opened FixedString

  /** Capacity of the benchmarked buffer (63 bytes of content, 64 in all). */
  const RequestIdDataLength: nat := 63

  /** `usize::saturating_sub`: subtraction that stops at zero. */
  function SaturatingSub(a: nat, b: nat): (r: nat)
    ensures r + b >= a
    ensures r == 0 || r + b == a
  {
    if a >= b then a - b else 0
  }

  /**
   * `array_vec_string`: start at min(len, 63), step the cut point down with
   * a saturating subtraction until it is a char boundary, split there and
   * copy the prefix into the fixed-capacity buffer (whose `unwrap` cannot fail).
   */
  method ArrayVecString(input: seq<byte>) returns (r: seq<byte>)
    ensures r == TruncatedTo(input, RequestIdDataLength)
    ensures |r| <= RequestIdDataLength
    ensures ValidUtf8(input) ==> ValidUtf8(r)
  {
    var minLength: nat := Min(|input|, RequestIdDataLength);
    while !IsCharBoundary(input, minLength)
      invariant minLength <= Min(|input|, RequestIdDataLength)
      invariant FloorBoundary(input, minLength) == FloorBoundary(input, Min(|input|, RequestIdDataLength))
      decreases minLength
    {
      minLength := SaturatingSub(minLength, 1);
    }
    var (truncated, _) := SplitAt(input, minLength).value;
    r := FromStr(RequestIdDataLength, truncated).value;
    TruncatedToIsLongestBoundaryPrefix(input, RequestIdDataLength);
    if ValidUtf8(input) {
      TruncatedToIsValid(input, RequestIdDataLength);
    }
  }

  // The benchmark's test strings, written in pieces; the concatenations are the source's literals.

  const Expected: string :=
    "This is a very long " + "string and should get " + "truncated at some poi"
  const TestStr: string :=
    Expected + TestStrRest
  /** What the truncation of TEST_STR drops. */
  const TestStrRest: string :=
    "nt, because we have " + "a fixed length."

  /** The ASCII text before the emoji. */
  const EmojiPrefix: string :=
    "Let's run test strings " + "with some special chars " + "like emojis "
  const Expected2: string :=
    EmojiPrefix + "\U{1F468}"
  /** Ends in the family emoji: man, ZWJ, man, ZWJ, boy, ZWJ, boy. */
  const EmojiStr: string :=
    Expected2 + EmojiStrRest
  /** What the truncation of EMOJI_STR drops: from the first zero-width joiner on. */
  const EmojiStrRest: string :=
    "\U{200D}\U{1F468}\U{200D}\U{1F466}\U{200D}\U{1F466}."

  /** A hyphenated UUID, 36 bytes. */
  const ShortStr: string := "a31eaf0c-" + "a573-44c9-9e47-" + "e26a1d6c53b1"

  /** Three ASCII pieces encode to one byte per character. */
  lemma EncodeAsciiPieces(a: string, b: string, c: string)
    requires IsAsciiText(a) && IsAsciiText(b) && IsAsciiText(c)
    ensures |EncodeUtf8(a + b + c)| == |a| + |b| + |c|
    ensures IsAscii(EncodeUtf8(a + b + c))
  {
    EncodeAscii(a);
    EncodeAscii(b);
    EncodeAscii(c);
    EncodeUtf8Append(a, b);
    EncodeUtf8Append(a + b, c);
  }

  /** A long ASCII string keeps exactly its first 63 bytes. */
  lemma TruncateLongAsciiWitness()
    ensures TruncatedTo(EncodeUtf8(TestStr), RequestIdDataLength) == EncodeUtf8(Expected)
  {
    EncodeAsciiPieces("This is a very long ", "string and should get ", "truncated at some poi");
    EncodeUtf8Append(Expected, TestStrRest);
    assert EncodeUtf8(TestStrRest)[0] == 'n' as int;
    TruncatedToFullPrefix(EncodeUtf8(Expected), EncodeUtf8(TestStrRest), RequestIdDataLength);
  }

  /** EXPECTED2 is 59 ASCII bytes and one 4-byte code point. */
  lemma Expected2Length()
    ensures |EncodeUtf8(Expected2)| == 63
  {
    EncodeAsciiPieces("Let's run test strings ", "with some special chars ", "like emojis ");
    EncodeUtf8Append(EmojiPrefix, "\U{1F468}");
  }

  /**
   * The emoji string: its 59 ASCII bytes and the first 4-byte code point
   * fill the 63 bytes exactly, so the cut lands on the boundary before the
   * first zero-width joiner and no code point is split.
   */
  lemma TruncateEmojiWitness()
    ensures TruncatedTo(EncodeUtf8(EmojiStr), RequestIdDataLength) == EncodeUtf8(Expected2)
  {
    Expected2Length();
    EncodeUtf8Append(Expected2, EmojiStrRest);
    assert EncodeUtf8(EmojiStrRest)[0] == 0xE2;
    TruncatedToFullPrefix(EncodeUtf8(Expected2), EncodeUtf8(EmojiStrRest), RequestIdDataLength);
  }

  /** The 36-byte UUID fits and comes back unchanged. */
  lemma ShortUuidWitness()
    ensures TruncatedTo(EncodeUtf8(ShortStr), RequestIdDataLength) == EncodeUtf8(ShortStr)
  {
    EncodeAsciiPieces("a31eaf0c-", "a573-44c9-9e47-", "e26a1d6c53b1");
    TruncatedToKeepsShortInput(EncodeUtf8(ShortStr), RequestIdDataLength);
  }
}

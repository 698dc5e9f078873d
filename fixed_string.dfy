/**
 * The fixed-capacity string of the `arrayvec` crate (`ArrayString`) and the
 * byte-level `str` operations the source applies before filling one.
 */
module FixedString {
  import opened Wrappers
  import opened Utf8

  datatype CapacityError = CapacityError

  /** `ArrayString::from`: the whole of s if it fits in the capacity, else an error. */
  function FromStr(capacity: nat, s: seq<byte>): (r: Result<seq<byte>, CapacityError>)
    ensures r.Success? <==> |s| <= capacity
    ensures r.Success? ==> r.value == s
  {
    if |s| <= capacity then Success(s) else Failure(CapacityError)
  }

  datatype SplitPanic = NotCharBoundary

  /** `str::split_at`: panics unless mid is a char boundary (which includes mid <= |s|). */
  function SplitAt(s: seq<byte>, mid: nat): (r: Result<(seq<byte>, seq<byte>), SplitPanic>)
    ensures r.Success? <==> IsCharBoundary(s, mid)
    ensures r.Success? ==> |r.value.0| == mid && r.value.0 + r.value.1 == s
  {
    if IsCharBoundary(s, mid) then Success((s[..mid], s[mid..])) else Failure(NotCharBoundary)
  }

  /** The largest char boundary of s that is at most n. */
  function FloorBoundary(s: seq<byte>, n: nat): (k: nat)
    requires n <= |s|
    ensures k <= n && IsCharBoundary(s, k)
    ensures forall j :: k < j <= n ==> !IsCharBoundary(s, j)
    decreases n
  {
    if IsCharBoundary(s, n) then n else FloorBoundary(s, n - 1)
  }

  /**
   * UTF-8-safe truncation: the longest prefix of s that ends on a char
   * boundary and is at most `capacity` bytes long.
   */
  function TruncatedTo(s: seq<byte>, capacity: nat): seq<byte>
  {
    s[..FloorBoundary(s, Min(|s|, capacity))]
  }

  /** The truncation is a prefix that fits, ends on a boundary, and no longer such prefix exists. */
  lemma TruncatedToIsLongestBoundaryPrefix(s: seq<byte>, capacity: nat)
    ensures |TruncatedTo(s, capacity)| <= capacity
    ensures TruncatedTo(s, capacity) == s[..|TruncatedTo(s, capacity)|]
    ensures IsCharBoundary(s, |TruncatedTo(s, capacity)|)
    ensures forall j :: |TruncatedTo(s, capacity)| < j <= Min(|s|, capacity) ==> !IsCharBoundary(s, j)
  {
  }

  /** Inputs that already fit come back unchanged. */
  lemma TruncatedToKeepsShortInput(s: seq<byte>, capacity: nat)
    requires |s| <= capacity
    ensures TruncatedTo(s, capacity) == s
  {
  }

  /** Truncating well-formed UTF-8 yields well-formed UTF-8. */
  lemma TruncatedToIsValid(s: seq<byte>, capacity: nat)
    requires ValidUtf8(s)
    ensures ValidUtf8(TruncatedTo(s, capacity))
  {
    BoundaryPrefixIsValid(s, FloorBoundary(s, Min(|s|, capacity)));
  }

  /** ASCII text is cut at exactly the capacity. */
  lemma TruncatedToAscii(s: seq<byte>, capacity: nat)
    requires IsAscii(s)
    ensures TruncatedTo(s, capacity) == s[..Min(|s|, capacity)]
  {
  }

  /** When a prefix fills the capacity exactly and a character starts right after it, that prefix is the truncation. */
  lemma TruncatedToFullPrefix(x: seq<byte>, y: seq<byte>, capacity: nat)
    requires |x| == capacity && (y == [] || !IsContinuation(y[0]))
    ensures TruncatedTo(x + y, capacity) == x
  {
  }

  /**
   * A character whose encoding straddles the capacity is dropped whole:
   * the cut falls just before it.
   */
  lemma TruncatedToDropsStraddlingChar(pre: seq<byte>, c: char, post: seq<byte>, capacity: nat)
    requires |pre| < capacity < |pre| + |EncodeChar(c)|
    ensures TruncatedTo(pre + EncodeChar(c) + post, capacity) == pre
  {
    var e := EncodeChar(c);
    var s := pre + e + post;
    EncodeCharShape(c);
    assert s[|pre|] == e[0];
    assert IsCharBoundary(s, |pre|);
    forall j | |pre| < j <= capacity
      ensures !IsCharBoundary(s, j)
    {
      assert s[j] == e[j - |pre|];
    }
    var k := FloorBoundary(s, capacity);
    assert k == |pre|;
    assert s[..|pre|] == pre;
  }
}

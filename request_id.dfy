/**
 * The request identifier: a provenance tag and up to 64 bytes of text, how
 * it is rendered, and the ways a request obtains one.
 */
module RequestIds {
  import opened Wrappers
  import opened Utf8
  import opened FixedString
  import opened Json

  const RequestIdPrefixInternal: seq<byte> := AsciiBytes("internal-")
  const RequestIdDataLength: nat := 64

  /** The contents of the 64-byte `ArrayString` that holds the identifier's text. */
  type RequestIdData = s: seq<byte> | |s| <= RequestIdDataLength

  datatype Scope = Internal | External

  datatype RequestId = RequestId(scope: Scope, data: RequestIdData)

  /** The source's panics on the way to an identifier. */
  datatype IdPanic = CapacityExceeded | SplitNotOnCharBoundary

  /**
   * `to_string`: an internal identifier is the prefix followed by its data,
   * an external one is its data verbatim.
   */
  function ToString(id: RequestId): (r: seq<byte>)
    ensures |r| == (if id.scope == Internal then |RequestIdPrefixInternal| else 0) + |id.data|
    ensures r[|r| - |id.data|..] == id.data
    ensures id.scope == Internal ==> r[..|RequestIdPrefixInternal|] == RequestIdPrefixInternal
  {
    match id.scope
    case Internal => RequestIdPrefixInternal + id.data
    case External => id.data
  }

  /** Two identifiers of the same scope that render alike are the same identifier. */
  lemma ToStringInjectiveWithinScope(a: RequestId, b: RequestId)
    requires a.scope == b.scope && ToString(a) == ToString(b)
    ensures a == b
  {
  }

  /**
   * The rendering does not determine the scope: an external identifier that
   * itself starts with "internal-" renders exactly as an internal one.
   */
  lemma ToStringDoesNotDetermineScope(d: seq<byte>)
    requires |d| <= RequestIdDataLength - |RequestIdPrefixInternal|
    ensures ToString(RequestId(External, RequestIdPrefixInternal + d)) == ToString(RequestId(Internal, d))
  {
  }

  /** A rendered identifier is at most 73 bytes long. */
  lemma ToStringLength(id: RequestId)
    ensures |ToString(id)| <= |RequestIdPrefixInternal| + RequestIdDataLength == 73
  {
  }

  predicate IsLowerHex(b: byte) {
    ('0' as int <= b <= '9' as int) || ('a' as int <= b <= 'f' as int)
  }

  /** The hyphenated text form of a UUID: 8-4-4-4-12 lower-case hex digits. */
  predicate IsHyphenatedUuid(u: seq<byte>) {
    |u| == 36 &&
    forall i :: 0 <= i < 36 ==>
      if i == 8 || i == 13 || i == 18 || i == 23 then u[i] == '-' as int else IsLowerHex(u[i])
  }

  /** What `Uuid::new_v4().to_hyphenated_ref().to_string()` yields; the randomness is the caller's. */
  type HyphenatedUuid = u: seq<byte> | IsHyphenatedUuid(u)
    witness seq(36, i => if i == 8 || i == 13 || i == 18 || i == 23 then '-' as int else '0' as int)

  /** `generate_internal`: an internal identifier holding the UUID text; its `unwrap` cannot fail. */
  function GenerateInternal(uuid: HyphenatedUuid): (id: RequestId)
    ensures id.scope == Internal && id.data == uuid
    ensures ToString(id) == RequestIdPrefixInternal + uuid
  {
    RequestId(Internal, FromStr(RequestIdDataLength, uuid).value)
  }

  /** `from_external`: an external identifier, or the `unwrap` panic when data exceeds 64 bytes. */
  function FromExternal(data: seq<byte>): (r: Result<RequestId, IdPanic>)
    ensures r.Success? <==> |data| <= RequestIdDataLength
    ensures r.Success? ==> r.value.scope == External && r.value.data == data
    ensures r.Failure? ==> r.error == CapacityExceeded
  {
    match FromStr(RequestIdDataLength, data)
    case Success(d) => Success(RequestId(External, d))
    case Failure(_) => Failure(CapacityExceeded)
  }

  /** An external identifier built from data renders as that data. */
  lemma FromExternalRoundTrip(data: seq<byte>)
    requires |data| <= RequestIdDataLength
    ensures FromExternal(data).Success? && ToString(FromExternal(data).value) == data
  {
  }

  /**
   * `from_external_truncated`: split at min(len, 64) bytes, with no search
   * for a char boundary (so `split_at` panics when the cut is inside a
   * character), then `from_external`, whose capacity check it always passes.
   */
  function FromExternalTruncated(unbounded: seq<byte>): (r: Result<RequestId, IdPanic>)
    ensures r.Success? <==> IsCharBoundary(unbounded, Min(|unbounded|, RequestIdDataLength))
    ensures r.Success? ==> r.value.scope == External
    ensures r.Success? ==> r.value.data == unbounded[..Min(|unbounded|, RequestIdDataLength)]
    ensures r.Failure? ==> r.error == SplitNotOnCharBoundary
  {
    var minLength := Min(|unbounded|, RequestIdDataLength);
    match SplitAt(unbounded, minLength)
    case Failure(_) => Failure(SplitNotOnCharBoundary)
    case Success((truncated, _)) => FromExternal(truncated)
  }

  /** Inputs of at most 64 bytes pass through unchanged and render verbatim. */
  lemma FromExternalTruncatedKeepsShortInput(s: seq<byte>)
    requires |s| <= RequestIdDataLength
    ensures FromExternalTruncated(s).Success?
    ensures FromExternalTruncated(s).value.data == s && ToString(FromExternalTruncated(s).value) == s
  {
  }

  /** When the cut succeeds it is the same as UTF-8-safe truncation to 64 bytes. */
  lemma FromExternalTruncatedIsSafeTruncation(s: seq<byte>)
    requires FromExternalTruncated(s).Success?
    ensures FromExternalTruncated(s).value.data == TruncatedTo(s, RequestIdDataLength)
  {
  }

  /**
   * The cut is not UTF-8 safe: 63 ASCII bytes followed by the two-byte "é"
   * is well-formed text, yet `split_at(64)` falls inside the "é" and panics.
   */
  lemma FromExternalTruncatedPanicsInsideChar()
    ensures ValidUtf8(seq(63, _ => 'a' as int) + EncodeUtf8("é"))
    ensures FromExternalTruncated(seq(63, _ => 'a' as int) + EncodeUtf8("é")) == Failure(SplitNotOnCharBoundary)
  {
    var s := seq(63, _ => 'a' as int) + EncodeUtf8("é");
    assert EncodeUtf8("é") == [0xC3, 0xA9];
    assert s[64] == 0xA9;
    assert !IsCharBoundary(s, 64);
    AsciiRunIsValid(63);
    assert s[..63] == seq(63, _ => 'a' as int);
    assert s[63..] == [0xC3, 0xA9];
    assert ValidUtf8(s[63..][2..]);
    ValidUtf8Append(s[..63], s[63..]);
    assert s[..63] + s[63..] == s;
  }

  /** A run of n ASCII letters is well-formed UTF-8. */
  lemma {:induction false} AsciiRunIsValid(n: nat)
    ensures ValidUtf8(seq(n, _ => 'a' as int))
  {
    if n > 0 {
      AsciiRunIsValid(n - 1);
      assert seq(n, _ => 'a' as int)[1..] == seq(n - 1, _ => 'a' as int);
    }
  }

  /** `HeaderValue::to_str`: the value as text if every byte is visible ASCII or a tab, else an error. */
  function HeaderValueToStr(v: seq<byte>): (r: Option<seq<byte>>)
    ensures r.Some? <==> IsHeaderText(v)
    ensures r.Some? ==> r.value == v && IsAscii(r.value)
  {
    if IsHeaderText(v) then Some(v) else None
  }

  predicate IsVisibleAscii(b: byte) {
    (32 <= b < 127) || b == 9
  }

  /** Bytes that `HeaderValue::to_str` accepts and that a header value may carry verbatim. */
  predicate IsHeaderText(v: seq<byte>) {
    forall i :: 0 <= i < |v| ==> IsVisibleAscii(v[i])
  }

  /** Request headers by lower-case name; only the first value of a name is looked at. */
  type HeaderMap = map<string, seq<byte>>

  const XRequestId: string := "x-request-id"

  /** The header carries a value that `to_str` accepts. */
  predicate HasReadableRequestId(headers: HeaderMap) {
    XRequestId in headers && HeaderValueToStr(headers[XRequestId]).Some?
  }

  /**
   * `from_headers_or_internal`: a readable `x-request-id` header gives an
   * external identifier holding its first 64 bytes; a missing or unreadable
   * one gives a fresh internal identifier. Header text is ASCII, so the
   * truncating cut never panics here.
   */
  function FromHeadersOrInternal(headers: HeaderMap, uuid: HyphenatedUuid): (id: RequestId)
    ensures HasReadableRequestId(headers) ==>
      id.scope == External &&
      id.data == headers[XRequestId][..Min(|headers[XRequestId]|, RequestIdDataLength)]
    ensures !HasReadableRequestId(headers) ==> id.scope == Internal && id.data == uuid
  {
    if XRequestId !in headers then GenerateInternal(uuid)
    else
      match HeaderValueToStr(headers[XRequestId])
      case Some(valid) =>
        AsciiBoundaries(valid, Min(|valid|, RequestIdDataLength));
        FromExternalTruncated(valid).value
      case None => GenerateInternal(uuid)
  }

  /** A readable header value of at most 64 bytes is rendered exactly as received. */
  lemma HeaderIdRendersVerbatim(headers: HeaderMap, uuid: HyphenatedUuid)
    requires HasReadableRequestId(headers) && |headers[XRequestId]| <= RequestIdDataLength
    ensures ToString(FromHeadersOrInternal(headers, uuid)) == headers[XRequestId]
  {
  }

  /** A longer readable header value is rendered as its UTF-8-safe truncation to 64 bytes. */
  lemma HeaderIdRendersTruncated(headers: HeaderMap, uuid: HyphenatedUuid)
    requires HasReadableRequestId(headers)
    ensures ToString(FromHeadersOrInternal(headers, uuid)) == TruncatedTo(headers[XRequestId], RequestIdDataLength)
    ensures |ToString(FromHeadersOrInternal(headers, uuid))| <= RequestIdDataLength
  {
  }

  /** Missing and unreadable headers alike render as "internal-" followed by a UUID. */
  lemma NoReadableHeaderRendersInternalUuid(headers: HeaderMap, uuid: HyphenatedUuid)
    requires !HasReadableRequestId(headers)
    ensures ToString(FromHeadersOrInternal(headers, uuid)) == RequestIdPrefixInternal + uuid
    ensures IsHyphenatedUuid(ToString(FromHeadersOrInternal(headers, uuid))[|RequestIdPrefixInternal|..])
  {
  }

  /**
   * Every identifier a request obtains renders as legal header text, so the
   * `x-request-id` response header built from it is always present.
   */
  lemma RenderedIdIsHeaderText(headers: HeaderMap, uuid: HyphenatedUuid)
    ensures IsHeaderText(ToString(FromHeadersOrInternal(headers, uuid)))
  {
    var r := ToString(FromHeadersOrInternal(headers, uuid));
    if HasReadableRequestId(headers) {
      var v := headers[XRequestId];
      assert r == v[..Min(|v|, RequestIdDataLength)];
    } else {
      var p := RequestIdPrefixInternal;
      assert r == p + uuid;
      assert IsHeaderText(p);
      forall i | 0 <= i < |r|
        ensures IsVisibleAscii(r[i])
      {
        if i >= |p| {
          assert r[i] == uuid[i - |p|];
        }
      }
    }
  }

  function ScopeName(scope: Scope): seq<byte>
  {
    match scope
    case Internal => AsciiBytes("Internal")
    case External => AsciiBytes("External")
  }

  /** The derived serialisation: `{"scope": "Internal"|"External", "data": "<data>"}`. */
  function ToJson(id: RequestId): (j: Json)
    ensures j.Object? && j.fields.Keys == {AsciiBytes("scope"), AsciiBytes("data")}
    ensures j.fields[AsciiBytes("data")] == String(id.data)
    ensures j.fields[AsciiBytes("scope")] == String(ScopeName(id.scope))
  {
    Object(map[AsciiBytes("scope") := String(ScopeName(id.scope)), AsciiBytes("data") := String(id.data)])
  }

  /** Reads an identifier back from its serialisation. */
  function FromJson(j: Json): (r: Option<RequestId>)
  {
    if j.Object? && AsciiBytes("scope") in j.fields && AsciiBytes("data") in j.fields
       && j.fields[AsciiBytes("scope")].String? && j.fields[AsciiBytes("data")].String?
       && |j.fields[AsciiBytes("data")].text| <= RequestIdDataLength
    then
      var scope := j.fields[AsciiBytes("scope")].text;
      if scope == AsciiBytes("Internal") then Some(RequestId(Internal, j.fields[AsciiBytes("data")].text))
      else if scope == AsciiBytes("External") then Some(RequestId(External, j.fields[AsciiBytes("data")].text))
      else None
    else None
  }

  /** The serialised identifier carries both its scope and its data. */
  lemma ToJsonRoundTrip(id: RequestId)
    ensures FromJson(ToJson(id)) == Some(id)
  {
    assert AsciiBytes("scope") != AsciiBytes("data");
    assert AsciiBytes("Internal")[0] == 'I' as int && AsciiBytes("External")[0] == 'E' as int;
  }
}

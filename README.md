# Request identifiers over a request-response cycle

A model of a small warp/hyper service that gives every request an
identifier, keeps it for the whole request-response cycle, and uses it in
three places: the `x-request-id` response header, the `request_id` field of
error bodies, and a `taskLocals` object injected into every JSON body after
the routes have run. The service offers one route, `GET /math/<u16>`, which
divides the path number by the `div-by` header. A benchmark beside it
truncates text into a 63-byte fixed-capacity string without splitting a
UTF-8 character.

The model works on UTF-8 bytes (`seq<byte>`), because every length, cut and
capacity in the source is counted in bytes.

- `Utf8` defines char boundaries as Rust's `str::is_char_boundary` does. It
  defines well-formed UTF-8 (RFC 3629, section 4) and the encoder of Dafny
  characters.
- `FixedString` models `ArrayString::from`, `str::split_at`, and the
  specification of boundary-safe truncation (`TruncatedTo`).
- `FixedStringsBench` models the benchmark's truncation loop. The loop is
  proved equal to `TruncatedTo`. The benchmark's inputs and expected outputs
  are witnesses.
- `RequestIds` models the identifier: its rendering, its three constructors,
  header selection and its serialisation.
- `Routes` models `div_by`, the math closure, `handle_rejection`, and the
  header mapping over the route stack.
- `Body` models the body rewrite: `body_to_string`, `modify_body` and
  `print_json`.
- `Scenarios` follows concrete requests from their headers to the reply and to
  the "taskLocals" data the body rewrite inserts.

The identifier that the source keeps in task-local storage (`REQ_ID`) is
passed explicitly as `current`. The fresh UUID is a parameter. serde_json's
parser and pretty-printer are function parameters.

## Model

| member | source | states |
|---|---|---|
| RequestIds.ToString | src/main.rs:93-98 | an internal id renders as "internal-" then its data, an external one as its data; the length is the sum of the parts |
| RequestIds.ToStringInjectiveWithinScope | src/main.rs:93-98 | two ids of the same scope that render alike are equal |
| RequestIds.ToStringDoesNotDetermineScope | src/main.rs:93-98 | an external id whose data starts with "internal-" renders exactly like an internal id |
| RequestIds.ToStringLength | src/main.rs:75-76 | a rendered id is at most 9 + 64 = 73 bytes |
| RequestIds.GenerateInternal | src/main.rs:100-106 | the id is internal and holds the 36-byte hyphenated UUID; its `unwrap` cannot fail |
| RequestIds.FromExternal | src/main.rs:108-113 | succeeds iff the data fits in 64 bytes and then holds the data as an external id; otherwise the capacity panic |
| RequestIds.FromExternalRoundTrip | src/main.rs:108-113 | an external id built from data of at most 64 bytes renders as that data |
| RequestIds.FromExternalTruncated | src/main.rs:115-124 | succeeds iff byte min(len, 64) is a char boundary, and then holds exactly that prefix; otherwise the `split_at` panic |
| RequestIds.FromExternalTruncatedKeepsShortInput | src/main.rs:115-124 | input of at most 64 bytes passes through unchanged |
| RequestIds.FromExternalTruncatedIsSafeTruncation | src/main.rs:115-124 | when the cut succeeds it equals UTF-8-safe truncation to 64 bytes |
| RequestIds.FromExternalTruncatedPanicsInsideChar | src/main.rs:118-122 | 63 'a' followed by "é" is well-formed UTF-8, yet the cut at 64 falls inside the "é" and panics |
| Utf8.ValidUtf8Append | src/main.rs:118-122 | concatenating two well-formed UTF-8 texts gives well-formed UTF-8 |
| RequestIds.HeaderValueToStr | src/main.rs:129 | a header value is readable iff every byte is visible ASCII or a tab, and is then returned unchanged as ASCII |
| RequestIds.FromHeadersOrInternal | src/main.rs:127-135 | a readable `x-request-id` gives an external id holding its first 64 bytes; a missing or unreadable one gives an internal id holding the UUID |
| RequestIds.HeaderIdRendersVerbatim | src/main.rs:127-135 | a readable header value of at most 64 bytes is rendered exactly as received |
| RequestIds.HeaderIdRendersTruncated | src/main.rs:127-135 | any readable header value is rendered as its UTF-8-safe truncation to 64 bytes |
| RequestIds.NoReadableHeaderRendersInternalUuid | src/main.rs:127-135 | without a readable header the rendering is "internal-" followed by a hyphenated UUID |
| RequestIds.RenderedIdIsHeaderText | src/main.rs:165 | every id a request obtains renders as visible ASCII or tabs, so `with_header` always has a valid `x-request-id` value |
| RequestIds.ToJson | src/main.rs:80-90 | the derived serialisation is an object with exactly the fields "scope" (the variant name) and "data" (the text) |
| RequestIds.ToJsonRoundTrip | src/main.rs:80-90 | the serialised id carries both scope and data: reading it back gives the same id |
| Utf8.IsCharBoundary | benches/fixedstrings.rs:27 | `is_char_boundary`: 0 and the length are always boundaries, and no index past the end is one |
| FixedString.FromStr | benches/fixedstrings.rs:29 | `ArrayString::from` succeeds iff the text fits the capacity, and then keeps all of it |
| FixedString.SplitAt | benches/fixedstrings.rs:28 | `split_at` succeeds iff the index is a char boundary; the halves have the index as length and rejoin to the input |
| FixedString.FloorBoundary | benches/fixedstrings.rs:27 | the result is a char boundary at most n, and no boundary lies above it up to n |
| FixedString.TruncatedToIsLongestBoundaryPrefix | benches/fixedstrings.rs:21-30 | the truncation fits the capacity, is a prefix ending on a boundary, and no longer such prefix exists |
| FixedString.TruncatedToKeepsShortInput | benches/fixedstrings.rs:21-30 | input that fits comes back unchanged |
| FixedString.TruncatedToIsValid | benches/fixedstrings.rs:21-30 | truncating well-formed UTF-8 gives well-formed UTF-8 |
| FixedString.TruncatedToAscii | benches/fixedstrings.rs:21-30 | ASCII text is cut at exactly min(len, capacity) |
| FixedString.TruncatedToFullPrefix | benches/fixedstrings.rs:22-28 | when a prefix fills the capacity exactly and a character starts right after it, the cut is at the capacity |
| FixedString.TruncatedToDropsStraddlingChar | benches/fixedstrings.rs:23-27 | a character whose encoding straddles the capacity is dropped whole |
| FixedStringsBench.SaturatingSub | benches/fixedstrings.rs:27 | `saturating_sub`: the smallest natural r with r + b >= a, either 0 or exactly a - b |
| FixedStringsBench.ArrayVecString | benches/fixedstrings.rs:21-30 | the loop's result is the UTF-8-safe truncation to 63 bytes; it fits, and is well-formed when the input is |
| FixedStringsBench.TruncateLongAsciiWitness | benches/fixedstrings.rs:40-47 | TEST_STR truncates to EXPECTED |
| FixedStringsBench.TruncateEmojiWitness | benches/fixedstrings.rs:60-69 | EMOJI_STR truncates to EXPECTED2: the ASCII prefix and the first 4-byte code point fill 63 bytes |
| FixedStringsBench.ShortUuidWitness | benches/fixedstrings.rs:79-86 | the 36-byte UUID SHORT_STR comes back unchanged |
| Utf8.EncodeUtf8IsValid | benches/fixedstrings.rs:21 | encoded text is well-formed UTF-8, as every `&str` is |
| Utf8.BoundaryPrefixIsValid | benches/fixedstrings.rs:28 | the prefix of well-formed UTF-8 up to a char boundary is well-formed |
| Utf8.AsciiBoundaries | src/main.rs:129-130 | every index up to the length of ASCII text is a char boundary |
| Routes.DivBy | src/main.rs:260-268 | the header value is rejected with DivideByZero iff it is 0, and otherwise passes as the denominator |
| Routes.Decimal | src/main.rs:155 | `Display` of a u16 is nonempty and all digits, with a leading '0' only for 0 |
| Routes.DecimalRoundTrip | src/main.rs:155 | decimal text reads back as the number it was written from |
| Routes.MathReply | src/main.rs:153-157 | the closure's reply: its output is the truncated quotient, output * denom <= num < (output + 1) * denom, and never more than num |
| Routes.MathOpRoundTrip | src/main.rs:155 | the text "num / denom" reads back as (num, denom) |
| Routes.MathRoute | src/main.rs:151-159 | the route fails with DivideByZero iff `div-by` is 0, and otherwise replies with num / denom |
| Routes.HandleRejection | src/main.rs:271-297 | 404 iff not found, 400 iff a DivideByZero cause, 405 iff MethodNotAllowed without DivideByZero, 500 otherwise; the body repeats the code, names the message and carries the rendered current id |
| Routes.MathJson | src/main.rs:248-252 | the derived serialisation of `Math`: exactly the fields "op" and "output" holding its values |
| Routes.ErrorJson | src/main.rs:253-258 | the derived serialisation of `ErrorMessage`: exactly the fields "code", "message" and "request_id" holding its values |
| Routes.Respond | src/main.rs:161-166 | every reply carries `x-request-id` set to the rendered current id; 200 with the math body iff the route succeeded, else the rejection's status and error body |
| Body.Concat | src/main.rs:220-224 | the bytes of the data chunks in stream order; a body of one data chunk is that chunk's bytes |
| Body.ConcatSnoc | src/main.rs:220-224 | folding one more chunk appends its bytes |
| Body.ConcatAppend | src/main.rs:220-224 | collecting two runs of chunks gives their bytes one after the other |
| Body.BodyToString | src/main.rs:218-228 | the body is the concatenation of the chunks; a stream error panics; non-UTF-8 bytes panic |
| Body.TaskLocals | src/main.rs:204-207 | the injected object has exactly the keys "note" and "RequestIdInstance", the note holding the fixed text |
| Body.InsertTaskLocals | src/main.rs:201-208 | the object gains the key "taskLocals", which holds the task-local data whether or not it existed; every other key keeps its value |
| Body.TaskLocalsCarryRequestId | src/main.rs:204-207 | the injected "RequestIdInstance" reads back as the current id |
| Body.InsertTaskLocalsIdempotent | src/main.rs:201-208 | rewriting an already rewritten object for the same id changes nothing |
| Body.PrintJson | src/main.rs:231-239 | the output is the pretty-printed text followed by exactly one newline |
| Body.ModifyBody | src/main.rs:195-212 | the body's panics in order (not collectible, not UTF-8, not JSON, not an object); otherwise the pretty-printed object with "taskLocals" inserted and a final newline |
| Scenarios.MathWithoutRequestIdHeader | src/main.rs:11-35 | `GET /math/4` with `div-by: 2` and no id header gives 200, op "4 / 2", output 2 and header "internal-" + UUID, and the inserted "taskLocals" reads back as the internal id holding that UUID |
| Scenarios.DivideByZeroReply | src/main.rs:271-297 | `div-by: 0` gives 400 with DIVIDE_BY_ZERO and the internal id in body and header |
| Scenarios.UnknownPathReply | src/main.rs:275-277 | an unmatched path gives 404 NOT_FOUND |
| Scenarios.ExternalRequestIdEchoed | src/main.rs:37-56 | `x-request-id: my-id` is echoed in the header and injected into the body as an external id |

## Left out

- The task-local storage `REQ_ID` and its scope around the service call are not modelled. The current identifier is an explicit parameter of every member that reads it.
- The hyper server, `make_service_fn`, `service_fn`, warp's `service` adapter and the `warp::log` wrapper are I/O plumbing and are left out. So is logging.
- `Uuid::new_v4` is random. The UUID text is a parameter, constrained to the hyphenated lower-case 8-4-4-4-12 form.
- warp's path matching and header parsing are not modelled. The math route takes the already parsed `u16` values. A rejection is modelled as "not found" or a list of causes.
- serde_json parsing, pretty-printing and the derived `Serialize` impls are other code. `parse` and `toStringPretty` are function parameters, and the derived JSON shape of `RequestId`, `Math` and `ErrorMessage` is written out as a `Json` value. JSON object key order is not modelled (objects are maps).
- `print_json`'s `expect` on serialisation is not modelled, because serialising a `serde_json::Value` map with string keys does not fail.
- Only the `x-request-id` response header is tracked. The content type and other headers warp adds are not. Request headers are a map from name to the first value, so repeated header values are not modelled.
- The benchmark's `cache_string` (the `arraystring` crate) and the Criterion harness are not modelled. The commented-out unsaturated loop is not modelled either.
- JSON labels and messages built from Dafny string literals are encoded one byte per character (`AsciiBytes`). Every such literal in the source is ASCII.
- The stream of body chunks is a finite sequence. Asynchronous polling is not modelled.

The comment at src/main.rs:115 calls `from_external_truncated` the preferred
and safe way to fill the buffer, but the code splits at min(len, 64) with no
search for a char boundary, so a longer `&str` whose 64th byte falls inside a
character panics. The model follows the code
(`RequestIds.FromExternalTruncated`, `RequestIds.FromExternalTruncatedPanicsInsideChar`).
The only caller passes header text that `HeaderValue::to_str` has already
limited to visible ASCII. On that path the cut is always on a boundary
(`RequestIds.HeaderIdRendersTruncated`), so the panic cannot happen there.

The benchmark's emoji literal is the family emoji U+1F468 U+200D U+1F468
U+200D U+1F466 U+200D U+1F466. Its ASCII prefix is 59 bytes, so the first
4-byte code point ends exactly at byte 63, and EXPECTED2 is that prefix plus
U+1F468.

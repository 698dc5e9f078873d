/**
 * The application's route logic: the `div-by` check, the math reply, the
 * rejection classifier, and the reply that leaves the routing layer with the
 * `x-request-id` header attached. The current identifier, which the source
 * reads from task-local storage, is passed in as `current`.
 */
module Routes {
  import opened Wrappers
  import opened Utf8
  import opened Json
  import opened RequestIds

  type u16 = n: int | 0 <= n < 0x1_0000

  type NonZeroU16 = n: u16 | n != 0 witness 1

  /** The reasons a warp `Rejection` can carry that the classifier distinguishes. */
  datatype Cause = DivideByZero | MethodNotAllowed | MissingHeader(name: string) | InvalidHeader(name: string) | OtherCause

  /** warp's `Rejection`: the plain not-found rejection, or the causes of a (possibly combined) rejection. */
  datatype Rejection = NotFound | Rejected(causes: seq<Cause>)

  /** `div_by` after the header has parsed as a u16: zero is rejected with `DivideByZero`. */
  function DivBy(n: u16): (r: Result<NonZeroU16, Rejection>)
    ensures r.Failure? <==> n == 0
    ensures r.Success? ==> r.value == n
    ensures r.Failure? ==> r.error == Rejected([DivideByZero])
  {
    if n != 0 then Success(n) else Failure(Rejected([DivideByZero]))
  }

  predicate IsDigit(b: byte) {
    '0' as int <= b <= '9' as int
  }

  predicate AllDigits(s: seq<byte>) {
    forall i :: 0 <= i < |s| ==> IsDigit(s[i])
  }

  /** Decimal text of a number as `Display` writes it: digits only, no leading zero. */
  function Decimal(n: nat): (r: seq<byte>)
    ensures |r| >= 1 && AllDigits(r)
    ensures r[0] == '0' as int <==> n == 0
    decreases n
  {
    if n < 10 then ['0' as int + n] else Decimal(n / 10) + ['0' as int + n % 10]
  }

  /** The number that a string of digits denotes. */
  function DigitsValue(s: seq<byte>): nat
    requires AllDigits(s)
  {
    if s == [] then 0 else DigitsValue(s[..|s| - 1]) * 10 + (s[|s| - 1] - '0' as int)
  }

  /** Decimal text reads back as the number it was written from. */
  lemma {:induction false} DecimalRoundTrip(n: nat)
    ensures DigitsValue(Decimal(n)) == n
    decreases n
  {
    if n >= 10 {
      DecimalRoundTrip(n / 10);
      var d := Decimal(n);
      assert d[..|d| - 1] == Decimal(n / 10);
    }
  }

  datatype Math = Math(op: seq<byte>, output: u16)

  const OpSeparator: seq<byte> := AsciiBytes(" / ")

  /** The closure of the math route: the operation text "num / denom" and the integer quotient. */
  function MathReply(num: u16, denom: NonZeroU16): (m: Math)
    ensures m.output * denom <= num < (m.output + 1) * denom
    ensures m.output <= num
  {
    DivisionBounds(num, denom);
    Math(Decimal(num) + OpSeparator + Decimal(denom), num / denom)
  }

  /** Integer division truncates: the quotient times the divisor is at most the dividend, and one more is too much. */
  lemma DivisionBounds(num: u16, denom: NonZeroU16)
    ensures (num / denom) * denom <= num < (num / denom + 1) * denom
    ensures num / denom <= num
  {
    var q, r := num / denom, num % denom;
    assert num == q * denom + r && 0 <= r < denom;
    assert (q + 1) * denom == q * denom + denom;
    assert q * denom <= num < (q + 1) * denom;
    MulMonotone(q, denom);
  }

  lemma MulMonotone(q: nat, d: nat)
    requires d >= 1
    ensures q * d >= q
  {
  }

  /** The length of the run of digits that starts s. */
  function SpanDigits(s: seq<byte>): (k: nat)
    ensures k <= |s| && AllDigits(s[..k])
    ensures k < |s| ==> !IsDigit(s[k])
  {
    if s == [] || !IsDigit(s[0]) then 0
    else
      var k := 1 + SpanDigits(s[1..]);
      assert s[..k] == [s[0]] + s[1..][..k - 1];
      k
  }

  /** Reads "<num> / <denom>" back into its two numbers. */
  function ParseOp(s: seq<byte>): Option<(nat, nat)>
  {
    var k := SpanDigits(s);
    if 0 < k && k + |OpSeparator| < |s| && s[k..k + |OpSeparator|] == OpSeparator
       && AllDigits(s[k + |OpSeparator|..])
    then Some((DigitsValue(s[..k]), DigitsValue(s[k + |OpSeparator|..])))
    else None
  }

  /** The run of digits of a digit string followed by a non-digit ends where the digits do. */
  lemma {:induction false} SpanDigitsOfDigitsThenOther(a: seq<byte>, b: seq<byte>)
    requires AllDigits(a) && b != [] && !IsDigit(b[0])
    ensures SpanDigits(a + b) == |a|
    decreases |a|
  {
    if a == [] {
      assert a + b == b;
    } else {
      assert (a + b)[1..] == a[1..] + b;
      SpanDigitsOfDigitsThenOther(a[1..], b);
    }
  }

  /** The operation text names both operands: it reads back as (num, denom). */
  lemma MathOpRoundTrip(num: u16, denom: NonZeroU16)
    ensures ParseOp(MathReply(num, denom).op) == Some((num as nat, denom as nat))
  {
    var a, b := Decimal(num), Decimal(denom);
    var s := MathReply(num, denom).op;
    assert OpSeparator == [32, 47, 32];
    assert s == a + (OpSeparator + b);
    SpanDigitsOfDigitsThenOther(a, OpSeparator + b);
    var k := |a|;
    assert s[..k] == a;
    assert s[k..k + 3] == OpSeparator;
    assert s[k + 3..] == b;
    DecimalRoundTrip(num);
    DecimalRoundTrip(denom);
  }

  /** The math route: `div_by` on the header's value, then the closure. */
  function MathRoute(num: u16, divBy: u16): (r: Result<Math, Rejection>)
    ensures r.Failure? <==> divBy == 0
    ensures r.Failure? ==> r.error == Rejected([DivideByZero])
    ensures r.Success? ==> r.value == MathReply(num, divBy)
  {
    match DivBy(divBy)
    case Success(denom) => Success(MathReply(num, denom))
    case Failure(rejection) => Failure(rejection)
  }

  datatype ErrorMessage = ErrorMessage(code: u16, message: seq<byte>, requestId: seq<byte>)

  datatype ErrorReply = ErrorReply(status: u16, body: ErrorMessage)

  /**
   * `handle_rejection`: not found, then divide by zero, then method not
   * allowed, else unhandled; the body repeats the status code and carries
   * the rendered current identifier.
   */
  function HandleRejection(err: Rejection, current: RequestId): (reply: ErrorReply)
    ensures reply.body.code == reply.status
    ensures reply.body.requestId == ToString(current)
    ensures reply.status == 404 <==> err.NotFound?
    ensures reply.status == 400 <==> err.Rejected? && DivideByZero in err.causes
    ensures reply.status == 405 <==>
      err.Rejected? && DivideByZero !in err.causes && MethodNotAllowed in err.causes
    ensures reply.status == 500 <==>
      err.Rejected? && DivideByZero !in err.causes && MethodNotAllowed !in err.causes
    ensures reply.status == 404 ==> reply.body.message == AsciiBytes("NOT_FOUND")
    ensures reply.status == 400 ==> reply.body.message == AsciiBytes("DIVIDE_BY_ZERO")
    ensures reply.status == 405 ==> reply.body.message == AsciiBytes("METHOD_NOT_ALLOWED")
    ensures reply.status == 500 ==> reply.body.message == AsciiBytes("UNHANDLED_REJECTION")
  {
    var (code, message) :=
      if err.NotFound? then (404, "NOT_FOUND")
      else if DivideByZero in err.causes then (400, "DIVIDE_BY_ZERO")
      else if MethodNotAllowed in err.causes then (405, "METHOD_NOT_ALLOWED")
      else (500, "UNHANDLED_REJECTION");
    ErrorReply(code, ErrorMessage(code, AsciiBytes(message), ToString(current)))
  }

  /** The derived serialisation of `Math`. */
  function MathJson(m: Math): (j: Json)
    ensures j.Object? && j.fields.Keys == {AsciiBytes("op"), AsciiBytes("output")}
    ensures j.fields[AsciiBytes("op")] == String(m.op) && j.fields[AsciiBytes("output")] == Number(m.output)
  {
    Object(map[AsciiBytes("op") := String(m.op), AsciiBytes("output") := Number(m.output)])
  }

  /** The derived serialisation of `ErrorMessage`. */
  function ErrorJson(e: ErrorMessage): (j: Json)
    ensures j.Object? && j.fields.Keys == {AsciiBytes("code"), AsciiBytes("message"), AsciiBytes("request_id")}
    ensures j.fields[AsciiBytes("code")] == Number(e.code)
    ensures j.fields[AsciiBytes("message")] == String(e.message)
    ensures j.fields[AsciiBytes("request_id")] == String(e.requestId)
  {
    Object(map[AsciiBytes("code") := Number(e.code), AsciiBytes("message") := String(e.message),
               AsciiBytes("request_id") := String(e.requestId)])
  }

  /** What leaves the routing layer; only the `x-request-id` header is tracked. */
  datatype Reply = Reply(status: u16, headers: map<string, seq<byte>>, body: Json)

  /**
   * The route stack `get().and(math).recover(handle_rejection)` followed by
   * the mapping that adds the `x-request-id` header.
   */
  function Respond(outcome: Result<Math, Rejection>, current: RequestId): (reply: Reply)
    ensures XRequestId in reply.headers && reply.headers[XRequestId] == ToString(current)
    ensures reply.status == 200 <==> outcome.Success?
    ensures outcome.Success? ==> reply.body == MathJson(outcome.value)
    ensures outcome.Failure? ==>
      var e := HandleRejection(outcome.error, current);
      reply.status == e.status && reply.body == ErrorJson(e.body)
  {
    var header := map[XRequestId := ToString(current)];
    match outcome
    case Success(m) => Reply(200, header, MathJson(m))
    case Failure(err) =>
      var e := HandleRejection(err, current);
      Reply(e.status, header, ErrorJson(e.body))
  }
}

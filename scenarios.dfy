/**
 * Concrete requests followed from their headers through the route to the
 * reply, and to the "taskLocals" data the body rewrite inserts into it.
 */
module Scenarios {
  import opened Wrappers
  import opened Utf8
  import opened Json
  import opened RequestIds
  import opened Routes
  import opened Body

  /** `GET /math/4` with `div-by: 2` and no `x-request-id`: 200, "4 / 2" = 2, an internal identifier in the header. */
  lemma MathWithoutRequestIdHeader(uuid: HyphenatedUuid)
    ensures var current := FromHeadersOrInternal(map[], uuid);
      var reply := Respond(MathRoute(4, 2), current);
      && reply.status == 200
      && reply.body == MathJson(Math(AsciiBytes("4 / 2"), 2))
      && reply.headers[XRequestId] == RequestIdPrefixInternal + uuid
      && reply.body.Object?
      && FromJson(InsertTaskLocals(reply.body.fields, current)[TaskLocalsKey].fields[RequestIdInstanceKey])
         == Some(RequestId(Internal, uuid))
  {
    assert Decimal(4) + OpSeparator + Decimal(2) == AsciiBytes("4 / 2");
    TaskLocalsCarryRequestId(FromHeadersOrInternal(map[], uuid));
  }

  /** A zero `div-by` is answered with 400 and a body naming the cause and the current identifier. */
  lemma DivideByZeroReply(uuid: HyphenatedUuid)
    ensures var current := FromHeadersOrInternal(map[], uuid);
      var reply := Respond(MathRoute(4, 0), current);
      && reply.status == 400
      && reply.body == ErrorJson(ErrorMessage(400, AsciiBytes("DIVIDE_BY_ZERO"), RequestIdPrefixInternal + uuid))
      && reply.headers[XRequestId] == RequestIdPrefixInternal + uuid
  {
  }

  /** A path no route matches is answered with 404 NOT_FOUND. */
  lemma UnknownPathReply(current: RequestId)
    ensures Respond(Failure(NotFound), current).status == 404
    ensures Respond(Failure(NotFound), current).body == ErrorJson(ErrorMessage(404, AsciiBytes("NOT_FOUND"), ToString(current)))
  {
  }

  /**
   * An `x-request-id: my-id` header is echoed unchanged in the reply header,
   * and the rewritten body carries it as an external identifier.
   */
  lemma ExternalRequestIdEchoed(uuid: HyphenatedUuid, fields: map<seq<byte>, Json>)
    ensures var headers := map[XRequestId := AsciiBytes("my-id")];
      var current := FromHeadersOrInternal(headers, uuid);
      && current == RequestId(External, AsciiBytes("my-id"))
      && Respond(MathRoute(4, 2), current).headers[XRequestId] == AsciiBytes("my-id")
      && InsertTaskLocals(fields, current)[TaskLocalsKey].Object?
      && FromJson(InsertTaskLocals(fields, current)[TaskLocalsKey].fields[RequestIdInstanceKey])
         == Some(RequestId(External, AsciiBytes("my-id")))
  {
    var headers := map[XRequestId := AsciiBytes("my-id")];
    assert HasReadableRequestId(headers);
    HeaderIdRendersVerbatim(headers, uuid);
    var current := FromHeadersOrInternal(headers, uuid);
    assert current.data == AsciiBytes("my-id")[..5];
    assert AsciiBytes("my-id")[..5] == AsciiBytes("my-id");
    TaskLocalsCarryRequestId(current);
  }
}

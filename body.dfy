/**
 * The response-body rewrite that runs after the routing layer: collect the
 * body, parse it, insert the "taskLocals" key, pretty-print it with a final
 * newline. The JSON parser and pretty-printer are serde_json's and are
 * passed in as functions.
 */
module Body {
  import opened Wrappers
  import opened Utf8
  import opened Json
  import opened RequestIds

  /** An item of the body stream: a chunk of bytes, or an error from the stream. */
  datatype Chunk = Data(bytes: seq<byte>) | StreamError

  /** The `expect` panics of the rewrite. */
  datatype BodyPanic = NotCollectible | NotUtf8 | NotJson | NotAnObject

  const LineFeed: byte := 10

  /** The bytes of the data chunks, in stream order. */
  function Concat(chunks: seq<Chunk>): (r: seq<byte>)
    ensures |chunks| == 1 && chunks[0].Data? ==> r == chunks[0].bytes
  {
    if chunks == [] then []
    else (if chunks[0].Data? then chunks[0].bytes else []) + Concat(chunks[1..])
  }

  /** Every item of the stream is data. */
  predicate Collectible(chunks: seq<Chunk>) {
    forall i :: 0 <= i < |chunks| ==> chunks[i].Data?
  }

  /** Folding one more chunk onto the concatenation of a prefix appends that chunk's bytes. */
  lemma {:induction false} ConcatSnoc(chunks: seq<Chunk>, i: nat)
    requires i < |chunks| && chunks[i].Data?
    ensures Concat(chunks[..i + 1]) == Concat(chunks[..i]) + chunks[i].bytes
    decreases i
  {
    if i == 0 {
      assert chunks[..1] == [chunks[0]];
      assert chunks[..1][1..] == [];
    } else {
      ConcatSnoc(chunks[1..], i - 1);
      assert chunks[1..][..i] == chunks[..i + 1][1..];
      assert chunks[1..][..i - 1] == chunks[..i][1..];
      assert chunks[1..][i - 1] == chunks[i];
    }
  }

  /** Collecting two runs of chunks one after the other gives their bytes one after the other. */
  lemma {:induction false} ConcatAppend(a: seq<Chunk>, b: seq<Chunk>)
    ensures Concat(a + b) == Concat(a) + Concat(b)
    decreases |a|
  {
    if a == [] {
      assert a + b == b;
    } else {
      assert (a + b)[1..] == a[1..] + b;
      ConcatAppend(a[1..], b);
    }
  }

  /**
   * `body_to_string`: fold the chunks into one buffer with
   * `extend_from_slice`, stopping with a panic at a stream error, then
   * require the bytes to be UTF-8.
   */
  method BodyToString(chunks: seq<Chunk>) returns (r: Result<seq<byte>, BodyPanic>)
    ensures !Collectible(chunks) ==> r == Failure(NotCollectible)
    ensures Collectible(chunks) && !ValidUtf8(Concat(chunks)) ==> r == Failure(NotUtf8)
    ensures Collectible(chunks) && ValidUtf8(Concat(chunks)) ==> r == Success(Concat(chunks))
  {
    var data: seq<byte> := [];
    var i := 0;
    while i < |chunks|
      invariant 0 <= i <= |chunks|
      invariant Collectible(chunks[..i])
      invariant data == Concat(chunks[..i])
    {
      if chunks[i].StreamError? {
        return Failure(NotCollectible);
      }
      ConcatSnoc(chunks, i);
      data := data + chunks[i].bytes;
      i := i + 1;
    }
    assert chunks[..i] == chunks;
    if ValidUtf8(data) {
      r := Success(data);
    } else {
      r := Failure(NotUtf8);
    }
  }

  const TaskLocalsKey: seq<byte> := AsciiBytes("taskLocals")
  const RequestIdInstanceKey: seq<byte> := AsciiBytes("RequestIdInstance")
  const Note: string := "this data is injected after warp service ran"

  /** `{"note": ..., "RequestIdInstance": <the identifier>}` */
  function TaskLocals(current: RequestId): (j: Json)
    ensures j.Object? && j.fields.Keys == {AsciiBytes("note"), RequestIdInstanceKey}
    ensures j.fields[AsciiBytes("note")] == Str(Note)
  {
    Object(map[AsciiBytes("note") := Str(Note), RequestIdInstanceKey := ToJson(current)])
  }

  /**
   * The object after `insert("taskLocals", ...)`: that key holds the task
   * local data, whether or not it was there before, and every other key
   * keeps its value.
   */
  function InsertTaskLocals(fields: map<seq<byte>, Json>, current: RequestId): (r: map<seq<byte>, Json>)
    ensures r.Keys == fields.Keys + {TaskLocalsKey}
    ensures r[TaskLocalsKey] == TaskLocals(current)
    ensures forall k :: k in fields && k != TaskLocalsKey ==> r[k] == fields[k]
  {
    fields[TaskLocalsKey := TaskLocals(current)]
  }

  /** The inserted data carries the whole identifier: scope and data read back from it. */
  lemma TaskLocalsCarryRequestId(current: RequestId)
    ensures TaskLocals(current).Object? && RequestIdInstanceKey in TaskLocals(current).fields
    ensures FromJson(TaskLocals(current).fields[RequestIdInstanceKey]) == Some(current)
  {
    assert TaskLocals(current) == Object(map[AsciiBytes("note") := Str(Note), RequestIdInstanceKey := ToJson(current)]);
    ToJsonRoundTrip(current);
  }

  /** Rewriting a body that was already rewritten for the same identifier changes nothing. */
  lemma InsertTaskLocalsIdempotent(fields: map<seq<byte>, Json>, current: RequestId)
    ensures InsertTaskLocals(InsertTaskLocals(fields, current), current) == InsertTaskLocals(fields, current)
  {
  }

  /** `print_json`: the pretty-printed text followed by exactly one newline. */
  method PrintJson(value: Json, toStringPretty: Json -> seq<byte>) returns (output: seq<byte>)
    ensures |output| == |toStringPretty(value)| + 1
    ensures output[..|output| - 1] == toStringPretty(value)
    ensures output[|output| - 1] == LineFeed
  {
    output := toStringPretty(value);
    output := output + [LineFeed];
  }

  /**
   * `modify_body`: collect the body, parse it, require an object, insert
   * "taskLocals" for the current identifier and print the object.
   */
  method ModifyBody(chunks: seq<Chunk>, current: RequestId,
                    parse: seq<byte> -> Option<Json>, toStringPretty: Json -> seq<byte>)
    returns (r: Result<seq<byte>, BodyPanic>)
    ensures !Collectible(chunks) ==> r == Failure(NotCollectible)
    ensures Collectible(chunks) && !ValidUtf8(Concat(chunks)) ==> r == Failure(NotUtf8)
    ensures Collectible(chunks) && ValidUtf8(Concat(chunks)) ==>
      var parsed := parse(Concat(chunks));
      && (parsed.None? ==> r == Failure(NotJson))
      && (parsed.Some? && !parsed.value.Object? ==> r == Failure(NotAnObject))
      && (parsed.Some? && parsed.value.Object? ==>
            r == Success(toStringPretty(Object(InsertTaskLocals(parsed.value.fields, current))) + [LineFeed]))
  {
    var bodyString := BodyToString(chunks);
    if bodyString.Failure? {
      return Failure(bodyString.error);
    }
    var jsonValue := parse(bodyString.value);
    if jsonValue.None? {
      return Failure(NotJson);
    }
    if !jsonValue.value.Object? {
      return Failure(NotAnObject);
    }
    var jsonObject := jsonValue.value.fields;
    jsonObject := jsonObject[TaskLocalsKey := TaskLocals(current)];
    var finalBody := PrintJson(Object(jsonObject), toStringPretty);
    assert finalBody == finalBody[..|finalBody| - 1] + [finalBody[|finalBody| - 1]];
    r := Success(finalBody);
  }
}

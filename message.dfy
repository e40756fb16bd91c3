/** The JSON-RPC 2.0 envelopes of `lib/rjr/message.rb`: requests, notifications
    and responses, each decoded from wire text or built from fields, encoded
    with `to_s`, and recognised by a probe that never fails.

    Top-level keys outside a kind's reserved set are carried in `headers`. On
    decode, explicit headers are the base and each non-reserved wire key is
    written over them; on encode, headers are merged last and overwrite the
    envelope's own keys. */
module Message {
  import opened Json
  import Uuid

  /** The `jsonrpc` member every encoder writes. */
  const JsonRpcVersion: Json := Str("2.0")

  /** Keys that decoding does not fold into the headers, per kind. */
  const RequestReserved: set<string> := {"jsonrpc", "id", "method", "params"}
  const NotificationReserved: set<string> := {"jsonrpc", "method", "params"}
  const ResponseReserved: set<string> := {"jsonrpc", "id", "result", "error"}

  /** `RJR::Result` as a record: the outcome of a remote call. Fields the
      source leaves unset are `Null`. */
  datatype RpcResult = RpcResult(
    success: bool,
    failed: bool,
    result: Json,
    errorCode: Json,
    errorMsg: Json,
    errorClass: Json)

  /** The abstract values of the three message kinds. */
  datatype Request = Request(methodName: Json, args: Json, id: Json, headers: map<string, Json>)
  datatype Notification = Notification(methodName: Json, args: Json, headers: map<string, Json>)
  datatype Response = Response(id: Json, result: RpcResult, headers: map<string, Json>)

  // ---------------------------------------------------------------------------
  // Header folding

  /** The headers a decoder ends with: the explicit headers, then every wire key
      outside `reserved` written over them. */
  function FoldHeaders(explicit: map<string, Json>, wire: map<string, Json>, reserved: set<string>)
    : (h: map<string, Json>)
    ensures h.Keys == explicit.Keys + (wire.Keys - reserved)
    ensures forall k | k in wire && k !in reserved :: h[k] == wire[k]
    ensures forall k | k in explicit && (k !in wire || k in reserved) :: h[k] == explicit[k]
  {
    explicit + map k | k in wire && k !in reserved :: wire[k]
  }

  lemma FoldHeadersAdd(explicit: map<string, Json>, wire: map<string, Json>, reserved: set<string>,
                       k: string, v: Json)
    requires k !in wire
    ensures FoldHeaders(explicit, wire[k := v], reserved)
         == if k in reserved then FoldHeaders(explicit, wire, reserved)
            else FoldHeaders(explicit, wire, reserved)[k := v]
  {
    var lhs := FoldHeaders(explicit, wire[k := v], reserved);
    var rhs := if k in reserved then FoldHeaders(explicit, wire, reserved)
               else FoldHeaders(explicit, wire, reserved)[k := v];
    assert lhs.Keys == rhs.Keys;
    forall x | x in lhs ensures lhs[x] == rhs[x] {
      if x != k {
        assert x in wire[k := v] <==> x in wire;
      }
    }
  }

  /** The decoders' `keys.select { ... }.each { |k| @headers[k] = ... }` loop,
      starting from a copy of the explicit headers. */
  method MergeHeaders(explicit: map<string, Json>, wire: map<string, Json>, reserved: set<string>)
    returns (headers: map<string, Json>)
    ensures headers == FoldHeaders(explicit, wire, reserved)
  {
    headers := explicit;
    var todo := wire.Keys;
    assert wire - todo == map[];
    while todo != {}
      invariant todo <= wire.Keys
      invariant headers == FoldHeaders(explicit, wire - todo, reserved)
      decreases todo
    {
      var k :| k in todo;
      FoldHeadersAdd(explicit, wire - todo, reserved, k, wire[k]);
      assert (wire - todo)[k := wire[k]] == wire - (todo - {k});
      if k !in reserved {
        headers := headers[k := wire[k]];
      }
      todo := todo - {k};
    }
    assert wire - todo == wire;
  }

  // ---------------------------------------------------------------------------
  // Probes

  /** `RequestMessage.is_request_message?`: an object with both `method` and `id`;
      `false` when parsing fails or the value is not an object. */
  function IsRequestMessage(message: Text): (b: bool)
    ensures b <==> IsObjectText(message) && "method" in Members(message) && "id" in Members(message)
  {
    match Parse(message)
    case Some(Object(m)) => "method" in m && "id" in m
    case _ => false
  }

  /** `NotificationMessage.is_notification_message?`: an object with `method`
      and without `id`; `false` when parsing fails or the value is not an object. */
  function IsNotificationMessage(message: Text): (b: bool)
    ensures b <==> IsObjectText(message) && "method" in Members(message) && "id" !in Members(message)
  {
    match Parse(message)
    case Some(Object(m)) => "method" in m && "id" !in m
    case _ => false
  }

  /** `ResponseMessage.is_response_message?`: an object with `result` or `error`;
      `false` when parsing fails or the value is not an object. */
  function IsResponseMessage(message: Text): (b: bool)
    ensures b <==> IsObjectText(message) && ("result" in Members(message) || "error" in Members(message))
  {
    match Parse(message)
    case Some(Object(m)) => "result" in m || "error" in m
    case _ => false
  }

  /** No text is both a request and a notification; the two together are
      exactly the objects with a `method`. */
  lemma RequestNotificationExclusive(message: Text)
    ensures !(IsRequestMessage(message) && IsNotificationMessage(message))
    ensures IsRequestMessage(message) || IsNotificationMessage(message)
        <==> IsObjectText(message) && "method" in Members(message)
  {
  }

  /** Malformed text is none of the three kinds. */
  lemma ProbesRejectMalformed(raw: string)
    ensures !IsRequestMessage(Malformed(raw))
    ensures !IsNotificationMessage(Malformed(raw))
    ensures !IsResponseMessage(Malformed(raw))
  {
  }

  /** The response probe is independent of the request probe: one text can
      satisfy both. */
  lemma RequestAndResponseOverlap()
    ensures var t := ToJson(Object(map["method" := Str("m"), "id" := Str("1"), "result" := Null]));
            IsRequestMessage(t) && IsResponseMessage(t)
  {
  }

  // ---------------------------------------------------------------------------
  // Requests

  /** `RequestMessage.new(:message => ..., :headers => ...)`: `None` when
      `JSON.parse` fails or yields something that is not an object. Absent
      members read as `Null`. */
  function DecodeRequest(message: Text, explicit: map<string, Json>): (r: Option<Request>)
    ensures r.Some? <==> IsObjectText(message)
    ensures r.Some? ==>
      && r.value.methodName == Get(Members(message), "method")
      && r.value.args == Get(Members(message), "params")
      && r.value.id == Get(Members(message), "id")
      && r.value.headers == FoldHeaders(explicit, Members(message), RequestReserved)
  {
    match Parse(message)
    case Some(Object(m)) =>
      Some(Request(Get(m, "method"), Get(m, "params"), Get(m, "id"), FoldHeaders(explicit, m, RequestReserved)))
    case _ => None
  }

  /** A wire `id` reaches a request's headers only from the explicit headers,
      while every non-reserved wire key is taken over with its wire value. */
  lemma DecodedRequestHeaders(message: Text, explicit: map<string, Json>)
    requires IsObjectText(message)
    ensures var h := DecodeRequest(message, explicit).value.headers;
      && (forall k | k in RequestReserved :: k in h <==> k in explicit)
      && (forall k | k in Members(message) && k !in RequestReserved :: k in h && h[k] == Members(message)[k])
  {
  }

  /** The members `to_s` writes before merging headers: `id` only when non-nil. */
  function RequestEnvelope(r: Request): map<string, Json> {
    map["jsonrpc" := JsonRpcVersion, "method" := r.methodName, "params" := r.args]
      + (if r.id == Null then map[] else map["id" := r.id])
  }

  /** `RequestMessage#to_s`: `jsonrpc`, `method`, `params`, `id` when non-nil,
      then the headers, which win on a shared key. */
  function EncodeRequest(r: Request): (t: Text)
    ensures IsObjectText(t)
    ensures Members(t).Keys
         == {"jsonrpc", "method", "params"} + (if r.id == Null then {} else {"id"}) + r.headers.Keys
    ensures forall k | k in r.headers :: Members(t)[k] == r.headers[k]
    ensures "jsonrpc" !in r.headers ==> Members(t)["jsonrpc"] == JsonRpcVersion
    ensures "method" !in r.headers ==> Members(t)["method"] == r.methodName
    ensures "params" !in r.headers ==> Members(t)["params"] == r.args
    ensures "id" !in r.headers && r.id != Null ==> Members(t)["id"] == r.id
  {
    ToJson(Object(RequestEnvelope(r) + r.headers))
  }

  /** A header's value if it has one, else the envelope's own value. */
  function HeaderOr(headers: map<string, Json>, k: string, v: Json): Json {
    if k in headers then headers[k] else v
  }

  /** Decoding an encoded request: `method`, `params` and `id` come back unless
      a header of that name replaced them, and the headers come back without
      their reserved keys, over the decoder's explicit headers. */
  lemma RequestRoundTrip(r: Request, explicit: map<string, Json>)
    ensures DecodeRequest(EncodeRequest(r), explicit)
         == Some(Request(HeaderOr(r.headers, "method", r.methodName),
                         HeaderOr(r.headers, "params", r.args),
                         HeaderOr(r.headers, "id", r.id),
                         explicit + (r.headers - RequestReserved)))
  {
    var m := RequestEnvelope(r) + r.headers;
    assert Members(EncodeRequest(r)) == m;
    var h := FoldHeaders(explicit, m, RequestReserved);
    var expected := explicit + (r.headers - RequestReserved);
    assert h.Keys == expected.Keys;
    forall k | k in h ensures h[k] == expected[k] {
      if k in r.headers && k !in RequestReserved {
        assert m[k] == r.headers[k];
      }
    }
    assert h == expected;
    assert Get(m, "method") == HeaderOr(r.headers, "method", r.methodName);
    assert Get(m, "params") == HeaderOr(r.headers, "params", r.args);
    assert Get(m, "id") == HeaderOr(r.headers, "id", r.id);
  }

  /** With no reserved header key, a request survives encode and decode. */
  lemma RequestRoundTripExact(r: Request)
    requires r.headers.Keys !! RequestReserved
    ensures DecodeRequest(EncodeRequest(r), map[]) == Some(r)
  {
    RequestRoundTrip(r, map[]);
    assert map[] + (r.headers - RequestReserved) == r.headers;
  }

  /** An encoded request is recognised as one exactly when it carries an id:
      a non-nil `msg_id` or an `id` header. Otherwise it reads as a notification. */
  lemma EncodedRequestProbes(r: Request)
    ensures IsRequestMessage(EncodeRequest(r)) <==> r.id != Null || "id" in r.headers
    ensures IsNotificationMessage(EncodeRequest(r)) <==> !(r.id != Null || "id" in r.headers)
  {
  }

  /** A request built for sending carries a generated id, is recognised as a
      request, and gives that id back when decoded unless a header replaced it. */
  lemma BuiltRequestCarriesId(methodName: Json, args: Json, headers: map<string, Json>, bytes: seq<Uuid.Byte>)
    requires |bytes| == 16
    ensures var r := Request(methodName, args, Str(Uuid.GenUuid(bytes)), headers);
      && IsRequestMessage(EncodeRequest(r))
      && ("id" !in headers ==> DecodeRequest(EncodeRequest(r), map[]).value.id == r.id)
  {
    var r := Request(methodName, args, Str(Uuid.GenUuid(bytes)), headers);
    EncodedRequestProbes(r);
  }

  // ---------------------------------------------------------------------------
  // Notifications

  /** `NotificationMessage.new(:message => ..., :headers => ...)`; `id` is not
      reserved here, so a wire `id` lands in the headers. */
  function DecodeNotification(message: Text, explicit: map<string, Json>): (r: Option<Notification>)
    ensures r.Some? <==> IsObjectText(message)
    ensures r.Some? ==>
      && r.value.methodName == Get(Members(message), "method")
      && r.value.args == Get(Members(message), "params")
      && r.value.headers == FoldHeaders(explicit, Members(message), NotificationReserved)
  {
    match Parse(message)
    case Some(Object(m)) =>
      Some(Notification(Get(m, "method"), Get(m, "params"), FoldHeaders(explicit, m, NotificationReserved)))
    case _ => None
  }

  /** The wire `id` of a decoded notification is one of its headers. */
  lemma DecodedNotificationKeepsId(message: Text, explicit: map<string, Json>)
    requires IsObjectText(message) && "id" in Members(message)
    ensures var h := DecodeNotification(message, explicit).value.headers;
      "id" in h && h["id"] == Members(message)["id"]
  {
  }

  /** `NotificationMessage#to_s`: `jsonrpc`, `method`, `params`, never an `id`
      of its own, then the headers, which win on a shared key. */
  function EncodeNotification(n: Notification): (t: Text)
    ensures IsObjectText(t)
    ensures Members(t).Keys == {"jsonrpc", "method", "params"} + n.headers.Keys
    ensures forall k | k in n.headers :: Members(t)[k] == n.headers[k]
    ensures "jsonrpc" !in n.headers ==> Members(t)["jsonrpc"] == JsonRpcVersion
    ensures "method" !in n.headers ==> Members(t)["method"] == n.methodName
    ensures "params" !in n.headers ==> Members(t)["params"] == n.args
  {
    ToJson(Object(map["jsonrpc" := JsonRpcVersion, "method" := n.methodName, "params" := n.args] + n.headers))
  }

  /** Decoding an encoded notification: `method` and `params` come back unless
      a header replaced them; the headers come back without their reserved keys. */
  lemma NotificationRoundTrip(n: Notification, explicit: map<string, Json>)
    ensures DecodeNotification(EncodeNotification(n), explicit)
         == Some(Notification(HeaderOr(n.headers, "method", n.methodName),
                              HeaderOr(n.headers, "params", n.args),
                              explicit + (n.headers - NotificationReserved)))
  {
    var m := map["jsonrpc" := JsonRpcVersion, "method" := n.methodName, "params" := n.args] + n.headers;
    assert Members(EncodeNotification(n)) == m;
    var h := FoldHeaders(explicit, m, NotificationReserved);
    var expected := explicit + (n.headers - NotificationReserved);
    assert h.Keys == expected.Keys;
    forall k | k in h ensures h[k] == expected[k] {
      if k in n.headers && k !in NotificationReserved {
        assert m[k] == n.headers[k];
      }
    }
    assert h == expected;
    assert Get(m, "method") == HeaderOr(n.headers, "method", n.methodName);
    assert Get(m, "params") == HeaderOr(n.headers, "params", n.args);
  }

  lemma NotificationRoundTripExact(n: Notification)
    requires n.headers.Keys !! NotificationReserved
    ensures DecodeNotification(EncodeNotification(n), map[]) == Some(n)
  {
    NotificationRoundTrip(n, map[]);
    assert map[] + (n.headers - NotificationReserved) == n.headers;
  }

  /** An encoded notification reads as a notification unless an `id` header
      was merged into it, in which case it reads as a request. */
  lemma EncodedNotificationProbes(n: Notification)
    ensures IsNotificationMessage(EncodeNotification(n)) <==> "id" !in n.headers
    ensures IsRequestMessage(EncodeNotification(n)) <==> "id" in n.headers
  {
  }

  // ---------------------------------------------------------------------------
  // Responses

  /** Whether `p` occurs in `s` as a contiguous piece. */
  predicate HasSubstring(s: string, p: string)
    decreases |s|
  {
    p <= s || (s != [] && HasSubstring(s[1..], p))
  }

  /** Whether `error[key]` is defined in Ruby: on a hash and on a string;
      on anything else (nil, a number, an array, a boolean) it raises. */
  predicate CanIndexError(error: Json) {
    error.Object? || error.Str?
  }

  /** Ruby's `error[key]` on a parsed `error` value: the member of a hash (nil
      when absent), or for a string the key itself when it occurs in it. */
  function ErrorField(error: Json, key: string): (v: Json)
    requires CanIndexError(error)
    ensures error.Object? ==> v == Get(error.members, key)
    ensures error.Str? ==> (v == Str(key) <==> HasSubstring(error.s, key)) && (v == Str(key) || v == Null)
  {
    match error
    case Object(e) => Get(e, key)
    case Str(s) => if HasSubstring(s, key) then Str(key) else Null
  }

  /** `ResponseMessage.new(:message => ..., :headers => ...)`: `success` exactly
      when the wire object has `result`, `failed` its negation; the error fields
      are read only when there is no `result` and there is an `error`. */
  function DecodeResponse(message: Text, explicit: map<string, Json>): (r: Option<Response>)
    ensures r.Some? <==>
      && IsObjectText(message)
      && ("result" in Members(message) || "error" !in Members(message) || CanIndexError(Members(message)["error"]))
    ensures r.Some? ==> var m, res := Members(message), r.value.result;
      && r.value.id == Get(m, "id")
      && (res.success <==> "result" in m)
      && res.failed == !res.success
      && res.result == Get(m, "result")
      && (res.success || "error" !in m ==> res.errorCode == res.errorMsg == res.errorClass == Null)
      && (!res.success && "error" in m ==>
            && res.errorCode == ErrorField(m["error"], "code")
            && res.errorMsg == ErrorField(m["error"], "message")
            && res.errorClass == ErrorField(m["error"], "class"))
      && r.value.headers == FoldHeaders(explicit, m, ResponseReserved)
  {
    match Parse(message)
    case Some(Object(m)) =>
      var success := "result" in m;
      var initial := RpcResult(success, !success, Null, Null, Null, Null);
      if !success && "error" in m && !CanIndexError(m["error"]) then None
      else
        var result :=
          if success then initial.(result := m["result"])
          else if "error" in m then
            var e := m["error"];
            initial.(errorCode := ErrorField(e, "code"), errorMsg := ErrorField(e, "message"),
                     errorClass := ErrorField(e, "class"))
          else initial;
        Some(Response(Get(m, "id"), result, FoldHeaders(explicit, m, ResponseReserved)))
    case _ => None
  }

  /** The `error` member `to_s` writes for a failed result. */
  function ErrorObject(res: RpcResult): Json {
    Object(map["code" := res.errorCode, "message" := res.errorMsg, "class" := res.errorClass])
  }

  /** The members `to_s` writes before merging headers: `result` on success,
      otherwise `error` with `code`, `message` and `class`. */
  function ResponseEnvelope(r: Response): map<string, Json> {
    if r.result.success then
      map["jsonrpc" := JsonRpcVersion, "id" := r.id, "result" := r.result.result]
    else
      map["jsonrpc" := JsonRpcVersion, "id" := r.id, "error" := ErrorObject(r.result)]
  }

  /** `ResponseMessage#to_s`: exactly one of `result` and `error` besides
      `jsonrpc` and `id` (which is written even when nil), then the headers. */
  function EncodeResponse(r: Response): (t: Text)
    ensures IsObjectText(t)
    ensures Members(t).Keys
         == {"jsonrpc", "id", if r.result.success then "result" else "error"} + r.headers.Keys
    ensures forall k | k in r.headers :: Members(t)[k] == r.headers[k]
    ensures "id" !in r.headers ==> Members(t)["id"] == r.id
    ensures r.result.success && "result" !in r.headers ==> Members(t)["result"] == r.result.result
    ensures !r.result.success && "error" !in r.headers ==> Members(t)["error"] == ErrorObject(r.result)
  {
    ToJson(Object(ResponseEnvelope(r) + r.headers))
  }

  /** An encoded response is always recognised as a response. */
  lemma EncodedResponseIsResponse(r: Response)
    ensures IsResponseMessage(EncodeResponse(r))
  {
  }

  /** Whether a result is one the decoder could have produced: `failed` is the
      negation of `success`, and only the fields of its outcome are set. */
  predicate WellFormedResult(res: RpcResult) {
    && res.failed == !res.success
    && (res.success ==> res.errorCode == res.errorMsg == res.errorClass == Null)
    && (!res.success ==> res.result == Null)
  }

  /** Decoding an encoded response whose headers use no reserved key keeps the
      id, the success flag, the value on success and the error fields on
      failure, and the headers over the explicit ones. */
  lemma ResponseRoundTrip(r: Response, explicit: map<string, Json>)
    requires r.headers.Keys !! ResponseReserved
    ensures var d := DecodeResponse(EncodeResponse(r), explicit);
      && d.Some?
      && d.value.id == r.id
      && d.value.result.success == r.result.success
      && d.value.result.failed == !r.result.success
      && (r.result.success ==> d.value.result.result == r.result.result)
      && (!r.result.success ==>
            && d.value.result.errorCode == r.result.errorCode
            && d.value.result.errorMsg == r.result.errorMsg
            && d.value.result.errorClass == r.result.errorClass)
      && d.value.headers == explicit + r.headers
  {
    var m := ResponseEnvelope(r) + r.headers;
    assert Members(EncodeResponse(r)) == m;
    var h := FoldHeaders(explicit, m, ResponseReserved);
    assert h.Keys == (explicit + r.headers).Keys;
    assert h == explicit + r.headers;
  }

  /** Decoding an encoded response for any headers. A header named `id`,
      `result` or `error` replaces the envelope's member of that name, so a
      `result` header makes even a failed response decode as a success, and an
      `error` header that is neither a hash nor a string makes decoding fail.
      The headers come back without their reserved keys, over the explicit ones. */
  lemma ResponseRoundTripHeaders(r: Response, explicit: map<string, Json>)
    ensures var d := DecodeResponse(EncodeResponse(r), explicit);
      var success := r.result.success || "result" in r.headers;
      var error := HeaderOr(r.headers, "error", ErrorObject(r.result));
      && (d.Some? <==> success || CanIndexError(error))
      && (d.Some? ==>
            && d.value.id == HeaderOr(r.headers, "id", r.id)
            && d.value.result.success == success
            && d.value.result.failed == !success
            && (success ==> d.value.result.result == HeaderOr(r.headers, "result", r.result.result))
            && (!success ==>
                  && d.value.result.errorCode == ErrorField(error, "code")
                  && d.value.result.errorMsg == ErrorField(error, "message")
                  && d.value.result.errorClass == ErrorField(error, "class"))
            && d.value.headers == explicit + (r.headers - ResponseReserved))
  {
    var m := ResponseEnvelope(r) + r.headers;
    assert Members(EncodeResponse(r)) == m;
    assert Get(m, "id") == HeaderOr(r.headers, "id", r.id);
    assert ("result" in m) == (r.result.success || "result" in r.headers);
    if r.result.success || "result" in r.headers {
      assert m["result"] == HeaderOr(r.headers, "result", r.result.result);
    } else {
      assert m["error"] == HeaderOr(r.headers, "error", ErrorObject(r.result));
    }
    var h := FoldHeaders(explicit, m, ResponseReserved);
    var expected := explicit + (r.headers - ResponseReserved);
    assert h.Keys == expected.Keys;
    forall k | k in h ensures h[k] == expected[k] {
      if k in r.headers && k !in ResponseReserved {
        assert m[k] == r.headers[k];
      }
    }
    assert h == expected;
  }

  /** A failed response carrying a `result` header is read back as a success
      holding that header's value. */
  lemma FailedResponseWithResultHeader()
    ensures var r := Response(Str("1"), RpcResult(false, true, Null, Int(1), Str("m"), Str("c")),
                              map["result" := Int(7)]);
      var d := DecodeResponse(EncodeResponse(r), map[]);
      d.Some? && d.value.result.success && d.value.result.result == Int(7)
  {
    var r := Response(Str("1"), RpcResult(false, true, Null, Int(1), Str("m"), Str("c")),
                      map["result" := Int(7)]);
    ResponseRoundTripHeaders(r, map[]);
  }

  lemma ResponseRoundTripExact(r: Response)
    requires r.headers.Keys !! ResponseReserved && WellFormedResult(r.result)
    ensures DecodeResponse(EncodeResponse(r), map[]) == Some(r)
  {
    ResponseRoundTrip(r, map[]);
    assert map[] + r.headers == r.headers;
  }

  // ---------------------------------------------------------------------------
  // The message objects

  /** `RJR::RequestMessage`. */
  class RequestMessage {
    var jsonMessage: Option<Text>
    var jrMethod: Json
    var jrArgs: Json
    var msgId: Json
    var headers: map<string, Json>

    function Value(): Request
      reads this
    {
      Request(jrMethod, jrArgs, msgId, headers)
    }

    /** The `:message` path once `JSON.parse` has produced an object. */
    constructor FromParsed(message: Text, explicit: map<string, Json>)
      requires IsObjectText(message)
      ensures DecodeRequest(message, explicit) == Some(Value())
      ensures jsonMessage == Some(message)
    {
      var request := Members(message);
      jsonMessage := Some(message);
      jrMethod := Get(request, "method");
      jrArgs := Get(request, "params");
      msgId := Get(request, "id");
      var h := MergeHeaders(explicit, request, RequestReserved);
      headers := h;
    }

    /** The `:message` path: `None` where the source raises. */
    static method FromMessage(message: Text, explicit: map<string, Json>) returns (r: Option<RequestMessage>)
      ensures r.None? <==> DecodeRequest(message, explicit).None?
      ensures r.Some? ==> fresh(r.value) && r.value.jsonMessage == Some(message)
      ensures r.Some? ==> DecodeRequest(message, explicit) == Some(r.value.Value())
    {
      if !IsObjectText(message) {
        return None;
      }
      var m := new RequestMessage.FromParsed(message, explicit);
      return Some(m);
    }

    /** The `:method` path: the id is `gen_uuid` of the given bytes. */
    constructor Build(methodName: Json, args: Json, headers: map<string, Json>, uuidBytes: seq<Uuid.Byte>)
      requires |uuidBytes| == 16
      ensures Value() == Request(methodName, args, Str(Uuid.GenUuid(uuidBytes)), headers)
      ensures jsonMessage == None
    {
      jsonMessage := None;
      jrMethod := methodName;
      jrArgs := args;
      this.headers := headers;
      msgId := Str(Uuid.GenUuid(uuidBytes));
    }

    /** `to_s`: the envelope, `id` unless it is nil, then the headers merged
        over it. The text reads as a request exactly when it carries an id, and
        decodes back to this message when no header uses a reserved key. */
    method ToString() returns (t: Text)
      ensures t == EncodeRequest(Value())
      ensures IsRequestMessage(t) <==> msgId != Null || "id" in headers
      ensures IsNotificationMessage(t) <==> msgId == Null && "id" !in headers
      ensures headers.Keys !! RequestReserved ==> DecodeRequest(t, map[]) == Some(Value())
    {
      var request := map["jsonrpc" := JsonRpcVersion, "method" := jrMethod, "params" := jrArgs];
      if msgId != Null {
        request := request["id" := msgId];
      }
      request := request + headers;
      t := ToJson(Object(request));
      EncodedRequestProbes(Value());
      if headers.Keys !! RequestReserved {
        RequestRoundTripExact(Value());
      }
    }
  }

  /** `RJR::NotificationMessage`. */
  class NotificationMessage {
    var jsonMessage: Option<Text>
    var jrMethod: Json
    var jrArgs: Json
    var headers: map<string, Json>

    function Value(): Notification
      reads this
    {
      Notification(jrMethod, jrArgs, headers)
    }

    constructor FromParsed(message: Text, explicit: map<string, Json>)
      requires IsObjectText(message)
      ensures DecodeNotification(message, explicit) == Some(Value())
      ensures jsonMessage == Some(message)
    {
      var notification := Members(message);
      jsonMessage := Some(message);
      jrMethod := Get(notification, "method");
      jrArgs := Get(notification, "params");
      var h := MergeHeaders(explicit, notification, NotificationReserved);
      headers := h;
    }

    static method FromMessage(message: Text, explicit: map<string, Json>) returns (r: Option<NotificationMessage>)
      ensures r.None? <==> DecodeNotification(message, explicit).None?
      ensures r.Some? ==> fresh(r.value) && r.value.jsonMessage == Some(message)
      ensures r.Some? ==> DecodeNotification(message, explicit) == Some(r.value.Value())
    {
      if !IsObjectText(message) {
        return None;
      }
      var m := new NotificationMessage.FromParsed(message, explicit);
      return Some(m);
    }

    constructor Build(methodName: Json, args: Json, headers: map<string, Json>)
      ensures Value() == Notification(methodName, args, headers)
      ensures jsonMessage == None
    {
      jsonMessage := None;
      jrMethod := methodName;
      jrArgs := args;
      this.headers := headers;
    }

    /** `to_s`: the envelope, then the headers merged over it. The text reads
        as a notification unless a header supplies an `id`, and decodes back to
        this message when no header uses a reserved key. */
    method ToString() returns (t: Text)
      ensures t == EncodeNotification(Value())
      ensures IsNotificationMessage(t) <==> "id" !in headers
      ensures IsRequestMessage(t) <==> "id" in headers
      ensures headers.Keys !! NotificationReserved ==> DecodeNotification(t, map[]) == Some(Value())
    {
      var notification := map["jsonrpc" := JsonRpcVersion, "method" := jrMethod, "params" := jrArgs];
      notification := notification + headers;
      t := ToJson(Object(notification));
      EncodedNotificationProbes(Value());
      if headers.Keys !! NotificationReserved {
        NotificationRoundTripExact(Value());
      }
    }
  }

  /** `RJR::ResponseMessage`. */
  class ResponseMessage {
    var jsonMessage: Option<Text>
    var msgId: Json
    var result: RpcResult
    var headers: map<string, Json>

    function Value(): Response
      reads this
    {
      Response(msgId, result, headers)
    }

    /** The `:message` path once `JSON.parse` has produced an object whose
        `error`, if read, can be indexed. */
    constructor FromParsed(message: Text, explicit: map<string, Json>)
      requires DecodeResponse(message, explicit).Some?
      ensures DecodeResponse(message, explicit) == Some(Value())
      ensures jsonMessage == Some(message)
    {
      var response := Members(message);
      jsonMessage := Some(message);
      msgId := Get(response, "id");
      var success := "result" in response;
      var res := RpcResult(success, !success, Null, Null, Null, Null);
      if success {
        res := res.(result := response["result"]);
      } else if "error" in response {
        var error := response["error"];
        res := res.(errorCode := ErrorField(error, "code"), errorMsg := ErrorField(error, "message"),
                    errorClass := ErrorField(error, "class"));
      }
      result := res;
      var h := MergeHeaders(explicit, response, ResponseReserved);
      headers := h;
    }

    static method FromMessage(message: Text, explicit: map<string, Json>) returns (r: Option<ResponseMessage>)
      ensures r.None? <==> DecodeResponse(message, explicit).None?
      ensures r.Some? ==> fresh(r.value) && r.value.jsonMessage == Some(message)
      ensures r.Some? ==> DecodeResponse(message, explicit) == Some(r.value.Value())
    {
      if DecodeResponse(message, explicit).None? {
        return None;
      }
      var m := new ResponseMessage.FromParsed(message, explicit);
      return Some(m);
    }

    /** The `:result` path. */
    constructor Build(id: Json, result: RpcResult, headers: map<string, Json>)
      ensures Value() == Response(id, result, headers)
      ensures jsonMessage == None
    {
      jsonMessage := None;
      msgId := id;
      this.result := result;
      this.headers := headers;
    }

    /** `to_s`: `jsonrpc` and `id`, then `result` or `error` by the outcome,
        then the headers merged over it. The text always reads as a response,
        and a well-formed result with headers outside the reserved keys decodes
        back to this message. */
    method ToString() returns (t: Text)
      ensures t == EncodeResponse(Value())
      ensures IsResponseMessage(t)
      ensures headers.Keys !! ResponseReserved && WellFormedResult(result) ==>
        DecodeResponse(t, map[]) == Some(Value())
    {
      var s: map<string, Json>;
      if result.success {
        s := map["jsonrpc" := JsonRpcVersion, "id" := msgId, "result" := result.result];
      } else {
        s := map["jsonrpc" := JsonRpcVersion, "id" := msgId,
                 "error" := Object(map["code" := result.errorCode,
                                       "message" := result.errorMsg,
                                       "class" := result.errorClass])];
      }
      s := s + headers;
      t := ToJson(Object(s));
      EncodedResponseIsResponse(Value());
      if headers.Keys !! ResponseReserved && WellFormedResult(result) {
        ResponseRoundTripExact(Value());
      }
    }
  }
}

# RJR message layer in Dafny

A model of `lib/rjr/message.rb` from RJR, a Ruby JSON-RPC 2.0 library. The file has three parts.

- The three JSON-RPC 2.0 envelopes: request, notification and response. The layout follows sections 4, 4.1 and 5 of the JSON-RPC 2.0 Specification. Each kind can be decoded from wire text or built from fields, and each has an encoder (`to_s`) and a probe that never raises (`is_*_message?`).
- The request-id formatter `RequestMessage.gen_uuid`.
- The stream framer `MessageUtil.retrieve_json`. It cuts one JSON object off the front of a data buffer.

Files:

- `json.dfy` (module `Json`): JSON values, plus abstract wire text. `Parse` is a partial `JSON.parse`. `ToJson` is the total `to_json`, and the two are inverse. The JSON grammar is not modelled: wire text is either `Wellformed(value)` or `Malformed(raw)`. `Get` is Ruby's `Hash#[]`, which gives `nil` (here `Null`) for a missing key.
- `uuid.dfy` (module `Uuid`): `gen_uuid`, taking the sixteen bytes it draws as a parameter. It is proved to give the 8-4-4-4-12 lowercase-hex shape and to spell back exactly its bytes.
- `message.dfy` (module `Message`) has three layers:
  - Pure codec functions for each kind: decode, encode and probe, with the header-folding rule.
  - The round-trip and classification lemmas.
  - One class per Ruby class (`RequestMessage`, `NotificationMessage`, `ResponseMessage`). Each holds the fields the Ruby constructors set. Their constructors are proved to produce exactly the value the decode function gives. Header folding is a loop (`MergeHeaders`) proved equal to the pure `FoldHeaders`.
- `framer.dfy` (module `MessageUtil`): `RetrieveJson`, the Ruby method's two loops, proved equal to the specification function `Frame`. Lemmas about `Frame` cover:
  - the "no complete message yet" cases;
  - the shape of a found message;
  - that a message sent after brace-free noise is received whole;
  - that draining back-to-back objects recovers them in order;
  - the concrete buffers `{"a":1}{"b":2}`, `garbage{"a":{"b":1}}` and `{"a":1`;
  - the naive counting of braces inside string literals, which is reproduced on purpose: `{"a":"}"}` yields `{"a":"}` with rest `"}`.

Points of the code that the model keeps as written:
- Each kind has its own reserved key set: `jsonrpc`, `id`, `method`, `params` for a request (message.rb:60-62), `jsonrpc`, `id`, `result`, `error` for a response (message.rb:153-155), and `jsonrpc`, `method`, `params` for a notification (message.rb:244-246).
- A notification's wire `id` is not reserved, so it becomes a header (message.rb:244-246).
- A response always writes `id`, even when it is nil (message.rb:188-196).
- A failed response decoded without an `error` member leaves its error fields nil (message.rb:143-150).
- Headers are merged last on encode, so a header named `result` on a failed response makes it decode as a success (message.rb:139 and 200).

Ruby `nil` and JSON `null` are the same value, `Null`. Hash lookup on an absent key gives `nil`, and `to_s` skips a request id that is `nil`, so this matches the code.

## Model

| member | source | states |
|---|---|---|
| Json.Parse | lib/rjr/message.rb:54 | `JSON.parse` is partial: it fails exactly on malformed text |
| Json.ToJson | lib/rjr/message.rb:100 | `to_json` is total, and parsing its output gives the value back |
| Json.ParseInvertsToJson | lib/rjr/message.rb:100 | parse and serialise are inverse in both directions |
| Json.Get | lib/rjr/message.rb:56-58 | `hash[key]` is the member when present and `nil` when absent |
| Uuid.HexDigit | lib/rjr/message.rb:19 | a nibble prints as one lowercase hex digit, and the digit reads back as that nibble |
| Uuid.Hex2 | lib/rjr/message.rb:19 | `%02x` of a byte is exactly two lowercase hex digits, high nibble first, and they read back as the byte |
| Uuid.HexBytes | lib/rjr/message.rb:19 | bytes printed back to back take two lowercase hex digits each |
| Uuid.GenUuid | lib/rjr/message.rb:18-21 | for any 16 bytes: 36 characters, `-` at 8, 13, 18 and 23, lowercase hex digits everywhere else |
| Uuid.UuidRoundTrip | lib/rjr/message.rb:18-21 | reading the identifier back, skipping the dashes, gives exactly the 16 bytes it was formatted from |
| Message.FoldHeaders | lib/rjr/message.rb:59-63 | decoded header keys are the explicit keys plus the wire keys outside the reserved set; on a clash the wire value wins, and otherwise the explicit value stays |
| Message.MergeHeaders | lib/rjr/message.rb:61-63 | the select/each loop that writes wire keys into the copied explicit headers ends with exactly `FoldHeaders` |
| Message.IsRequestMessage | lib/rjr/message.rb:83-91 | true iff the text parses to an object with both `method` and `id`; false on parse failure or a non-object |
| Message.IsNotificationMessage | lib/rjr/message.rb:266-274 | true iff the text parses to an object with `method` and without `id`; false on parse failure or a non-object |
| Message.IsResponseMessage | lib/rjr/message.rb:173-182 | true iff the text parses to an object with `result` or `error`; false on parse failure or a non-object |
| Message.RequestNotificationExclusive | lib/rjr/message.rb:266-274 | no text is both a request and a notification, and together they are exactly the objects with a `method` |
| Message.ProbesRejectMalformed | lib/rjr/message.rb:83-91 | malformed text is none of the three kinds, and no probe fails |
| Message.RequestAndResponseOverlap | lib/rjr/message.rb:173-182 | the response probe is independent of the request probe: one text satisfies both |
| Message.DecodeRequest | lib/rjr/message.rb:52-68 | decoding fails exactly when the text is not an object; `method`, `params` and `id` are the wire members (nil when absent); headers fold over the request reserved set |
| Message.DecodedRequestHeaders | lib/rjr/message.rb:59-63 | a reserved key such as `id` is a request header only if it was an explicit header; every non-reserved wire key becomes a header with its wire value |
| Message.EncodeRequest | lib/rjr/message.rb:94-101 | the encoding is an object whose keys are `jsonrpc`, `method`, `params`, `id` when non-nil, and the header keys; headers win on a shared key; otherwise the members are `"2.0"`, the method, the args and the id |
| Message.RequestRoundTrip | lib/rjr/message.rb:51-101 | decoding an encoded request gives back method, args and id unless a header of that name replaced them, and gives back the non-reserved headers over the explicit ones |
| Message.RequestRoundTripExact | lib/rjr/message.rb:51-101 | with no reserved header key, decode after encode is the identity |
| Message.EncodedRequestProbes | lib/rjr/message.rb:94-101 | an encoded request reads as a request iff it has a non-nil id or an `id` header, and reads as a notification otherwise |
| Message.BuiltRequestCarriesId | lib/rjr/message.rb:70-75 | a request built for sending has a generated id, so its encoding reads as a request; decoding it gives the id back unless an `id` header replaced it |
| Message.DecodeNotification | lib/rjr/message.rb:236-251 | decoding fails exactly when the text is not an object; `method` and `params` are the wire members; headers fold over the notification reserved set, which leaves out `id` |
| Message.DecodedNotificationKeepsId | lib/rjr/message.rb:244-246 | a wire `id` of a notification lands in its headers with its wire value |
| Message.EncodeNotification | lib/rjr/message.rb:277-283 | the encoding is an object whose keys are `jsonrpc`, `method`, `params` and the header keys, with no `id` of its own; headers win on a shared key |
| Message.NotificationRoundTrip | lib/rjr/message.rb:235-283 | decoding an encoded notification gives back method and args unless a header replaced them, and gives back the non-reserved headers over the explicit ones |
| Message.NotificationRoundTripExact | lib/rjr/message.rb:235-283 | with no reserved header key, decode after encode is the identity |
| Message.EncodedNotificationProbes | lib/rjr/message.rb:277-283 | an encoded notification reads as a notification iff no `id` header was merged in, and as a request iff one was |
| Message.ErrorField | lib/rjr/message.rb:147-149 | `error[key]` on a hash is the member or nil; on a string it is the key when the key occurs in the string, else nil |
| Message.DecodeResponse | lib/rjr/message.rb:134-155 | `success` iff the wire object has `result` and `failed` is its negation; the value is read only on success; the error code, message and class are read only without `result` and with `error`, and are nil otherwise; decoding fails on a non-object or on an `error` that cannot be indexed; headers fold over the response reserved set |
| Message.EncodeResponse | lib/rjr/message.rb:185-202 | the encoding's keys are `jsonrpc`, `id` (even when nil), exactly one of `result` (on success) and `error` (otherwise), and the header keys; `error` is `{code, message, class}` |
| Message.EncodedResponseIsResponse | lib/rjr/message.rb:185-202 | every encoded response reads as a response |
| Message.ResponseRoundTrip | lib/rjr/message.rb:133-202 | with no reserved header key, decode after encode keeps the id and the success flag, makes `failed` its negation, and keeps the value on success, the error fields on failure, and the headers over the explicit ones |
| Message.ResponseRoundTripHeaders | lib/rjr/message.rb:133-202 | for any headers, decode after encode: `id`, `result` and `error` headers replace the envelope's members, success holds iff the result succeeded or a `result` header exists, decoding fails iff it is a failure whose `error` (header or envelope) is neither a hash nor a string, the error fields are read from that `error`, and the non-reserved headers come back over the explicit ones |
| Message.FailedResponseWithResultHeader | lib/rjr/message.rb:139-200 | a failed response with a `result` header decodes as a success holding that header's value |
| Message.ResponseRoundTripExact | lib/rjr/message.rb:133-202 | a response with a well-formed result and no reserved header key survives encode and decode unchanged |
| Message.RequestMessage.FromParsed | lib/rjr/message.rb:52-63 | the fields set from a parsed object are exactly the decoded request, and `json_message` is the text |
| Message.RequestMessage.FromMessage | lib/rjr/message.rb:52-68 | decoding by text yields nothing exactly where the source raises, and otherwise a fresh message holding the decoded request |
| Message.RequestMessage.Build | lib/rjr/message.rb:70-75 | the built message holds the method, args and headers given and the id `gen_uuid` formats from the drawn bytes |
| Message.RequestMessage.ToString | lib/rjr/message.rb:94-101 | builds the envelope, adds `id` unless nil and merges the headers, giving the request encoding of the fields; the text reads as a request iff there is a non-nil id or an `id` header, else as a notification; with no reserved header key it decodes back to this message |
| Message.NotificationMessage.FromParsed | lib/rjr/message.rb:236-246 | the fields set from a parsed object are exactly the decoded notification |
| Message.NotificationMessage.FromMessage | lib/rjr/message.rb:236-251 | decoding by text yields nothing exactly where the source raises, and otherwise a fresh message holding the decoded notification |
| Message.NotificationMessage.Build | lib/rjr/message.rb:253-257 | the built message holds the method, args and headers given and has no id |
| Message.NotificationMessage.ToString | lib/rjr/message.rb:277-283 | builds the envelope and merges the headers, giving the notification encoding of the fields; the text reads as a notification iff no header is `id`, and as a request iff one is; with no reserved header key it decodes back to this message |
| Message.ResponseMessage.FromParsed | lib/rjr/message.rb:134-155 | the fields and result set from a parsed object are exactly the decoded response |
| Message.ResponseMessage.FromMessage | lib/rjr/message.rb:134-155 | decoding by text yields nothing exactly where the source raises, and otherwise a fresh message holding the decoded response |
| Message.ResponseMessage.Build | lib/rjr/message.rb:157-160 | the built message holds the id, result and headers given |
| Message.ResponseMessage.ToString | lib/rjr/message.rb:185-202 | builds `jsonrpc`, `id` and `result` or `error` by the outcome, then merges the headers, giving the response encoding of the fields; the text always reads as a response, and decodes back to this message when the result is well formed and no header key is reserved |
| MessageUtil.FirstBrace | lib/rjr/message.rb:302 | `start` stops at the first `{`, or at the length when there is none |
| MessageUtil.CloseFrom | lib/rjr/message.rb:304-315 | the `upto` scan stops at the first character where the depth counted from `start` returns to zero (given as the position after it, `mi + 1`), or finds none |
| MessageUtil.RetrieveJson | lib/rjr/message.rb:299-319 | the two loops, `mi == 0` test included, compute exactly `Frame`: nothing, or the slice from the first `{` to the first return to depth zero and the text after it |
| MessageUtil.FrameNotYet | lib/rjr/message.rb:300-317 | nothing is returned for an empty buffer or one with no `{`, and nothing is returned exactly when the depth from the first `{` never returns to zero |
| MessageUtil.FrameFound | lib/rjr/message.rb:302-318 | a returned message starts at the first `{`, begins with `{` and ends with `}`, message then rest is the buffer from that `{` on, and the rest is strictly shorter than the buffer |
| MessageUtil.ClosedSliceIsFramed | lib/rjr/message.rb:304-318 | the slice up to the first zero of the depth has positive depth at every earlier point |
| MessageUtil.DepthPositiveBeforeClose | lib/rjr/message.rb:304-315 | the `on` counter never goes negative before it first reaches zero |
| MessageUtil.FramedObjectEndsWithClose | lib/rjr/message.rb:318 | a framed object has at least two characters and its last one is `}` |
| MessageUtil.FrameConcat | lib/rjr/message.rb:299-319 | after noise without `{`, a framed object is returned whole, with everything after it as the rest |
| MessageUtil.Drain | lib/rjr/message.rb:289-298 | re-framing the rest until nothing is complete terminates; every message is a framed object, and the leftover holds no complete message |
| MessageUtil.DrainFramedHead | lib/rjr/message.rb:299-319 | a framed object at the front of a buffer is drained first, and the rest drains as it would alone |
| MessageUtil.DrainConcat | lib/rjr/message.rb:289-298 | framed objects sent back to back are received one by one, in order, with nothing left over |
| MessageUtil.ExampleSequentialDrain | lib/rjr/message.rb:299-319 | `{"a":1}{"b":2}` gives `{"a":1}` with rest `{"b":2}`, which in turn gives `{"b":2}` with an empty rest |
| MessageUtil.ExampleNoiseAndNesting | lib/rjr/message.rb:299-319 | `garbage{"a":{"b":1}}` gives `{"a":{"b":1}}` with an empty rest |
| MessageUtil.ExamplePartial | lib/rjr/message.rb:299-319 | `{"a":1` gives no message |
| MessageUtil.ExampleBraceInsideString | lib/rjr/message.rb:305-309 | braces inside string literals are counted: `{"a":"}"}` gives `{"a":"}` with rest `"}` |

## Left out

- `lib/rjr/nodes/ws.rb` is not part of this model. That covers the WebSocket transport node, its connection registry, the request/response correlation, and the mutex and condition-variable handshake. They are concurrency and I/O around a foreign connect call, and the node base class they rely on is not shown.
- The JSON grammar is not modelled. Wire text is abstract: well-formed text is identified with the value it spells, so two spellings of one value are the same text.
- JSON numbers with a fraction or an exponent are not modelled. `Json` has integers only. No behaviour of the message layer depends on the kind of number.
- A `nil` input is not modelled. `retrieve_json(nil)` returns nil (message.rb:300), and the `is_*_message?` probes answer false for nil. The model's inputs are strings and texts, and the empty buffer takes the nil path.
- Key order is not modelled. Ruby hashes keep insertion order, so `to_json` writes keys in a particular order; objects here are maps.
- Randomness in `gen_uuid` is not modelled. The bytes are a parameter, and any value 0..255 is allowed. The source's `rand(0xff)` only draws 0..254, which does not affect the shape.
- Ruby exception objects are not modelled. A decode that raises, whether from a parse failure, a non-object value, or an `error` member that is nil, a number, an array or a boolean, is `None` from `FromMessage` and from the `Decode*` functions. The rescue and re-raise blocks only pass the exception on.
- Passing `:headers => nil` is not modelled. On the decode path, `merge!(nil)` raises; the model always takes explicit headers as a map, with an absent option being the empty map.
- A `nil` header hash on the build path is not modelled separately. It is the empty map; `to_s` skips merging `nil`, which gives the same text.
- Aliasing is not modelled. On the build path the source keeps the caller's header hash and args array by reference, so later mutation by the caller shows in the message. The model holds values.
- The constructor call with neither `:message` nor `:method`/`:result` is not modelled. It leaves every field nil.
- The `attr_accessor` setters are not modelled as separate methods. The class fields are plain mutable fields.
- `RJR::Result` internals are not modelled; its source is not shown. It appears only as the record `RpcResult` with the six fields the message layer reads and writes. A result built by a caller may have `failed` inconsistent with `success`; `ResponseRoundTripExact` therefore requires a well-formed result.

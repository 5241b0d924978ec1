/** The control envelopes that travel beside every payload, on the level of JSON values. */
module Protocol {
  import opened Wrappers

  type byte = x: int | 0 <= x < 256

  datatype Json =
    | JNull
    | JBool(b: bool)
    | JInt(i: int)
    | JReal(r: real)
    | JString(s: string)
    | JArray(items: seq<Json>)
    | JObject(fields: map<string, Json>)

  /** `Unhashable` is the TypeError that escapes when a set is asked whether it contains a list or a dict,
      `Uncaught` what else JSON reading or writing raises besides the errors that the code catches. */
  datatype Error = ProtocolError(reason: string) | Unhashable | Uncaught | ValueError(reason: string)

  datatype Result<+T> = Ok(value: T) | Err(error: Error)

  const PROTOCOL_VERSION := 1

  datatype Kind = Request | Response

  function KindText(k: Kind): string {
    if k == Request then "request" else "response"
  }

  datatype Envelope = Envelope(
    kind: Kind,
    requestId: string,
    target: Option<string>,                   // the field `method`
    deadline: Option<int>,
    metadata: Option<map<string, string>>,
    status: Option<string>,
    errorMessage: Option<string>,
    errorDetails: Option<map<string, Json>>)

  /** The values of the enumeration Status. */
  predicate IsStatus(s: string) {
    s in {
      "ok", "cancelled", "unknown", "invalid_argument", "deadline_exceeded", "not_found",
      "already_exists", "permission_denied", "resource_exhausted", "failed_precondition",
      "aborted", "out_of_range", "unimplemented", "internal", "unavailable", "data_loss",
      "unauthenticated"
    }
  }

  /** What the code takes from libraries that are not part of this model: UUID parsing, the notion of
      white space, and JSON text with its UTF-8 encoding. */
  datatype Lib = Lib(
    isUuid: string -> bool,
    isSpace: char -> bool,
    dumps: Json -> Written,
    loads: seq<byte> -> Read)

  /** How json.dumps and the encoding end: with bytes, with a TypeError or ValueError, with another error
      (a nesting too deep for the interpreter's stack). */
  datatype Written = Text(bytes: seq<byte>) | Unserializable | WritingFails

  /** How json.loads ends: with a value, with an error of decoding or syntax, with another error (an integer
      of too many digits, a nesting too deep). */
  datatype Read = Parsed(value: Json) | Malformed | ReadingFails

  /** Text that dumps produces is read back as the value it came from. */
  ghost predicate Lawful(lib: Lib) {
    forall v :: lib.dumps(v).Text? ==> lib.loads(lib.dumps(v).bytes) == Parsed(v)
  }

  predicate Blank(lib: Lib, s: string) {
    forall i :: 0 <= i < |s| ==> lib.isSpace(s[i])
  }

  // ----- constructors

  function OrEmpty<V>(m: Option<map<string, V>>): map<string, V> {
    if m.None? then map[] else m.value
  }

  function RequestEnvelope(requestId: string, target: string, deadline: Option<int>, metadata: Option<map<string, string>>): Envelope {
    Envelope(Request, requestId, Some(target), deadline, Some(OrEmpty(metadata)), None, None, None)
  }

  function ResponseEnvelope(requestId: string, status: string, message: Option<string>, details: Option<map<string, Json>>): Result<Envelope> {
    if !IsStatus(status) then Err(ValueError("unknown RPC status"))
    else if status == "ok" && message.Some? then Err(ValueError("successful RPC response cannot contain an error"))
    else if status != "ok" && message.None? then Err(ValueError("failed RPC response must contain an error message"))
    else Ok(Envelope(Response, requestId, None, None, None, Some(status), message, details))
  }

  // ----- encoding

  function TextFields(m: map<string, string>): map<string, Json> {
    map k | k in m :: JString(m[k])
  }

  function OptionalText(s: Option<string>): Json {
    if s.None? then JNull else JString(s.value)
  }

  function ErrorFields(message: string, details: Option<map<string, Json>>): map<string, Json> {
    map["message" := JString(message), "details" := JObject(OrEmpty(details))]
  }

  function HeadOf(e: Envelope): map<string, Json> {
    map["v" := JInt(PROTOCOL_VERSION), "kind" := JString(KindText(e.kind)), "id" := JString(e.requestId)]
  }

  function Single(name: string, present: bool, value: Json): map<string, Json> {
    if present then map[name := value] else map[]
  }

  /** The JSON object of an envelope. */
  function ObjectOf(e: Envelope): map<string, Json> {
    if e.kind == Request then
      HeadOf(e)
      + Single("method", true, OptionalText(e.target))
      + Single("deadline_unix_ns", e.deadline.Some?, JInt(if e.deadline.Some? then e.deadline.value else 0))
      + Single("metadata", OrEmpty(e.metadata) != map[], JObject(TextFields(OrEmpty(e.metadata))))
    else
      HeadOf(e)
      + Single("status", true, OptionalText(e.status))
      + Single("error", e.errorMessage.Some?,
               JObject(ErrorFields(if e.errorMessage.Some? then e.errorMessage.value else "", e.errorDetails)))
  }

  lemma Put(m: map<string, Json>, name: string, present: bool, value: Json)
    ensures m + Single(name, present, value) == if present then m[name := value] else m
  {
  }

  /** encode_envelope fills the object entry by entry. */
  method FillObject(e: Envelope) returns (value: map<string, Json>)
    ensures value == ObjectOf(e)
  {
    hide Single;
    value := HeadOf(e);
    if e.kind == Request {
      Put(value, "method", true, OptionalText(e.target));
      value := value["method" := OptionalText(e.target)];
      Put(value, "deadline_unix_ns", e.deadline.Some?, JInt(if e.deadline.Some? then e.deadline.value else 0));
      if e.deadline.Some? {
        value := value["deadline_unix_ns" := JInt(e.deadline.value)];
      }
      Put(value, "metadata", OrEmpty(e.metadata) != map[], JObject(TextFields(OrEmpty(e.metadata))));
      if e.metadata.Some? && e.metadata.value != map[] {
        value := value["metadata" := JObject(TextFields(e.metadata.value))];
      }
    } else {
      Put(value, "status", true, OptionalText(e.status));
      value := value["status" := OptionalText(e.status)];
      Put(value, "error", e.errorMessage.Some?,
          JObject(ErrorFields(if e.errorMessage.Some? then e.errorMessage.value else "", e.errorDetails)));
      if e.errorMessage.Some? {
        value := value["error" := JObject(ErrorFields(e.errorMessage.value, e.errorDetails))];
      }
    }
  }

  // ----- decoding

  function Get(fields: map<string, Json>, name: string): Json {
    if name in fields then fields[name] else JNull
  }

  /** `== 1` as Python compares: True and 1.0 are equal to 1. */
  predicate EqualsOne(v: Json) {
    v == JInt(1) || v == JBool(true) || v == JReal(1.0)
  }

  predicate AllText(fields: map<string, Json>) {
    forall k :: k in fields ==> fields[k].JString?
  }

  function TextsOf(fields: map<string, Json>): map<string, string>
    requires AllText(fields)
  {
    map k | k in fields :: fields[k].s
  }

  function DecodeRequest(lib: Lib, requestId: string, fields: map<string, Json>): Result<Envelope> {
    var target := Get(fields, "method");
    var deadline := Get(fields, "deadline_unix_ns");
    var metadata := if "metadata" in fields then fields["metadata"] else JObject(map[]);
    if !target.JString? || Blank(lib, target.s) then Err(ProtocolError("RPC request is missing its method"))
    else if deadline != JNull && !deadline.JInt? then Err(ProtocolError("RPC deadline must be an integer"))
    else if !metadata.JObject? || !AllText(metadata.fields) then Err(ProtocolError("RPC metadata must map strings to strings"))
    else
      Ok(Envelope(Request, requestId, Some(target.s), if deadline.JInt? then Some(deadline.i) else None,
                  Some(TextsOf(metadata.fields)), None, None, None))
  }

  datatype RemoteError = NoError | RemoteError(message: string, details: map<string, Json>)

  function DecodeError(raw: Json): Result<RemoteError> {
    if raw == JNull then Ok(NoError)
    else if !raw.JObject? then Err(ProtocolError("RPC response error must be an object"))
    else
      var message := Get(raw.fields, "message");
      var details := if "details" in raw.fields then raw.fields["details"] else JObject(map[]);
      if !message.JString? || !details.JObject? then Err(ProtocolError("RPC response contains an invalid error"))
      else Ok(RemoteError(message.s, details.fields))
  }

  function DecodeResponse(requestId: string, fields: map<string, Json>): Result<Envelope> {
    var status := Get(fields, "status");
    if !status.JString? || status.s == "" then Err(ProtocolError("RPC response is missing its status"))
    else if !IsStatus(status.s) then Err(ProtocolError("unknown RPC response status"))
    else
      match DecodeError(Get(fields, "error"))
      case Err(error) => Err(error)
      case Ok(NoError) =>
        if status.s != "ok" then Err(ProtocolError("failed RPC response must contain an error"))
        else Ok(Envelope(Response, requestId, None, None, None, Some(status.s), None, None))
      case Ok(RemoteError(message, details)) =>
        if status.s == "ok" then Err(ProtocolError("successful RPC response cannot contain an error"))
        else Ok(Envelope(Response, requestId, None, None, None, Some(status.s), Some(message), Some(details)))
  }

  function Decode(lib: Lib, v: Json): Result<Envelope> {
    if !v.JObject? then Err(ProtocolError("RPC envelope must be an object"))
    else if !EqualsOne(Get(v.fields, "v")) then Err(ProtocolError("unsupported RPC protocol version"))
    else
      var kind := Get(v.fields, "kind");
      var id := Get(v.fields, "id");
      if kind.JArray? || kind.JObject? then Err(Unhashable)
      else if kind != JString("request") && kind != JString("response") then Err(ProtocolError("RPC envelope has an invalid kind"))
      else if !id.JString? then Err(ProtocolError("RPC envelope is missing its request ID"))
      else if !lib.isUuid(id.s) then Err(ProtocolError("RPC request ID is not a UUID"))
      else if kind == JString("request") then DecodeRequest(lib, id.s, v.fields)
      else DecodeResponse(id.s, v.fields)
  }

  // ----- round trips

  /** The form in which an envelope arrives: absent metadata is empty, absent details of an error are
      empty, details without an error are gone, and fields of the other kind are gone. */
  function Normal(e: Envelope): Envelope {
    if e.kind == Request then
      Envelope(Request, e.requestId, e.target, e.deadline, Some(OrEmpty(e.metadata)), None, None, None)
    else
      Envelope(Response, e.requestId, None, None, None, e.status, e.errorMessage,
               if e.errorMessage.None? then None else Some(OrEmpty(e.errorDetails)))
  }

  predicate Sendable(lib: Lib, e: Envelope) {
    && lib.isUuid(e.requestId)
    && if e.kind == Request then e.target.Some? && !Blank(lib, e.target.value)
       else e.status.Some? && IsStatus(e.status.value) && (e.status.value == "ok" <==> e.errorMessage.None?)
  }

  predicate HasHead(fields: map<string, Json>, e: Envelope) {
    && Get(fields, "v") == JInt(PROTOCOL_VERSION)
    && Get(fields, "kind") == JString(KindText(e.kind))
    && Get(fields, "id") == JString(e.requestId)
  }

  lemma HeadSurvives(fields: map<string, Json>, e: Envelope, name: string, present: bool, value: Json)
    requires HasHead(fields, e) && name != "v" && name != "kind" && name != "id"
    ensures HasHead(fields + Single(name, present, value), e)
  {
    hide KindText;
  }

  /** What a reader of the object finds under each name; the other names are absent. */
  lemma ObjectFields(e: Envelope)
    ensures HasHead(ObjectOf(e), e)
  {
    assert HasHead(HeadOf(e), e);
    hide HasHead, HeadOf, Single;
    if e.kind == Request {
      var a := HeadOf(e) + Single("method", true, OptionalText(e.target));
      var b := a + Single("deadline_unix_ns", e.deadline.Some?, JInt(if e.deadline.Some? then e.deadline.value else 0));
      HeadSurvives(HeadOf(e), e, "method", true, OptionalText(e.target));
      HeadSurvives(a, e, "deadline_unix_ns", e.deadline.Some?, JInt(if e.deadline.Some? then e.deadline.value else 0));
      HeadSurvives(b, e, "metadata", OrEmpty(e.metadata) != map[], JObject(TextFields(OrEmpty(e.metadata))));
    } else {
      var a := HeadOf(e) + Single("status", true, OptionalText(e.status));
      HeadSurvives(HeadOf(e), e, "status", true, OptionalText(e.status));
      HeadSurvives(a, e, "error", e.errorMessage.Some?,
                   JObject(ErrorFields(if e.errorMessage.Some? then e.errorMessage.value else "", e.errorDetails)));
    }
  }

  lemma RequestFields(e: Envelope)
    requires e.kind == Request
    ensures Get(ObjectOf(e), "method") == OptionalText(e.target)
    ensures Get(ObjectOf(e), "deadline_unix_ns") == if e.deadline.Some? then JInt(e.deadline.value) else JNull
    ensures "metadata" in ObjectOf(e) <==> OrEmpty(e.metadata) != map[]
    ensures "metadata" in ObjectOf(e) ==> ObjectOf(e)["metadata"] == JObject(TextFields(OrEmpty(e.metadata)))
  {
    hide OptionalText, TextFields, OrEmpty, KindText;
  }

  lemma ResponseFields(e: Envelope)
    requires e.kind == Response
    ensures Get(ObjectOf(e), "status") == OptionalText(e.status)
    ensures Get(ObjectOf(e), "error")
            == if e.errorMessage.Some? then JObject(ErrorFields(e.errorMessage.value, e.errorDetails)) else JNull
  {
    hide OptionalText, ErrorFields, KindText;
  }

  lemma TextsRoundTrip(m: map<string, string>)
    ensures AllText(TextFields(m)) && TextsOf(TextFields(m)) == m
  {
  }

  lemma RequestRoundTrip(lib: Lib, e: Envelope)
    requires e.kind == Request
    ensures var r := DecodeRequest(lib, e.requestId, ObjectOf(e));
            && (r.Ok? <==> e.target.Some? && !Blank(lib, e.target.value))
            && (r.Ok? ==> r.value == Normal(e))
            && (r.Err? ==> r.error.ProtocolError?)
  {
    hide Blank, ObjectOf;
    RequestFields(e);
    TextsRoundTrip(OrEmpty(e.metadata));
    if OrEmpty(e.metadata) == map[] {
      assert TextsOf(map[]) == map[];
    }
  }

  lemma ResponseRoundTrip(e: Envelope)
    requires e.kind == Response
    ensures var r := DecodeResponse(e.requestId, ObjectOf(e));
            && (r.Ok? <==> e.status.Some? && IsStatus(e.status.value) && (e.status.value == "ok" <==> e.errorMessage.None?))
            && (r.Ok? ==> r.value == Normal(e))
            && (r.Err? ==> r.error.ProtocolError?)
  {
    hide ObjectOf;
    ResponseFields(e);
  }

  /** Encode, then decode: what arrives is the envelope's normal form, and it is accepted exactly when
      the request ID is a UUID and the method is not blank, or the status is known and goes with an
      error message exactly when it is not `ok`. */
  lemma RoundTrip(lib: Lib, e: Envelope)
    ensures var r := Decode(lib, JObject(ObjectOf(e)));
            && (r.Ok? <==> Sendable(lib, e))
            && (r.Ok? ==> r.value == Normal(e))
            && (r.Err? ==> r.error.ProtocolError?)
  {
    hide Blank, IsStatus, ObjectOf;
    ObjectFields(e);
    hide DecodeRequest, DecodeResponse, Normal;
    assert "request" != "response";
    if e.kind == Request { RequestRoundTrip(lib, e); } else { ResponseRoundTrip(e); }
  }

  /** What the clients' and servers' own constructors build is always accepted, given a UUID and a
      method that is not blank. */
  lemma ConstructedIsSendable(lib: Lib, id: string, target: string, deadline: Option<int>, metadata: Option<map<string, string>>,
                              status: string, message: Option<string>, details: Option<map<string, Json>>)
    requires lib.isUuid(id) && !Blank(lib, target)
    ensures Sendable(lib, RequestEnvelope(id, target, deadline, metadata))
    ensures Normal(RequestEnvelope(id, target, deadline, metadata)) == RequestEnvelope(id, target, deadline, metadata)
    ensures ResponseEnvelope(id, status, message, details).Ok? ==>
              Sendable(lib, ResponseEnvelope(id, status, message, details).value)
  {
  }

  lemma DecodedRequestIsNormal(lib: Lib, id: string, fields: map<string, Json>)
    requires lib.isUuid(id) && DecodeRequest(lib, id, fields).Ok?
    ensures var e := DecodeRequest(lib, id, fields).value; Sendable(lib, e) && Normal(e) == e
  {
    hide Blank;
  }

  lemma DecodedResponseIsNormal(lib: Lib, id: string, fields: map<string, Json>)
    requires lib.isUuid(id) && DecodeResponse(id, fields).Ok?
    ensures var e := DecodeResponse(id, fields).value; Sendable(lib, e) && Normal(e) == e
  {
    hide Blank, IsStatus;
  }

  /** Decoding lands in normal form: for every accepted JSON value, however it was written, encoding the
      envelope and decoding it again gives the same envelope. */
  lemma DecodeIsStable(lib: Lib, v: Json)
    requires Decode(lib, v).Ok?
    ensures Decode(lib, JObject(ObjectOf(Decode(lib, v).value))) == Decode(lib, v)
  {
    hide Blank, IsStatus, DecodeRequest, DecodeResponse, Sendable, Normal, ObjectOf;
    var id := Get(v.fields, "id").s;
    if Get(v.fields, "kind") == JString("request") {
      DecodedRequestIsNormal(lib, id, v.fields);
    } else {
      DecodedResponseIsNormal(lib, id, v.fields);
    }
    hide Decode;
    RoundTrip(lib, Decode(lib, v).value);
  }

  // ----- what exactly is accepted, and what is sent, field by field

  predicate KnownStatus(s: string) {
    || s == "ok" || s == "cancelled" || s == "unknown" || s == "invalid_argument" || s == "deadline_exceeded"
    || s == "not_found" || s == "already_exists" || s == "permission_denied" || s == "resource_exhausted"
    || s == "failed_precondition" || s == "aborted" || s == "out_of_range" || s == "unimplemented"
    || s == "internal" || s == "unavailable" || s == "data_loss" || s == "unauthenticated"
  }

  lemma StatusesKnown(s: string)
    ensures IsStatus(s) <==> KnownStatus(s)
  {
  }

  /** A method with something in it, a deadline that is an integer if it is there, and metadata that are texts. */
  ghost predicate RequestFieldsFit(lib: Lib, f: map<string, Json>) {
    && "method" in f && f["method"].JString?
    && (exists i :: 0 <= i < |f["method"].s| && !lib.isSpace(f["method"].s[i]))
    && ("deadline_unix_ns" in f ==> f["deadline_unix_ns"].JInt? || f["deadline_unix_ns"].JNull?)
    && ("metadata" in f ==>
          f["metadata"].JObject? && forall k :: k in f["metadata"].fields ==> f["metadata"].fields[k].JString?)
  }

  /** A known status, and an error exactly if that is not `ok`, with a text for its message and, if they are
      there, an object for its details. */
  predicate ResponseFieldsFit(f: map<string, Json>) {
    && "status" in f && f["status"].JString? && KnownStatus(f["status"].s)
    && if "error" !in f || f["error"].JNull? then f["status"].s == "ok"
       else
         && f["status"].s != "ok" && f["error"].JObject?
         && "message" in f["error"].fields && f["error"].fields["message"].JString?
         && ("details" in f["error"].fields ==> f["error"].fields["details"].JObject?)
  }

  lemma RequestAcceptedExactly(lib: Lib, id: string, f: map<string, Json>)
    ensures DecodeRequest(lib, id, f).Ok? <==> RequestFieldsFit(lib, f)
    ensures DecodeRequest(lib, id, f).Ok? ==>
              DecodeRequest(lib, id, f).value
              == Envelope(Request, id, Some(f["method"].s),
                          if "deadline_unix_ns" in f && f["deadline_unix_ns"].JInt? then Some(f["deadline_unix_ns"].i) else None,
                          Some(if "metadata" in f then map k | k in f["metadata"].fields :: f["metadata"].fields[k].s else map[]),
                          None, None, None)
  {
  }

  lemma ResponseAcceptedExactly(id: string, f: map<string, Json>)
    ensures DecodeResponse(id, f).Ok? <==> ResponseFieldsFit(f)
    ensures DecodeResponse(id, f).Ok? ==>
              DecodeResponse(id, f).value
              == if "error" !in f || f["error"].JNull? then Envelope(Response, id, None, None, None, Some("ok"), None, None)
                 else Envelope(Response, id, None, None, None, Some(f["status"].s), Some(f["error"].fields["message"].s),
                               Some(if "details" in f["error"].fields then f["error"].fields["details"].fields else map[]))
  {
    if "status" in f && f["status"].JString? { StatusesKnown(f["status"].s); }
    assert !KnownStatus("");
    hide IsStatus, KnownStatus;
  }

  /** Acceptance: version 1 (which Python also finds in true and 1.0), an ID that is a UUID, a kind, and what
      the kind asks for. The envelope carries what the fields say. */
  lemma AcceptedExactly(lib: Lib, v: Json)
    ensures Decode(lib, v).Ok?
            <==> && v.JObject?
                 && "v" in v.fields && (v.fields["v"] == JInt(1) || v.fields["v"] == JBool(true) || v.fields["v"] == JReal(1.0))
                 && "id" in v.fields && v.fields["id"].JString? && lib.isUuid(v.fields["id"].s)
                 && "kind" in v.fields
                 && (|| (v.fields["kind"] == JString("request") && RequestFieldsFit(lib, v.fields))
                     || (v.fields["kind"] == JString("response") && ResponseFieldsFit(v.fields)))
    ensures Decode(lib, v).Ok? ==>
              && Decode(lib, v).value.requestId == v.fields["id"].s
              && (Decode(lib, v).value.kind == Request <==> v.fields["kind"] == JString("request"))
              && Decode(lib, v) == if v.fields["kind"] == JString("request") then DecodeRequest(lib, v.fields["id"].s, v.fields)
                                   else DecodeResponse(v.fields["id"].s, v.fields)
  {
    hide DecodeRequest, DecodeResponse, RequestFieldsFit, ResponseFieldsFit;
    assert "request" != "response";
    if v.JObject? && Get(v.fields, "id").JString? {
      RequestAcceptedExactly(lib, v.fields["id"].s, v.fields);
      ResponseAcceptedExactly(v.fields["id"].s, v.fields);
    }
  }

  /** What is sent: exactly these fields. */
  lemma RequestSentExactly(e: Envelope)
    requires e.kind == Request
    ensures ObjectOf(e)
            == map["v" := JInt(1), "kind" := JString("request"), "id" := JString(e.requestId),
                   "method" := if e.target.Some? then JString(e.target.value) else JNull]
               + (if e.deadline.Some? then map["deadline_unix_ns" := JInt(e.deadline.value)] else map[])
               + (if e.metadata.Some? && e.metadata.value != map[] then
                    map["metadata" := JObject(map k | k in e.metadata.value :: JString(e.metadata.value[k]))]
                  else map[])
  {
    var method4 := map["v" := JInt(1), "kind" := JString("request"), "id" := JString(e.requestId),
                       "method" := if e.target.Some? then JString(e.target.value) else JNull];
    assert HeadOf(e) + Single("method", true, OptionalText(e.target)) == method4;
    hide HeadOf, OptionalText;
  }

  lemma ResponseSentExactly(e: Envelope)
    requires e.kind == Response
    ensures ObjectOf(e)
            == map["v" := JInt(1), "kind" := JString("response"), "id" := JString(e.requestId),
                   "status" := if e.status.Some? then JString(e.status.value) else JNull]
               + (if e.errorMessage.Some? then
                    map["error" := JObject(map["message" := JString(e.errorMessage.value),
                                               "details" := JObject(if e.errorDetails.Some? then e.errorDetails.value else map[])])]
                  else map[])
  {
    var status4 := map["v" := JInt(1), "kind" := JString("response"), "id" := JString(e.requestId),
                       "status" := if e.status.Some? then JString(e.status.value) else JNull];
    assert HeadOf(e) + Single("status", true, OptionalText(e.status)) == status4;
    hide HeadOf, OptionalText;
  }

  /** Responses that can be built: a known status, with an error message exactly if it is not `ok`; and
      aborts: the other known ones. */
  lemma BuiltExactly(id: string, status: string, message: Option<string>, details: Option<map<string, Json>>)
    ensures var r := ResponseEnvelope(id, status, message, details);
            && (r.Ok? <==> KnownStatus(status) && (status == "ok" <==> message.None?))
            && (r.Ok? ==> r.value == Envelope(Response, id, None, None, None, Some(status), message, details))
    ensures message.Some? ==>
              var a := AbortWith(status, message.value, details);
              && (a.Ok? <==> KnownStatus(status) && status != "ok")
              && (a.Ok? ==> a.value == Abort(status, message.value, if details.Some? then details.value else map[]))
  {
    StatusesKnown(status);
    hide IsStatus, KnownStatus;
  }

  // ----- bytes

  function EncodeEnvelope(lib: Lib, e: Envelope, maxBytes: nat): Result<seq<byte>> {
    match lib.dumps(JObject(ObjectOf(e)))
    case Unserializable => Err(ProtocolError("RPC envelope is not JSON serializable"))
    case WritingFails => Err(Uncaught)
    case Text(bytes) =>
      if |bytes| > maxBytes then Err(ProtocolError("RPC envelope exceeds the limit")) else Ok(bytes)
  }

  function DecodeEnvelope(lib: Lib, payload: seq<byte>, maxBytes: nat): Result<Envelope> {
    if |payload| > maxBytes then Err(ProtocolError("RPC envelope exceeds the limit"))
    else
      match lib.loads(payload)
      case Malformed => Err(ProtocolError("invalid RPC envelope JSON"))
      case ReadingFails => Err(Uncaught)
      case Parsed(v) => Decode(lib, v)
  }

  lemma EnvelopeBytesRoundTrip(lib: Lib, e: Envelope, maxBytes: nat, maxBytes': nat)
    requires Lawful(lib) && EncodeEnvelope(lib, e, maxBytes).Ok?
    requires |EncodeEnvelope(lib, e, maxBytes).value| <= maxBytes'
    ensures var r := DecodeEnvelope(lib, EncodeEnvelope(lib, e, maxBytes).value, maxBytes');
            && (r.Ok? <==> Sendable(lib, e))
            && (r.Ok? ==> r.value == Normal(e))
  {
    hide ObjectOf, Sendable, Normal, Decode;
    RoundTrip(lib, e);
  }

  /** On bytes: within the limit, readable as JSON, and acceptable; sent within the limit as the JSON text. */
  lemma BytesAcceptedExactly(lib: Lib, payload: seq<byte>, e: Envelope, maxBytes: nat)
    ensures DecodeEnvelope(lib, payload, maxBytes).Ok?
            <==> |payload| <= maxBytes && lib.loads(payload).Parsed? && Decode(lib, lib.loads(payload).value).Ok?
    ensures DecodeEnvelope(lib, payload, maxBytes).Ok? ==>
              DecodeEnvelope(lib, payload, maxBytes) == Decode(lib, lib.loads(payload).value)
    ensures forall bytes :: EncodeEnvelope(lib, e, maxBytes) == Ok(bytes)
                            <==> lib.dumps(JObject(ObjectOf(e))) == Text(bytes) && |bytes| <= maxBytes
  {
    hide Decode, ObjectOf;
  }

  // ----- errors that are not protocol errors

  /** A version 1 envelope whose kind is a list or an object. */
  predicate HasUnhashableKind(v: Json) {
    && v.JObject? && EqualsOne(Get(v.fields, "v"))
    && (Get(v.fields, "kind").JArray? || Get(v.fields, "kind").JObject?)
  }

  /** Bytes that make decode_envelope fail with something that no caller of it catches. */
  predicate Escapes(lib: Lib, payload: seq<byte>, maxBytes: nat) {
    && |payload| <= maxBytes
    && (|| lib.loads(payload) == ReadingFails
        || (lib.loads(payload).Parsed? && HasUnhashableKind(lib.loads(payload).value)))
  }

  lemma UnhashableExactly(lib: Lib, v: Json)
    ensures Decode(lib, v).Err? && !Decode(lib, v).error.ProtocolError? <==> HasUnhashableKind(v)
  {
    hide Blank, IsStatus;
  }

  /** Decoding fails with anything but a protocol error exactly when the bytes are within the limit and
      either JSON reading itself raises an error that is not caught, or the kind of a version 1 envelope
      is a list or an object. */
  lemma OtherErrorsExactly(lib: Lib, payload: seq<byte>, maxBytes: nat)
    ensures var r := DecodeEnvelope(lib, payload, maxBytes);
            r.Err? && !r.error.ProtocolError? <==> Escapes(lib, payload, maxBytes)
  {
    hide Decode, HasUnhashableKind;
    if lib.loads(payload).Parsed? { UnhashableExactly(lib, lib.loads(payload).value); }
  }

  function UnhashableKind(): Json {
    JObject(map["v" := JInt(1), "kind" := JArray([])])
  }

  /** Either happens: on the text of a version 1 object with an empty list for its kind, and on any bytes
      that JSON reading gives up on. */
  lemma OtherErrorsHappen(lib: Lib, payload: seq<byte>)
    requires Lawful(lib)
    ensures lib.dumps(UnhashableKind()).Text? ==>
              var text := lib.dumps(UnhashableKind()).bytes;
              forall maxBytes :: maxBytes >= |text| ==> DecodeEnvelope(lib, text, maxBytes) == Err(Unhashable)
    ensures lib.loads(payload) == ReadingFails ==>
              forall maxBytes :: maxBytes >= |payload| ==> DecodeEnvelope(lib, payload, maxBytes) == Err(Uncaught)
  {
    var fields := UnhashableKind().fields;
    assert Get(fields, "v") == JInt(1) && Get(fields, "kind") == JArray([]);
  }

  // ----- from a handler's abort to the caller's exception

  datatype Abort = Abort(status: string, message: string, details: map<string, Json>)

  /** RpcContext.abort. */
  function AbortWith(status: string, message: string, details: Option<map<string, Json>>): Result<Abort> {
    if !IsStatus(status) then Err(ValueError("unknown RPC status"))
    else if status == "ok" then Err(ValueError("cannot abort with status 'ok'"))
    else Ok(Abort(status, message, OrEmpty(details)))
  }

  datatype Raised = Raised(status: string, message: string, details: map<string, Json>)

  /** The RemoteRpcError that a client makes of a decoded response whose status is not `ok`. */
  function RaisedBy(e: Envelope): Raised {
    Raised(if e.status.None? || e.status.value == "" then "unknown" else e.status.value,
           if e.errorMessage.None? || e.errorMessage.value == "" then "remote RPC failed" else e.errorMessage.value,
           OrEmpty(e.errorDetails))
  }

  /** A handler's abort reaches the caller with its status and details; its message arrives exactly when
      it is not empty, for the client replaces an empty one (the replacement itself comes through). */
  lemma AbortReachesCaller(lib: Lib, id: string, status: string, message: string, details: Option<map<string, Json>>)
    requires lib.isUuid(id) && AbortWith(status, message, details).Ok?
    ensures var a := AbortWith(status, message, details).value;
            var sent := ResponseEnvelope(id, a.status, Some(a.message), Some(a.details));
            && sent.Ok?
            && var got := Decode(lib, JObject(ObjectOf(sent.value)));
               && got.Ok? && got.value.status == Some(status) && status != "ok"
               && RaisedBy(got.value).status == status
               && RaisedBy(got.value).details == OrEmpty(details)
               && (RaisedBy(got.value).message == message <==> message != "")
  {
    var a := AbortWith(status, message, details).value;
    var sent := ResponseEnvelope(id, a.status, Some(a.message), Some(a.details)).value;
    assert status != "";
    hide Blank, ObjectOf, Decode, IsStatus;
    RoundTrip(lib, sent);
  }
}

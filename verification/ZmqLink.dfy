/** One ZeroMQ client and the server it talks to: two first-in first-out queues, calls that may give up
    and leave their reply queued, and the client loop that discards such late replies by request ID.
    Either end may be unable to decode what the other sends, for each has an envelope limit of its own. */
module ZmqLink {
  import opened Wrappers
  import P = Protocol

  type Bytes = seq<P.byte>

  type Details = map<string, P.Json>

  datatype Status = InvalidArgument | Unimplemented | DeadlineExceeded | ResourceExhausted | Internal | Aborted(name: string)

  datatype Request = Request(id: string, target: string, payload: Bytes, deadline: Option<int>, metadata: map<string, string>)

  datatype Reply = Ok(id: string, payload: Bytes) | Error(id: string, status: Status, message: string, details: Details)

  /** What the server makes of one message: too few or too many frames, an envelope that is not accepted,
      one whose decoding fails with an error nobody catches, a response, or a request. */
  datatype Inbound = WrongFrames | Undecodable | Uncaught | NotARequest(id: string) | Call(request: Request)

  /** What the registered handler does with a decoded request; `Unencodable` also covers a returned
      value that is no valid response model. */
  datatype Handled =
    | Returned(payload: Bytes)
    | Aborts(status: string, message: string, details: Details)
    | Raises(text: string)
    | Unencodable(text: string)

  /** Everything the server's treatment of one message depends on besides the message. Handlers may be
      stateful: each message meets an environment of its own. */
  datatype Env = Env(
    accepts: Request -> bool,   // the server accepts the request's envelope
    methods: set<string>,
    now: int,
    maxMessage: nat,
    flaw: Bytes -> Option<string>,   // what is wrong with a payload, if it cannot be decoded
    handler: Request -> Handled,
    sendable: Reply -> bool,    // the reply's envelope can be built and encoded within the server's limit
    lost: bool,                 // the router drops the reply, its peer being gone
    limitText: string,          // the limit on payloads, as the error texts print it
    retryText: string           // how a failure to report an oversized response is reported
  )

  /** `ran`: the handler was run; `raised`: serve_once was left by an exception. */
  datatype Reaction = Reaction(ran: bool, reply: Option<Reply>, raised: bool)

  function Failure(id: string, status: Status, message: string): Reply {
    Error(id, status, message, map[])
  }

  function Send(env: Env, reply: Reply, ran: bool): Reaction {
    if env.sendable(reply) then Reaction(ran, Some(reply), false) else Reaction(ran, None, true)
  }

  /** The checks a request passes before its handler is run, in the order the server makes them. */
  function Rejection(req: Request, env: Env): Option<Reply> {
    if req.target !in env.methods then
      Some(Failure(req.id, Unimplemented, "unknown RPC method: " + req.target))
    else if req.deadline.Some? && env.now >= req.deadline.value then
      Some(Failure(req.id, DeadlineExceeded, "RPC deadline expired before dispatch"))
    else if |req.payload| > env.maxMessage then
      Some(Failure(req.id, ResourceExhausted, "request payload exceeds the " + env.limitText + "-byte limit"))
    else if env.flaw(req.payload).Some? then
      Some(Failure(req.id, InvalidArgument, "invalid request payload: " + env.flaw(req.payload).value))
    else
      None
  }

  /** The reply that the server tries last once the handler is through. */
  function Conclusion(req: Request, env: Env, handled: Handled): Reply {
    match handled
    case Returned(payload) =>
      var tooLarge := Failure(req.id, ResourceExhausted, "response payload exceeds the " + env.limitText + "-byte limit");
      if |payload| <= env.maxMessage then Ok(req.id, payload)
      else if env.sendable(tooLarge) then tooLarge
      else Failure(req.id, Internal, env.retryText)
    case Aborts(status, text, details) => Error(req.id, Aborted(status), text, details)
    case Raises(text) => Failure(req.id, Internal, text)
    case Unencodable(text) => Failure(req.id, Internal, text)
  }

  function React(msg: Inbound, env: Env): Reaction {
    match msg
    case WrongFrames => Reaction(false, None, false)
    case Undecodable => Reaction(false, None, false)
    case Uncaught => Reaction(false, None, true)
    case NotARequest(id) => Send(env, Failure(id, InvalidArgument, "server expected an RPC request envelope"), false)
    case Call(req) =>
      var rejection := Rejection(req, env);
      if rejection.Some? then Send(env, rejection.value, false)
      else Send(env, Conclusion(req, env, env.handler(req)), true)
  }

  /** What the server makes of a request that a client sent. */
  function Seen(req: Request, env: Env): Inbound {
    if env.accepts(req) then Call(req) else Undecodable
  }

  lemma RejectionKeepsId(req: Request, env: Env)
    ensures Rejection(req, env).Some? ==> Rejection(req, env).value.Error? && Rejection(req, env).value.id == req.id
    ensures Rejection(req, env) == None
            <==> req.target in env.methods && (req.deadline.Some? ==> env.now < req.deadline.value)
                 && |req.payload| <= env.maxMessage && env.flaw(req.payload).None?
  {
  }

  lemma ConclusionKeepsId(req: Request, env: Env, handled: Handled)
    ensures var reply := Conclusion(req, env, handled);
            reply.id == req.id && (reply.Ok? ==> handled == Returned(reply.payload))
  {
  }

  /** A reply carries the ID of the request it answers; a successful one is what the handler returned
      for that request. The handler is run exactly for a request that the server can read, of a known
      method, before the deadline, with a decodable payload within the limit. What the server cannot read
      it drops; anything else it either replies to or raises on, never both. */
  lemma ReplyAnswersItsRequest(req: Request, env: Env)
    ensures var r := React(Seen(req, env), env);
            && (r.ran <==> env.accepts(req) && req.target in env.methods
                           && (req.deadline.Some? ==> env.now < req.deadline.value)
                           && |req.payload| <= env.maxMessage && env.flaw(req.payload).None?)
            && (r.reply.Some? ==> !r.raised && env.accepts(req))
            && (r.reply == None && !r.raised <==> !env.accepts(req))
            && (r.reply.Some? ==> r.reply.value.id == req.id)
            && (r.reply.Some? && r.reply.value.Ok? ==> r.ran && env.handler(req) == Returned(r.reply.value.payload))
  {
    hide Rejection, Conclusion;
    RejectionKeepsId(req, env);
    ConclusionKeepsId(req, env, env.handler(req));
  }

  // ----- the bytes behind it

  /** What serve_once reads off the frames it receives: peer, envelope, payload. */
  function Receive(lib: P.Lib, frames: seq<Bytes>, maxEnvelope: nat): Inbound {
    if |frames| != 3 then WrongFrames
    else
      match P.DecodeEnvelope(lib, frames[1], maxEnvelope)
      case Err(error) => if error.ProtocolError? then Undecodable else Uncaught
      case Ok(e) =>
        if e.kind == P.Response then NotARequest(e.requestId)
        else
          Call(Request(e.requestId, if e.target.None? then "" else e.target.value, frames[2], e.deadline, P.OrEmpty(e.metadata)))
  }

  function SentEnvelope(req: Request): P.Envelope {
    P.RequestEnvelope(req.id, req.target, req.deadline, Some(req.metadata))
  }

  function StatusText(s: Status): string {
    match s
    case InvalidArgument => "invalid_argument"
    case Unimplemented => "unimplemented"
    case DeadlineExceeded => "deadline_exceeded"
    case ResourceExhausted => "resource_exhausted"
    case Internal => "internal"
    case Aborted(name) => name
  }

  function ReplyEnvelope(reply: Reply): P.Result<P.Envelope> {
    match reply
    case Ok(id, _) => P.ResponseEnvelope(id, "ok", None, None)
    case Error(id, status, message, details) => P.ResponseEnvelope(id, StatusText(status), Some(message), Some(details))
  }

  /** A request on the wire is what the server sees of it, and it can read it exactly if the envelope is
      within its own limit. */
  lemma RequestOnTheWire(lib: P.Lib, peer: Bytes, req: Request, maxClient: nat, maxServer: nat)
    requires P.Lawful(lib) && lib.isUuid(req.id) && !P.Blank(lib, req.target)
    requires P.EncodeEnvelope(lib, SentEnvelope(req), maxClient).Ok?
    ensures var encoded := P.EncodeEnvelope(lib, SentEnvelope(req), maxClient).value;
            Receive(lib, [peer, encoded, req.payload], maxServer) == if |encoded| <= maxServer then Call(req) else Undecodable
  {
    var encoded := P.EncodeEnvelope(lib, SentEnvelope(req), maxClient).value;
    P.ConstructedIsSendable(lib, req.id, req.target, req.deadline, Some(req.metadata), "ok", None, None);
    hide P.EncodeEnvelope, P.Decode, P.Sendable, P.Normal;
    if |encoded| <= maxServer {
      P.EnvelopeBytesRoundTrip(lib, SentEnvelope(req), maxClient, maxServer);
    }
  }

  /** A reply on the wire: the client can read it exactly if its envelope is within the client's limit, and
      then finds the ID, the status and the error that were sent. */
  lemma ReplyOnTheWire(lib: P.Lib, reply: Reply, maxServer: nat, maxClient: nat)
    requires P.Lawful(lib) && lib.isUuid(reply.id) && ReplyEnvelope(reply).Ok?
    requires P.EncodeEnvelope(lib, ReplyEnvelope(reply).value, maxServer).Ok?
    ensures var encoded := P.EncodeEnvelope(lib, ReplyEnvelope(reply).value, maxServer).value;
            var r := P.DecodeEnvelope(lib, encoded, maxClient);
            && (r.Ok? <==> |encoded| <= maxClient)
            && (r.Err? ==> r.error.ProtocolError?)
            && (r.Ok? ==> && r.value.kind == P.Response && r.value.requestId == reply.id
                          && (reply.Ok? <==> r.value.status == Some("ok"))
                          && (reply.Error? ==> && r.value.status == Some(StatusText(reply.status))
                                               && r.value.errorMessage == Some(reply.message)
                                               && r.value.errorDetails == Some(reply.details)))
  {
    var e := ReplyEnvelope(reply).value;
    var encoded := P.EncodeEnvelope(lib, e, maxServer).value;
    assert P.Sendable(lib, e) && e.kind == P.Response;
    hide P.EncodeEnvelope, P.Decode, P.Sendable, P.IsStatus;
    if |encoded| <= maxClient {
      P.EnvelopeBytesRoundTrip(lib, e, maxServer, maxClient);
    }
  }

  // ----- what the two limits allow

  function EncodedReply(lib: P.Lib, reply: Reply, maxServer: nat): P.Result<Bytes> {
    match ReplyEnvelope(reply)
    case Err(error) => P.Err(error)
    case Ok(e) => P.EncodeEnvelope(lib, e, maxServer)
  }

  predicate Sendable(lib: P.Lib, maxServer: nat, reply: Reply) {
    EncodedReply(lib, reply, maxServer).Ok?
  }

  predicate Readable(lib: P.Lib, maxServer: nat, maxClient: nat, reply: Reply) {
    && Sendable(lib, maxServer, reply)
    && P.DecodeEnvelope(lib, EncodedReply(lib, reply, maxServer).value, maxClient).Ok?
  }

  /** What a client with this limit sends: an ID of its own making, a method that is not blank. */
  predicate Sends(lib: P.Lib, maxClient: nat, req: Request) {
    lib.isUuid(req.id) && !P.Blank(lib, req.target) && P.EncodeEnvelope(lib, SentEnvelope(req), maxClient).Ok?
  }

  predicate Fits(lib: P.Lib, maxClient: nat, maxServer: nat, req: Request)
    requires Sends(lib, maxClient, req)
  {
    |P.EncodeEnvelope(lib, SentEnvelope(req), maxClient).value| <= maxServer
  }

  /** The environment is that of a server with this limit. */
  ghost predicate Encodes(env: Env, lib: P.Lib, maxServer: nat) {
    forall reply :: env.sendable(reply) <==> Sendable(lib, maxServer, reply)
  }

  ghost predicate Serving(lib: P.Lib, maxClient: nat, maxServer: nat, env: Env) {
    && Encodes(env, lib, maxServer)
    && forall req :: Sends(lib, maxClient, req) ==> (env.accepts(req) <==> Fits(lib, maxClient, maxServer, req))
  }

  /** A reply that can be sent is readable exactly if its envelope is within the client's limit. */
  lemma ReadableWithinLimit(lib: P.Lib, maxServer: nat, maxClient: nat, reply: Reply)
    requires P.Lawful(lib) && lib.isUuid(reply.id) && Sendable(lib, maxServer, reply)
    ensures |EncodedReply(lib, reply, maxServer).value| <= maxServer
    ensures Readable(lib, maxServer, maxClient, reply) <==> |EncodedReply(lib, reply, maxServer).value| <= maxClient
  {
    EncodedWithinLimit(lib, ReplyEnvelope(reply).value, maxServer);
    hide P.EncodeEnvelope, P.DecodeEnvelope, ReplyEnvelope;
    ReplyOnTheWire(lib, reply, maxServer, maxClient);
  }

  lemma EncodedWithinLimit(lib: P.Lib, e: P.Envelope, maxBytes: nat)
    ensures P.EncodeEnvelope(lib, e, maxBytes).Ok? ==> |P.EncodeEnvelope(lib, e, maxBytes).value| <= maxBytes
  {
    hide P.ObjectOf;
  }

  /** The reply that the treatment of a message ends with, if it comes to one. */
  function Attempt(msg: Inbound, env: Env): Option<Reply> {
    match msg
    case NotARequest(id) => Some(Failure(id, InvalidArgument, "server expected an RPC request envelope"))
    case Call(req) =>
      if Rejection(req, env).Some? then Rejection(req, env) else Some(Conclusion(req, env, env.handler(req)))
    case _ => None
  }

  /** The reply goes out as a response with this status and this error, and nothing else. */
  predicate GoesOutAs(reply: Reply, id: string, status: string, message: string, details: Details) {
    && reply.Error?
    && ReplyEnvelope(reply) == P.Ok(P.Envelope(P.Response, id, None, None, None, Some(status), Some(message), Some(details)))
  }

  /** What a request is told, by status and text on the wire: each check that refuses it, in their order,
      and then what became of the handler. */
  lemma RepliesOnTheWire(req: Request, env: Env)
    ensures var attempt := Attempt(Call(req), env);
            attempt.Some? &&
            var reply := attempt.value;
            if req.target !in env.methods then
              GoesOutAs(reply, req.id, "unimplemented", "unknown RPC method: " + req.target, map[])
            else if req.deadline.Some? && req.deadline.value <= env.now then
              GoesOutAs(reply, req.id, "deadline_exceeded", "RPC deadline expired before dispatch", map[])
            else if |req.payload| > env.maxMessage then
              GoesOutAs(reply, req.id, "resource_exhausted", "request payload exceeds the " + env.limitText + "-byte limit", map[])
            else
              match env.flaw(req.payload)
              case Some(flaw) => GoesOutAs(reply, req.id, "invalid_argument", "invalid request payload: " + flaw, map[])
              case None =>
                match env.handler(req)
                case Raises(text) => GoesOutAs(reply, req.id, "internal", text, map[])
                case Unencodable(text) => GoesOutAs(reply, req.id, "internal", text, map[])
                case Aborts(status, text, details) =>
                  P.KnownStatus(status) && status != "ok" ==> GoesOutAs(reply, req.id, status, text, details)
                case Returned(payload) =>
                  if |payload| <= env.maxMessage then
                    && reply == Ok(req.id, payload)
                    && ReplyEnvelope(reply) == P.Ok(P.Envelope(P.Response, req.id, None, None, None, Some("ok"), None, None))
                  else
                    var report := Error(req.id, ResourceExhausted, "response payload exceeds the " + env.limitText + "-byte limit", map[]);
                    if env.sendable(report) then reply == report && GoesOutAs(reply, req.id, "resource_exhausted", report.message, map[])
                    else GoesOutAs(reply, req.id, "internal", env.retryText, map[])
    ensures React(Call(req), env).reply.Some? ==> React(Call(req), env).reply == Attempt(Call(req), env)
  {
    StatusesGoOut(req.id);
    match env.handler(req) {
      case Aborts(status, text, details) => P.BuiltExactly(req.id, status, Some(text), Some(details));
      case _ =>
    }
    hide P.ResponseEnvelope, P.KnownStatus;
  }

  /** Every status of the server's own is one that a response can be built with. */
  lemma StatusesGoOut(id: string)
    ensures P.ResponseEnvelope(id, "ok", None, None) == P.Ok(P.Envelope(P.Response, id, None, None, None, Some("ok"), None, None))
    ensures forall s: Status, message, details :: !s.Aborted? ==>
              P.ResponseEnvelope(id, StatusText(s), Some(message), Some(details))
              == P.Ok(P.Envelope(P.Response, id, None, None, None, Some(StatusText(s)), Some(message), Some(details)))
  {
    P.BuiltExactly(id, "ok", None, None);
    forall s: Status, message, details: Details | !s.Aborted?
      ensures P.ResponseEnvelope(id, StatusText(s), Some(message), Some(details))
              == P.Ok(P.Envelope(P.Response, id, None, None, None, Some(StatusText(s)), Some(message), Some(details)))
    {
      assert StatusText(s)[0] != "ok"[0];
      P.BuiltExactly(id, StatusText(s), Some(message), Some(details));
    }
  }

  /** A response sent to a server is refused as such. */
  lemma ResponsesRefused(id: string, env: Env)
    ensures Attempt(NotARequest(id), env).Some?
    ensures GoesOutAs(Attempt(NotARequest(id), env).value, id, "invalid_argument", "server expected an RPC request envelope", map[])
    ensures React(NotARequest(id), env).reply.Some? ==> React(NotARequest(id), env).reply == Attempt(NotARequest(id), env)
  {
    StatusesGoOut(id);
  }

  /** What stops serve_forever: a server with this limit raises exactly on a message of three frames whose
      envelope makes decoding fail with something else than a protocol error, and on one whose reply has
      no envelope within the limit. */
  lemma ServeRaisesExactly(lib: P.Lib, frames: seq<Bytes>, maxServer: nat, env: Env)
    requires Encodes(env, lib, maxServer)
    ensures var msg := Receive(lib, frames, maxServer);
            React(msg, env).raised
            <==> || (|frames| == 3 && P.Escapes(lib, frames[1], maxServer))
                 || (Attempt(msg, env).Some? && EncodedReply(lib, Attempt(msg, env).value, maxServer).Err?)
  {
    hide Rejection, Conclusion, P.DecodeEnvelope, P.Escapes, EncodedReply;
    if |frames| == 3 { P.OtherErrorsExactly(lib, frames[1], maxServer); }
  }

  function UnknownMethod(req: Request): Reply {
    Failure(req.id, Unimplemented, "unknown RPC method: " + req.target)
  }

  /** A well-formed request within every limit may be such a message: the refusal of an unknown method
      repeats its name, and the server is stopped exactly if the refusal does not fit. */
  lemma UnknownMethodStopsServer(lib: P.Lib, peer: Bytes, req: Request, maxClient: nat, maxServer: nat, env: Env)
    requires P.Lawful(lib) && Encodes(env, lib, maxServer)
    requires Sends(lib, maxClient, req) && Fits(lib, maxClient, maxServer, req)
    requires req.target !in env.methods
    ensures var encoded := P.EncodeEnvelope(lib, SentEnvelope(req), maxClient).value;
            React(Receive(lib, [peer, encoded, req.payload], maxServer), env).raised
            <==> EncodedReply(lib, UnknownMethod(req), maxServer).Err?
  {
    RequestOnTheWire(lib, peer, req, maxClient, maxServer);
    assert Rejection(req, env) == Some(UnknownMethod(req));
    hide Receive, P.EncodeEnvelope, EncodedReply, Rejection;
  }

  /** The other refusals, aborts and results stop it in the same way: the handler's abort, for one, exactly
      if its status is unknown or its envelope does not fit. */
  lemma AbortStopsServer(lib: P.Lib, req: Request, maxServer: nat, env: Env, status: string, message: string, details: Details)
    requires Encodes(env, lib, maxServer) && env.accepts(req) && Rejection(req, env) == None
    requires env.handler(req) == Aborts(status, message, details)
    ensures var envelope := P.ResponseEnvelope(req.id, status, Some(message), Some(details));
            React(Seen(req, env), env).raised <==> envelope.Err? || P.EncodeEnvelope(lib, envelope.value, maxServer).Err?
  {
    hide Rejection, P.EncodeEnvelope, P.ResponseEnvelope;
    assert Conclusion(req, env, env.handler(req)) == Error(req.id, Aborted(status), message, details);
  }

  // ----- the history of a link

  /** What has happened on the link: every request sent, the environment each served one met, the
      positions in `sent` that the queued replies answer, how far into `sent` the client's consumption of
      replies has come, and the positions whose call received its own reply. */
  datatype Trace = Trace(sent: seq<Request>, envs: seq<Env>, queued: seq<nat>, consumed: nat, answered: set<nat>)

  ghost predicate DistinctIds(sent: seq<Request>) {
    forall i, j :: 0 <= i < j < |sent| ==> sent[i].id != sent[j].id
  }

  function ReactionAt(t: Trace, k: nat): Reaction
    requires k < |t.sent| && k < |t.envs|
  {
    React(Seen(t.sent[k], t.envs[k]), t.envs[k])
  }

  ghost predicate InboxExplained(t: Trace, inbox: seq<Request>) {
    |t.envs| <= |t.sent| && inbox == t.sent[|t.envs|..]
  }

  predicate Answers(t: Trace, k: nat, reply: Reply) {
    t.consumed <= k < |t.envs| <= |t.sent| && ReactionAt(t, k).reply == Some(reply)
  }

  ghost predicate Increasing(s: seq<nat>) {
    forall i, j :: 0 <= i < j < |s| ==> s[i] < s[j]
  }

  ghost predicate OutboxExplained(t: Trace, outbox: seq<Reply>) {
    && |t.queued| == |outbox|
    && (forall i :: 0 <= i < |outbox| ==> Answers(t, t.queued[i], outbox[i]))
    && Increasing(t.queued)
  }

  ghost predicate Explains(t: Trace, inbox: seq<Request>, outbox: seq<Reply>) {
    && DistinctIds(t.sent)
    && InboxExplained(t, inbox)
    && OutboxExplained(t, outbox)
    && t.consumed <= |t.envs|
    && (forall k :: k in t.answered ==> k < t.consumed)
  }

  // ----- the three events on a link, on its trace

  function Sent(t: Trace, req: Request): Trace {
    t.(sent := t.sent + [req])
  }

  function Served(t: Trace, env: Env, queues: bool): Trace {
    t.(envs := t.envs + [env], queued := if queues then t.queued + [|t.envs|] else t.queued)
  }

  function Received(t: Trace): Trace
    requires t.queued != []
  {
    t.(queued := t.queued[1..], consumed := t.queued[0] + 1)
  }

  lemma SentIsExplained(t: Trace, inbox: seq<Request>, outbox: seq<Reply>, req: Request)
    requires Explains(t, inbox, outbox)
    requires forall i :: 0 <= i < |t.sent| ==> t.sent[i].id != req.id
    ensures Explains(Sent(t, req), inbox + [req], outbox)
  {
    hide React, Increasing;
    var t' := Sent(t, req);
    assert t'.sent[|t.envs|..] == t.sent[|t.envs|..] + [req];
    forall i | 0 <= i < |outbox| ensures Answers(t', t'.queued[i], outbox[i]) {
      assert Answers(t, t.queued[i], outbox[i]);
    }
  }

  lemma AnswersStay(t: Trace, env: Env, queues: bool, k: nat, reply: Reply)
    requires |t.envs| < |t.sent|
    ensures Answers(t, k, reply) ==> Answers(Served(t, env, queues), k, reply)
    ensures t.consumed <= |t.envs| && React(Seen(t.sent[|t.envs|], env), env).reply == Some(reply) ==>
              Answers(Served(t, env, queues), |t.envs|, reply)
  {
    hide React, Seen;
  }

  lemma IncreasingAppends(s: seq<nat>, k: nat)
    requires Increasing(s) && forall i :: 0 <= i < |s| ==> s[i] < k
    ensures Increasing(s + [k])
  {
  }

  lemma ServedOutbox(t: Trace, outbox: seq<Reply>, env: Env, reply: Option<Reply>)
    requires OutboxExplained(t, outbox) && t.consumed <= |t.envs| < |t.sent|
    requires reply.Some? ==> React(Seen(t.sent[|t.envs|], env), env).reply == reply
    ensures OutboxExplained(Served(t, env, reply.Some?), if reply.Some? then outbox + [reply.value] else outbox)
  {
    var t' := Served(t, env, reply.Some?);
    var outbox' := if reply.Some? then outbox + [reply.value] else outbox;
    forall i | 0 <= i < |outbox| ensures t.queued[i] < |t.envs| {
      assert Answers(t, t.queued[i], outbox[i]);
    }
    if reply.Some? { IncreasingAppends(t.queued, |t.envs|); }
    hide Increasing, React, Seen, Answers;
    forall i | 0 <= i < |outbox'| ensures Answers(t', t'.queued[i], outbox'[i]) {
      AnswersStay(t, env, reply.Some?, if i < |outbox| then t.queued[i] else 0, outbox'[i]);
    }
  }

  lemma ServedIsExplained(t: Trace, inbox: seq<Request>, outbox: seq<Reply>, env: Env)
    requires Explains(t, inbox, outbox) && inbox != []
    ensures var r := React(Seen(inbox[0], env), env);
            var queues := r.reply.Some? && !env.lost;
            Explains(Served(t, env, queues), inbox[1..], if queues then outbox + [r.reply.value] else outbox)
  {
    hide React, OutboxExplained;
    assert |t.envs| < |t.sent| && inbox[0] == t.sent[|t.envs|];
    assert inbox[1..] == t.sent[|t.envs| + 1..];
    var r := React(Seen(inbox[0], env), env);
    ServedOutbox(t, outbox, env, if env.lost then None else r.reply);
  }

  lemma ReceivedIsExplained(t: Trace, inbox: seq<Request>, outbox: seq<Reply>)
    requires Explains(t, inbox, outbox) && outbox != []
    ensures t.queued != [] && Explains(Received(t), inbox, outbox[1..])
  {
    hide React, Seen;
    assert Answers(t, t.queued[0], outbox[0]);
    var t' := Received(t);
    forall i | 0 <= i < |outbox| - 1 ensures Answers(t', t'.queued[i], outbox[1..][i]) {
      assert Answers(t, t.queued[i + 1], outbox[i + 1]) && t.queued[0] < t.queued[i + 1];
    }
  }

  // ----- what the trace says

  /** Every queued reply answers a request that was sent and served, and no two carry the same ID. */
  lemma QueuedRepliesAreCorrelated(t: Trace, inbox: seq<Request>, outbox: seq<Reply>)
    requires Explains(t, inbox, outbox)
    ensures forall i :: 0 <= i < |outbox| ==> t.queued[i] < |t.sent| && outbox[i].id == t.sent[t.queued[i]].id
    ensures forall i, j :: 0 <= i < j < |outbox| ==> outbox[i].id != outbox[j].id
  {
    hide React;
    forall i | 0 <= i < |outbox| ensures Answers(t, t.queued[i], outbox[i]) && outbox[i].id == t.sent[t.queued[i]].id {
      ReplyAnswersItsRequest(t.sent[t.queued[i]], t.envs[t.queued[i]]);
    }
  }

  /** How often the handler has been run for the request with a given ID. */
  function Runs(t: Trace, id: string, upTo: nat): nat
    requires upTo <= |t.envs| <= |t.sent|
    decreases upTo
  {
    if upTo == 0 then 0
    else Runs(t, id, upTo - 1) + (if t.sent[upTo - 1].id == id && ReactionAt(t, upTo - 1).ran then 1 else 0)
  }

  /** At most once: the handler runs for one request at most one time, and only if that was sent. */
  lemma {:induction false} HandlerRunsAtMostOnce(t: Trace, inbox: seq<Request>, outbox: seq<Reply>, id: string, upTo: nat)
    requires Explains(t, inbox, outbox) && upTo <= |t.envs|
    ensures Runs(t, id, upTo) <= 1
    ensures Runs(t, id, upTo) == 1 ==> exists k :: 0 <= k < upTo && t.sent[k].id == id
    decreases upTo
  {
    if upTo > 0 {
      hide React, OutboxExplained;
      HandlerRunsAtMostOnce(t, inbox, outbox, id, upTo - 1);
      if t.sent[upTo - 1].id == id {
        assert forall k :: 0 <= k < upTo - 1 ==> t.sent[k].id != id;
      }
    }
  }

  // ----- what a call comes to

  /** The text a caller is shown for a remote error. */
  function Shown(message: string): string {
    if message == "" then "remote RPC failed" else message
  }

  datatype CallOutcome =
    | Value(payload: Bytes)
    | Remote(status: Status, message: string, details: Details)
    | TimedOut
    | TransportFailed
    | BadPayload             // a protocol error: the response payload is empty, over the limit or undecodable
    | Unreadable(reply: Reply)// a protocol error: the envelope of the reply read is not accepted
    | Waiting                // no deadline, and no reply yet

  /** How a socket operation may go: through, with zmq.Again, or with another ZMQError. */
  datatype SocketResult = Through | TriesAgain | Breaks

  /** What a call meets besides its replies: `expired(i)` and `receive(i)` in its i-th round, `polled(i)`
      the environments of the messages the server treats while the i-th poll waits, and the codec;
      `readable` says which replies' envelopes the client accepts, within its own limit. */
  datatype CallEnv = CallEnv(
    send: SocketResult,
    hasDeadline: bool,
    expired: nat -> bool,
    receive: nat -> SocketResult,
    polled: nat -> seq<Env>,
    readable: Reply -> bool,
    maxMessage: nat,
    decodes: Bytes -> bool
  )

  datatype Queues = Queues(inbox: seq<Request>, outbox: seq<Reply>)

  function ServeNext(q: Queues, env: Env): Queues {
    if q.inbox == [] then q
    else
      var r := React(Seen(q.inbox[0], env), env);
      Queues(q.inbox[1..], if r.reply.Some? && !env.lost then q.outbox + [r.reply.value] else q.outbox)
  }

  /** The server works until a reply is queued, or for as long as the poll lasts. */
  function ServeUntilReply(q: Queues, envs: seq<Env>): Queues
    decreases |envs|
  {
    if q.outbox != [] || envs == [] then q else ServeUntilReply(ServeNext(q, envs[0]), envs[1..])
  }

  /** What the caller is given for the reply with its own ID. */
  function Verdict(reply: Reply, env: CallEnv): CallOutcome {
    match reply
    case Error(_, status, message, details) => Remote(status, Shown(message), details)
    case Ok(_, payload) =>
      if 0 < |payload| <= env.maxMessage && env.decodes(payload) then Value(payload) else BadPayload
  }

  /** One round: the reply it reads, or how it ends the call without one. */
  datatype Round = Reads(reply: Reply, rest: Queues) | Ends(outcome: CallOutcome, rest: Queues)

  function OneRound(q: Queues, env: CallEnv, i: nat): Round {
    if env.hasDeadline && env.expired(i) then Ends(TimedOut, q)
    else
      var q' := ServeUntilReply(q, env.polled(i));
      if q'.outbox == [] then Ends(if env.hasDeadline then TimedOut else Waiting, q')
      else
        match env.receive(i)
        case TriesAgain => Ends(TimedOut, q')
        case Breaks => Ends(TransportFailed, q')
        case Through => Reads(q'.outbox[0], Queues(q'.inbox, q'.outbox[1..]))
  }

  lemma {:induction false} ServingKeepsCount(q: Queues, envs: seq<Env>)
    ensures var q' := ServeUntilReply(q, envs);
            |q'.inbox| + |q'.outbox| <= |q.inbox| + |q.outbox|
    decreases |envs|
  {
    hide React;
    if q.outbox == [] && envs != [] { ServingKeepsCount(ServeNext(q, envs[0]), envs[1..]); }
  }

  /** What a call for `req` comes to from its i-th round on, and the queues it leaves. */
  function Play(q: Queues, req: Request, env: CallEnv, i: nat): (CallOutcome, Queues)
    decreases |q.inbox| + |q.outbox|
  {
    ServingKeepsCount(q, env.polled(i));
    match OneRound(q, env, i)
    case Ends(outcome, rest) => (outcome, rest)
    case Reads(reply, rest) =>
      if !env.readable(reply) then (Unreadable(reply), rest)
      else if reply.id != req.id then Play(rest, req, env, i + 1)
      else (Verdict(reply, env), rest)
  }

  // ----- how a call ends, told by the rounds it goes through

  /** Round n reads a reply in time and throws it away, for it can be read and is another call's. */
  predicate Discards(q: Queues, q': Queues, req: Request, env: CallEnv, n: nat) {
    && !(env.hasDeadline && env.expired(n))
    && env.receive(n) == Through
    && var p := ServeUntilReply(q, env.polled(n));
       && p.outbox != [] && env.readable(p.outbox[0]) && p.outbox[0].id != req.id
       && q' == Queues(p.inbox, p.outbox[1..])
  }

  ghost predicate Discarding(qs: seq<Queues>, req: Request, env: CallEnv, i: nat) {
    qs != [] && forall j :: 0 <= j < |qs| - 1 ==> Discards(qs[j], qs[j + 1], req, env, i + j)
  }

  /** Round n ends the call in this way: out of time before the poll, in it or on receiving; without a
      deadline waiting for a reply; on a broken socket; or on the reply it reads in time. */
  predicate EndsSo(q: Queues, req: Request, env: CallEnv, n: nat, outcome: CallOutcome) {
    var p := ServeUntilReply(q, env.polled(n));
    var late := env.hasDeadline && env.expired(n);
    var arrived := !late && p.outbox != [] && env.receive(n) == Through;
    match outcome
    case TimedOut => late || (env.hasDeadline && p.outbox == []) || (p.outbox != [] && env.receive(n) == TriesAgain)
    case Waiting => !env.hasDeadline && p.outbox == []
    case TransportFailed => !late && p.outbox != [] && env.receive(n) == Breaks
    case Unreadable(reply) => arrived && p.outbox[0] == reply && !env.readable(reply)
    case Value(payload) =>
      && arrived && p.outbox[0] == Ok(req.id, payload) && env.readable(p.outbox[0])
      && 0 < |payload| <= env.maxMessage && env.decodes(payload)
    case BadPayload =>
      && arrived && p.outbox[0].Ok? && p.outbox[0].id == req.id && env.readable(p.outbox[0])
      && var payload := p.outbox[0].payload;
         |payload| == 0 || |payload| > env.maxMessage || !env.decodes(payload)
    case Remote(status, message, details) =>
      && arrived && p.outbox[0].Error? && p.outbox[0].id == req.id && env.readable(p.outbox[0])
      && status == p.outbox[0].status && details == p.outbox[0].details
      && message == if p.outbox[0].message == "" then "remote RPC failed" else p.outbox[0].message
  }

  lemma {:induction false} DiscardingPlays(qs: seq<Queues>, req: Request, env: CallEnv, i: nat)
    requires Discarding(qs, req, env, i)
    ensures Play(qs[0], req, env, i) == Play(qs[|qs| - 1], req, env, i + |qs| - 1)
    decreases |qs|
  {
    hide ServeUntilReply, Verdict, Play;
    if |qs| > 1 {
      assert Discards(qs[0], qs[1], req, env, i + 0);
      PlayUnfolds(qs[0], req, env, i);
      hide Discards, OneRound;
      var rest := qs[1..];
      forall j | 0 <= j < |rest| - 1 ensures Discards(rest[j], rest[j + 1], req, env, (i + 1) + j) {
        assert Discards(qs[j + 1], qs[j + 2], req, env, i + (j + 1));
      }
      DiscardingPlays(rest, req, env, i + 1);
    }
  }

  lemma EndsAsPlayed(q: Queues, req: Request, env: CallEnv, n: nat, outcome: CallOutcome)
    ensures EndsSo(q, req, env, n, outcome) ==> Play(q, req, env, n).0 == outcome
    ensures (OneRound(q, env, n).Reads? ==> !env.readable(OneRound(q, env, n).reply) || OneRound(q, env, n).reply.id == req.id) ==>
              EndsSo(q, req, env, n, Play(q, req, env, n).0)
  {
    hide ServeUntilReply, Play;
    PlayUnfolds(q, req, env, n);
  }

  lemma {:induction false} PlaysThrough(q: Queues, req: Request, env: CallEnv, i: nat) returns (qs: seq<Queues>)
    ensures qs != [] && Discarding(qs, req, env, i) && qs[0] == q
    ensures EndsSo(qs[|qs| - 1], req, env, i + |qs| - 1, Play(q, req, env, i).0)
    decreases |q.inbox| + |q.outbox|
  {
    ServingKeepsCount(q, env.polled(i));
    PlayUnfolds(q, req, env, i);
    EndsAsPlayed(q, req, env, i, TimedOut);
    hide ServeUntilReply, Play, EndsSo, Verdict;
    match OneRound(q, env, i) {
      case Ends(_, _) => qs := [q];
      case Reads(reply, rest) =>
        if env.readable(reply) && reply.id != req.id {
          var later := PlaysThrough(rest, req, env, i + 1);
          qs := [q] + later;
          assert Discards(q, rest, req, env, i);
          hide OneRound, Discards;
          forall j | 0 <= j < |qs| - 1 ensures Discards(qs[j], qs[j + 1], req, env, i + j) {
            if j > 0 {
              assert qs[j] == later[j - 1] && qs[j + 1] == later[j];
              assert Discards(later[j - 1], later[j], req, env, (i + 1) + (j - 1));
            }
          }
        } else {
          qs := [q];
        }
    }
  }

  /** How a call ends, exactly: it goes through rounds that discard the reply they read, and then through
      one that ends it so. In particular it times out only when it is out of time, and a readable reply
      with its own ID that it reads in time is what it returns. */
  lemma CallEndsExactly(q: Queues, req: Request, env: CallEnv, outcome: CallOutcome)
    ensures Play(q, req, env, 0).0 == outcome
            <==> exists qs :: Discarding(qs, req, env, 0) && qs[0] == q && EndsSo(qs[|qs| - 1], req, env, |qs| - 1, outcome)
  {
    hide Play, EndsSo, Discards;
    if Play(q, req, env, 0).0 == outcome {
      var qs := PlaysThrough(q, req, env, 0);
    }
    if qs :| Discarding(qs, req, env, 0) && qs[0] == q && EndsSo(qs[|qs| - 1], req, env, |qs| - 1, outcome) {
      DiscardingPlays(qs, req, env, 0);
      EndsAsPlayed(qs[|qs| - 1], req, env, |qs| - 1, outcome);
    }
  }

  /** A call on an idle link, to a server that treats its request while the first poll waits, returns what
      the handler returned, however little time is left. */
  lemma AnsweredInTime(req: Request, env: CallEnv, server: Env, payload: Bytes)
    requires !(env.hasDeadline && env.expired(0)) && env.polled(0) == [server] && env.receive(0) == Through
    requires server.accepts(req) && req.target in server.methods && (req.deadline.Some? ==> server.now < req.deadline.value)
    requires |req.payload| <= server.maxMessage && server.flaw(req.payload).None?
    requires server.handler(req) == Returned(payload) && |payload| <= server.maxMessage
    requires server.sendable(Ok(req.id, payload)) && !server.lost && env.readable(Ok(req.id, payload))
    requires 0 < |payload| <= env.maxMessage && env.decodes(payload)
    ensures Play(Queues([req], []), req, env, 0) == (Value(payload), Queues([], []))
  {
    var q := Queues([req], []);
    assert React(Seen(req, server), server) == Reaction(true, Some(Ok(req.id, payload)), false);
    hide React, Seen;
    assert ServeNext(q, server) == Queues([], [Ok(req.id, payload)]);
    assert ServeUntilReply(q, [server]) == Queues([], [Ok(req.id, payload)]);
    hide ServeUntilReply, ServeNext;
    PlayUnfolds(q, req, env, 0);
    hide Play;
    assert [Ok(req.id, payload)][1..] == [];
  }

  // ----- the replies that decide a call

  /** The n-th reply that the rounds from the i-th on would read if the client threw every reply away. */
  function ReplyAt(q: Queues, env: CallEnv, i: nat, n: nat): Option<Reply>
    decreases n
  {
    match OneRound(q, env, i)
    case Ends(_, _) => None
    case Reads(reply, rest) => if n == 0 then Some(reply) else ReplyAt(rest, env, i + 1, n - 1)
  }

  /** A reply that the client can read and that is not for this call. */
  predicate Passes(r: Option<Reply>, req: Request, env: CallEnv) {
    r.Some? && env.readable(r.value) && r.value.id != req.id
  }

  /** The n-th reply is the first one that does not pass. */
  ghost predicate Decides(q: Queues, req: Request, env: CallEnv, i: nat, n: nat) {
    && ReplyAt(q, env, i, n).Some? && !Passes(ReplyAt(q, env, i, n), req, env)
    && forall m: nat :: m < n ==> Passes(ReplyAt(q, env, i, m), req, env)
  }

  lemma DecidesShifts(q: Queues, req: Request, env: CallEnv, i: nat, n: nat)
    requires OneRound(q, env, i).Reads? && Passes(Some(OneRound(q, env, i).reply), req, env)
    ensures Decides(q, req, env, i, n + 1) <==> Decides(OneRound(q, env, i).rest, req, env, i + 1, n)
    ensures !Decides(q, req, env, i, 0)
  {
    hide OneRound, Passes;
    var rest, next := OneRound(q, env, i).rest, i + 1;
    forall m: nat ensures ReplyAt(q, env, i, m + 1) == ReplyAt(rest, env, next, m) {}
    assert ReplyAt(q, env, i, 0) == Some(OneRound(q, env, i).reply);
    if Decides(q, req, env, i, n + 1) {
      forall m: nat | m < n ensures Passes(ReplyAt(rest, env, next, m), req, env) {
        assert Passes(ReplyAt(q, env, i, m + 1), req, env);
      }
    }
    if Decides(rest, req, env, i + 1, n) {
      forall m: nat | m < n + 1 ensures Passes(ReplyAt(q, env, i, m), req, env) {
        if m > 0 { assert Passes(ReplyAt(rest, env, next, m - 1), req, env); }
      }
    }
  }

  /** The call is decided by the first reply that does not pass: with the verdict on its own reply if that
      is the one and the client can read it, as unreadable if the client cannot, whoever's reply it is; and
      it ends without any reply if every one read passes. */
  lemma {:induction false} FirstReplyDecides(q: Queues, req: Request, env: CallEnv, i: nat)
    ensures var outcome := Play(q, req, env, i).0;
            && (forall n: nat :: Decides(q, req, env, i, n) ==> outcome == Decision(ReplyAt(q, env, i, n).value, env))
            && ((forall n: nat :: !Decides(q, req, env, i, n)) ==>
                  outcome.TimedOut? || outcome.TransportFailed? || outcome.Waiting?)
    decreases |q.inbox| + |q.outbox|
  {
    ServingKeepsCount(q, env.polled(i));
    RoundEndsWithoutReply(q, env, i);
    match OneRound(q, env, i)
    case Ends(outcome, _) =>
    case Reads(reply, rest) =>
      assert |rest.inbox| + |rest.outbox| < |q.inbox| + |q.outbox|;
      hide OneRound, Verdict;
      assert ReplyAt(q, env, i, 0) == Some(reply);
      if Passes(Some(reply), req, env) {
        var next := i + 1;
        FirstReplyDecides(rest, req, env, next);
        assert Play(q, req, env, i) == Play(rest, req, env, next);
        hide Play;
        forall n: nat ensures Decides(q, req, env, i, n + 1) <==> Decides(rest, req, env, next, n) {
          DecidesShifts(q, req, env, i, n);
        }
        DecidesShifts(q, req, env, i, 0);
        forall n: nat | Decides(q, req, env, i, n)
          ensures Play(q, req, env, i).0 == Decision(ReplyAt(q, env, i, n).value, env)
        {
          assert n > 0 && Decides(rest, req, env, next, n - 1);
        }
        if forall n: nat :: !Decides(q, req, env, i, n) {
          forall n: nat ensures !Decides(rest, req, env, next, n) {
            assert !Decides(q, req, env, i, n + 1);
          }
        }
      } else {
        assert Decides(q, req, env, i, 0);
        assert !Passes(ReplyAt(q, env, i, 0), req, env);
        assert forall n: nat :: Decides(q, req, env, i, n) ==> n == 0;
      }
  }

  function Decision(reply: Reply, env: CallEnv): CallOutcome {
    if env.readable(reply) then Verdict(reply, env) else Unreadable(reply)
  }

  /** The exact condition for a call to be spoiled by a reply: within its rounds one that the client cannot
      read comes ahead of the call's own, or is it. */
  lemma SpoiledExactly(q: Queues, req: Request, env: CallEnv, bad: Reply)
    ensures Play(q, req, env, 0).0 == Unreadable(bad)
            <==> exists n: nat :: Decides(q, req, env, 0, n) && ReplyAt(q, env, 0, n) == Some(bad) && !env.readable(bad)
  {
    hide Play, ReplyAt, Decides, Verdict;
    FirstReplyDecides(q, req, env, 0);
    if n: nat :| Decides(q, req, env, 0, n) {
      DecidedReply(q, req, env, n);
    }
  }

  lemma RoundEndsWithoutReply(q: Queues, env: CallEnv, i: nat)
    ensures var r := OneRound(q, env, i);
            r.Ends? ==> r.outcome.TimedOut? || r.outcome.TransportFailed? || r.outcome.Waiting?
  {
    hide ServeUntilReply;
  }

  lemma DecidedReply(q: Queues, req: Request, env: CallEnv, n: nat)
    requires Decides(q, req, env, 0, n)
    ensures ReplyAt(q, env, 0, n).Some?
    ensures Decision(ReplyAt(q, env, 0, n).value, env).Unreadable? <==> !env.readable(ReplyAt(q, env, 0, n).value)
  {
    hide ReplyAt, Passes;
  }

  // ----- the link itself

  datatype Arrival = Over(outcome: CallOutcome) | Arrived(reply: Reply)

  class Link {
    var inbox: seq<Request>
    var outbox: seq<Reply>
    ghost var trace: Trace

    ghost predicate Valid()
      reads this
    {
      Explains(trace, inbox, outbox)
    }

    constructor ()
      ensures Valid() && trace == Trace([], [], [], 0, {})
    {
      inbox, outbox, trace := [], [], Trace([], [], [], 0, {});
    }

    /** _send: an envelope that cannot be encoded raises, one for a vanished peer is dropped. */
    method SendReply(env: Env, reply: Reply) returns (raised: bool)
      modifies this`outbox
      ensures raised == !env.sendable(reply)
      ensures outbox == if env.sendable(reply) && !env.lost then old(outbox) + [reply] else old(outbox)
    {
      raised := !env.sendable(reply);
      if !raised && !env.lost {
        outbox := outbox + [reply];
      }
    }

    /** serve_once on the head of the inbox; `ran` says whether the handler was run. */
    method ServeOnce(env: Env) returns (served: bool, ran: bool, raised: bool)
      requires Valid()
      modifies this
      ensures Valid()
      ensures served <==> old(inbox) != []
      ensures Queues(inbox, outbox) == ServeNext(old(Queues(inbox, outbox)), env)
      ensures !served ==> trace == old(trace) && !ran && !raised
      ensures served ==>
                var r := React(Seen(old(inbox)[0], env), env);
                && ran == r.ran && raised == r.raised
                && trace == Served(old(trace), env, r.reply.Some? && !env.lost)
    {
      if inbox == [] {
        return false, false, false;
      }
      hide Explains, Served, React, Seen;
      ServedIsExplained(trace, inbox, outbox, env);
      var message := Seen(inbox[0], env);
      inbox := inbox[1..];
      ran, raised := Dispatch(env, message);
      trace := Served(trace, env, React(message, env).reply.Some? && !env.lost);
      served := true;
    }

    /** The branches of serve_once, for any message. */
    method Dispatch(env: Env, message: Inbound) returns (ran: bool, raised: bool)
      modifies this`outbox
      ensures var r := React(message, env);
              && ran == r.ran && raised == r.raised
              && outbox == if r.reply.Some? && !env.lost then old(outbox) + [r.reply.value] else old(outbox)
    {
      hide Conclusion;
      ran, raised := false, false;
      match message
      case WrongFrames =>
      case Undecodable =>
      case Uncaught =>
        raised := true;
      case NotARequest(id) =>
        raised := SendReply(env, Failure(id, InvalidArgument, "server expected an RPC request envelope"));
      case Call(req) =>
        if req.target !in env.methods {
          raised := SendReply(env, Failure(req.id, Unimplemented, "unknown RPC method: " + req.target));
        } else if req.deadline.Some? && env.now >= req.deadline.value {
          raised := SendReply(env, Failure(req.id, DeadlineExceeded, "RPC deadline expired before dispatch"));
        } else if |req.payload| > env.maxMessage {
          raised := SendReply(env, Failure(req.id, ResourceExhausted, "request payload exceeds the " + env.limitText + "-byte limit"));
        } else if env.flaw(req.payload).Some? {
          raised := SendReply(env, Failure(req.id, InvalidArgument, "invalid request payload: " + env.flaw(req.payload).value));
        } else {
          ran := true;
          raised := Answer(env, req, env.handler(req));
        }
    }

    /** The part of serve_once that follows the handler's return, abort or failure. */
    method Answer(env: Env, req: Request, handled: Handled) returns (raised: bool)
      modifies this`outbox
      ensures var r := Send(env, Conclusion(req, env, handled), true);
              && raised == r.raised
              && outbox == if r.reply.Some? && !env.lost then old(outbox) + [r.reply.value] else old(outbox)
    {
      match handled
      case Returned(payload) =>
        if |payload| > env.maxMessage {
          // this send sits inside the handler's try block, so its own failure becomes an internal error
          raised := SendReply(env, Failure(req.id, ResourceExhausted, "response payload exceeds the " + env.limitText + "-byte limit"));
          if raised {
            raised := SendReply(env, Failure(req.id, Internal, env.retryText));
          }
        } else {
          raised := SendReply(env, Ok(req.id, payload));
        }
      case Aborts(status, text, details) =>
        raised := SendReply(env, Error(req.id, Aborted(status), text, details));
      case Raises(text) =>
        raised := SendReply(env, Failure(req.id, Internal, text));
      case Unencodable(text) =>
        raised := SendReply(env, Failure(req.id, Internal, text));
    }

    /** poll: the server works on until a reply is queued or the poll's time is up. */
    method Poll(envs: seq<Env>) returns (ready: bool)
      requires Valid()
      modifies this
      ensures Valid() && trace.sent == old(trace.sent) && trace.consumed == old(trace.consumed)
      ensures trace.answered == old(trace.answered)
      ensures Queues(inbox, outbox) == ServeUntilReply(old(Queues(inbox, outbox)), envs)
      ensures ready <==> outbox != []
    {
      hide Explains, ServeNext;
      var i := 0;
      assert envs[0..] == envs;
      while outbox == [] && i < |envs|
        invariant Valid() && trace.sent == old(trace.sent) && trace.consumed == old(trace.consumed)
        invariant trace.answered == old(trace.answered) && i <= |envs|
        invariant ServeUntilReply(Queues(inbox, outbox), envs[i..]) == ServeUntilReply(old(Queues(inbox, outbox)), envs)
      {
        assert envs[i..][1..] == envs[i + 1..];
        var _, _, _ := ServeOnce(envs[i]);
        i := i + 1;
      }
      ready := outbox != [];
    }

    /** recv_multipart: the oldest reply answers a served request not before those already consumed. */
    method Take() returns (reply: Reply, ghost at: nat)
      requires Valid() && outbox != []
      modifies this
      ensures Valid() && inbox == old(inbox) && outbox == old(outbox)[1..] && reply == old(outbox)[0]
      ensures trace.sent == old(trace.sent) && trace.envs == old(trace.envs) && trace.answered == old(trace.answered)
      ensures old(trace.consumed) <= at && trace.consumed == at + 1 <= |trace.envs| <= |trace.sent| && at !in trace.answered
      ensures ReactionAt(trace, at).reply == Some(reply) && reply.id == trace.sent[at].id
      ensures reply.Ok? ==>
                && ReactionAt(trace, at) == Reaction(true, Some(reply), false)
                && trace.envs[at].handler(trace.sent[at]) == Returned(reply.payload)
    {
      hide Explains, React, Seen;
      HeadIsCorrelated(trace, inbox, outbox);
      ReceivedIsExplained(trace, inbox, outbox);
      at := trace.queued[0];
      reply := outbox[0];
      outbox := outbox[1..];
      trace := Received(trace);
      ExplainedBounds(trace, inbox, outbox);
    }

    /** One round of the discard loop, up to the reply it reads. */
    method ReadRound(env: CallEnv, i: nat) returns (arrival: Arrival, ghost at: nat)
      requires Valid()
      modifies this
      ensures Valid()
      ensures trace.sent == old(trace.sent) && trace.answered == old(trace.answered)
      ensures OneRound(old(Queues(inbox, outbox)), env, i)
              == match arrival
                 case Over(outcome) => Ends(outcome, Queues(inbox, outbox))
                 case Arrived(reply) => Reads(reply, Queues(inbox, outbox))
      ensures arrival.Over? ==>
                && trace.consumed == old(trace.consumed)
                && (arrival.outcome.TimedOut? || arrival.outcome.TransportFailed? || arrival.outcome.Waiting?)
      ensures arrival.Arrived? ==>
                && old(trace.consumed) <= at && trace.consumed == at + 1 <= |trace.envs| <= |trace.sent| && at !in trace.answered
                && ReactionAt(trace, at).reply == Some(arrival.reply) && arrival.reply.id == trace.sent[at].id
                && (arrival.reply.Ok? ==>
                      && ReactionAt(trace, at) == Reaction(true, Some(arrival.reply), false)
                      && trace.envs[at].handler(trace.sent[at]) == Returned(arrival.reply.payload))
    {
      hide Explains, ReactionAt, ServeUntilReply;
      at := 0;
      if env.hasDeadline && env.expired(i) {
        return Over(TimedOut), 0;
      }
      var ready := Poll(env.polled(i));
      if !ready {
        return Over(if env.hasDeadline then TimedOut else Waiting), 0;
      }
      if env.receive(i) != Through {
        return Over(if env.receive(i) == TriesAgain then TimedOut else TransportFailed), 0;
      }
      var reply;
      reply, at := Take();
      arrival := Arrived(reply);
    }

    /** call: `discarded` counts the late replies thrown away. */
    method Call(req: Request, env: CallEnv) returns (outcome: CallOutcome, discarded: nat, ghost qs: seq<Queues>)
      requires Valid()
      requires forall i :: 0 <= i < |trace.sent| ==> trace.sent[i].id != req.id
      modifies this
      ensures Valid()
      ensures trace.sent == if env.send == Through then old(trace.sent) + [req] else old(trace.sent)
      // the first reply that the client cannot read, or that is its own, decides
      ensures env.send == Through ==>
                (outcome, Queues(inbox, outbox)) == Play(Queues(old(inbox) + [req], old(outbox)), req, env, 0)
      // it goes through rounds that discard what they read, in time, and then through one that ends it so
      ensures env.send == Through ==>
                && qs != [] && Discarding(qs, req, env, 0) && qs[0] == Queues(old(inbox) + [req], old(outbox))
                && EndsSo(qs[|qs| - 1], req, env, |qs| - 1, outcome)
      ensures env.send != Through ==>
                && outcome == (if env.send == TriesAgain then TimedOut else TransportFailed)
                && inbox == old(inbox) && outbox == old(outbox) && trace == old(trace)
      // an answer is the server's reaction to this very request, a value what the handler returned for it
      ensures var k := |old(trace.sent)|;
              match outcome
              case Value(payload) =>
                && k in trace.answered && k < |trace.envs| && ReactionAt(trace, k) == Reaction(true, Some(Ok(req.id, payload)), false)
                && trace.envs[k].handler(req) == Returned(payload)
                && 0 < |payload| <= env.maxMessage && env.decodes(payload)
              case Remote(status, message, details) =>
                && k in trace.answered && k < |trace.envs|
                && ReactionAt(trace, k).reply.Some? && ReactionAt(trace, k).reply.value.Error?
                && status == ReactionAt(trace, k).reply.value.status
                && (ReactionAt(trace, k).reply.value.message != "" ==> message == ReactionAt(trace, k).reply.value.message)
                && (ReactionAt(trace, k).reply.value.message == "" ==> message == "remote RPC failed")
                && details == ReactionAt(trace, k).reply.value.details
              case BadPayload =>
                && k in trace.answered && k < |trace.envs|
                && ReactionAt(trace, k).reply.Some? && ReactionAt(trace, k).reply.value.Ok?
                && var p := ReactionAt(trace, k).reply.value.payload;
                   !(0 < |p| <= env.maxMessage && env.decodes(p))
              case Unreadable(reply) =>
                // the reply to this call, or to an earlier one that never received its own
                && old(trace.consumed) <= trace.consumed - 1 <= k && trace.consumed <= |trace.envs|
                && ReactionAt(trace, trace.consumed - 1).reply == Some(reply) && !env.readable(reply)
                && trace.answered == old(trace.answered) && trace.consumed - 1 !in trace.answered
                && (reply.id == req.id <==> trace.consumed - 1 == k)
              case _ => trace.answered == old(trace.answered)
      // discards: at most one per earlier call whose own reply was never received
      ensures forall j :: old(trace.consumed) <= j < |old(trace.sent)| ==> j !in old(trace.answered)
      ensures discarded <= |old(trace.sent)| - old(trace.consumed)
    {
      hide Explains, ReactionAt, Play, OneRound, Verdict, Discarding, EndsSo;
      discarded := 0;
      ExplainedBounds(trace, inbox, outbox);
      qs := [];
      if env.send == TriesAgain { return TimedOut, 0, []; }
      if env.send == Breaks { return TransportFailed, 0, []; }
      SentIsExplained(trace, inbox, outbox, req);
      ghost var k := |trace.sent|;
      ghost var c := trace.consumed;
      inbox := inbox + [req];
      trace := Sent(trace, req);
      ghost var q := Queues(inbox, outbox);
      qs := PlaysThrough(q, req, env, 0);

      var round := 0;
      while true
        invariant Valid()
        invariant trace.sent == old(trace.sent) + [req] && k == |old(trace.sent)|
        invariant trace.answered == old(trace.answered)
        invariant c <= trace.consumed <= k && discarded <= trace.consumed - c
        invariant Play(q, req, env, 0) == Play(Queues(inbox, outbox), req, env, round)
        invariant qs != [] && Discarding(qs, req, env, 0) && qs[0] == q
        invariant EndsSo(qs[|qs| - 1], req, env, |qs| - 1, Play(q, req, env, 0).0)
        decreases k - trace.consumed
      {
        PlayUnfolds(Queues(inbox, outbox), req, env, round);
        var arrival;
        ghost var at;
        arrival, at := ReadRound(env, round);
        if arrival.Over? {
          outcome := arrival.outcome;
          return;
        }
        var reply := arrival.reply;
        IdTellsPosition(trace, inbox, outbox, at, k);
        if !env.readable(reply) {
          outcome := Unreadable(reply);
          return;
        }
        if reply.id != req.id {
          discarded := discarded + 1;
          round := round + 1;
          continue;
        }
        AnsweredIsExplained(trace, inbox, outbox, k);
        trace := trace.(answered := trace.answered + {k});
        outcome := Judge(reply, env);
        return;
      }
    }

    /** What follows the discard loop. */
    method Judge(reply: Reply, env: CallEnv) returns (outcome: CallOutcome)
      ensures outcome == Verdict(reply, env)
      ensures match outcome
              case Value(payload) => reply == Ok(reply.id, payload) && 0 < |payload| <= env.maxMessage && env.decodes(payload)
              case Remote(status, message, details) =>
                reply.Error? && status == reply.status && message == Shown(reply.message) && details == reply.details
              case BadPayload => reply.Ok? && !(0 < |reply.payload| <= env.maxMessage && env.decodes(reply.payload))
              case _ => false
    {
      if reply.Error? {
        return Remote(reply.status, Shown(reply.message), reply.details);
      }
      if |reply.payload| == 0 { return BadPayload; }
      if |reply.payload| > env.maxMessage { return BadPayload; }
      if !env.decodes(reply.payload) { return BadPayload; }
      outcome := Value(reply.payload);
    }
  }

  lemma PlayUnfolds(q: Queues, req: Request, env: CallEnv, i: nat)
    ensures Play(q, req, env, i)
            == match OneRound(q, env, i)
               case Ends(outcome, rest) => (outcome, rest)
               case Reads(reply, rest) =>
                 if !env.readable(reply) then (Unreadable(reply), rest)
                 else if reply.id != req.id then Play(rest, req, env, i + 1)
                 else (Verdict(reply, env), rest)
  {
    hide OneRound, Verdict;
  }

  lemma ExplainedBounds(t: Trace, inbox: seq<Request>, outbox: seq<Reply>)
    requires Explains(t, inbox, outbox)
    ensures t.consumed <= |t.envs| <= |t.sent|
    ensures forall j :: t.consumed <= j < |t.sent| ==> j !in t.answered
  {
  }

  /** The oldest queued reply answers a served request not before the ones already consumed. */
  lemma HeadIsCorrelated(t: Trace, inbox: seq<Request>, outbox: seq<Reply>)
    requires Explains(t, inbox, outbox) && outbox != []
    ensures t.queued != [] && t.consumed <= t.queued[0] < |t.envs| <= |t.sent|
    ensures t.queued[0] !in t.answered
    ensures ReactionAt(t, t.queued[0]).reply == Some(outbox[0])
    ensures outbox[0].id == t.sent[t.queued[0]].id
    ensures outbox[0].Ok? ==>
              && ReactionAt(t, t.queued[0]) == Reaction(true, Some(outbox[0]), false)
              && t.envs[t.queued[0]].handler(t.sent[t.queued[0]]) == Returned(outbox[0].payload)
  {
    hide React;
    assert Answers(t, t.queued[0], outbox[0]);
    ReplyAnswersItsRequest(t.sent[t.queued[0]], t.envs[t.queued[0]]);
  }

  lemma IdTellsPosition(t: Trace, inbox: seq<Request>, outbox: seq<Reply>, i: nat, k: nat)
    requires Explains(t, inbox, outbox) && i < |t.sent| && k < |t.sent|
    ensures t.sent[i].id == t.sent[k].id <==> i == k
  {
  }

  lemma AnsweredIsExplained(t: Trace, inbox: seq<Request>, outbox: seq<Reply>, k: nat)
    requires Explains(t, inbox, outbox) && k < t.consumed
    ensures Explains(t.(answered := t.answered + {k}), inbox, outbox)
    ensures k < |t.envs| <= |t.sent| && ReactionAt(t.(answered := t.answered + {k}), k) == ReactionAt(t, k)
  {
    hide React;
    var t' := t.(answered := t.answered + {k});
    forall i | 0 <= i < |outbox| ensures Answers(t', t'.queued[i], outbox[i]) {
      assert Answers(t, t.queued[i], outbox[i]);
    }
  }
}

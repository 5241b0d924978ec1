/** When a call on a ZeroMQ link can fail because of the reply to another call. */
module ZmqSpoiling {
  import opened Wrappers
  import opened ZmqLink
  import P = Protocol

  /** What happens on a link: a call, or the server working while no call polls. */
  datatype Event = Calls(req: Request, env: CallEnv) | Serves(meets: Env)

  function Happen(q: Queues, event: Event): Queues {
    match event
    case Serves(env) => ServeNext(q, env)
    case Calls(req, env) =>
      if env.send == Through then Play(Queues(q.inbox + [req], q.outbox), req, env, 0).1 else q
  }

  function HappenAll(q: Queues, events: seq<Event>): Queues
    decreases |events|
  {
    if events == [] then q else HappenAll(Happen(q, events[0]), events[1..])
  }

  /** The two ends of a link: what the client sends and can read, and what the server's messages may meet. */
  datatype Peers = Peers(sends: Request -> bool, readable: Reply -> bool, serving: Env -> bool)

  ghost predicate PolledBy(env: CallEnv, serving: Env -> bool) {
    forall i: nat, j: nat :: j < |env.polled(i)| ==> serving(env.polled(i)[j])
  }

  ghost predicate Possible(peers: Peers, event: Event) {
    match event
    case Serves(env) => peers.serving(env)
    case Calls(req, env) => peers.sends(req) && PolledBy(env, peers.serving) && env.readable == peers.readable
  }

  ghost predicate AllPossible(peers: Peers, events: seq<Event>) {
    forall i :: 0 <= i < |events| ==> Possible(peers, events[i])
  }

  ghost predicate NewId(events: seq<Event>, id: string) {
    forall i :: 0 <= i < |events| && events[i].Calls? ==> events[i].req.id != id
  }

  /** On some run from the empty link a call fails because it cannot read the reply to another call. */
  ghost predicate Spoilable(peers: Peers) {
    exists events, req, env :: SpoilsOn(peers, events, req, env)
  }

  ghost predicate SpoilsOn(peers: Peers, events: seq<Event>, req: Request, env: CallEnv) {
    && AllPossible(peers, events) && Possible(peers, Calls(req, env)) && NewId(events, req.id)
    && var q := HappenAll(Queues([], []), events);
       var outcome := Play(Queues(q.inbox + [req], q.outbox), req, env, 0).0;
       outcome.Unreadable? && outcome.reply.id != req.id
  }

  /** The server puts a reply to this request into the queue that the client cannot read. */
  ghost predicate Troubles(peers: Peers, req: Request, env: Env) {
    && peers.sends(req) && peers.serving(env) && !env.lost
    && React(Seen(req, env), env).reply.Some? && !peers.readable(React(Seen(req, env), env).reply.value)
  }

  ghost predicate Untroubled(peers: Peers) {
    forall req, env :: !Troubles(peers, req, env)
  }

  ghost predicate Clean(peers: Peers, q: Queues) {
    && (forall i :: 0 <= i < |q.inbox| ==> peers.sends(q.inbox[i]))
    && (forall i :: 0 <= i < |q.outbox| ==> peers.readable(q.outbox[i]))
  }

  lemma ServingStaysClean(peers: Peers, q: Queues, env: Env)
    requires Untroubled(peers) && Clean(peers, q) && peers.serving(env)
    ensures Clean(peers, ServeNext(q, env))
  {
    hide React, Seen;
    if q.inbox != [] { assert !Troubles(peers, q.inbox[0], env); }
  }

  lemma {:induction false} PollingStaysClean(peers: Peers, q: Queues, envs: seq<Env>)
    requires Untroubled(peers) && Clean(peers, q) && forall j :: 0 <= j < |envs| ==> peers.serving(envs[j])
    ensures Clean(peers, ServeUntilReply(q, envs))
    decreases |envs|
  {
    if q.outbox == [] && envs != [] {
      hide ServeNext, Clean, Untroubled;
      ServingStaysClean(peers, q, envs[0]);
      PollingStaysClean(peers, ServeNext(q, envs[0]), envs[1..]);
    }
  }

  /** If whatever the server can send is readable, no call ever fails on a reply's envelope. */
  lemma {:induction false} CallStaysClean(peers: Peers, q: Queues, req: Request, env: CallEnv, i: nat)
    requires Untroubled(peers) && Clean(peers, q) && PolledBy(env, peers.serving) && env.readable == peers.readable
    ensures !Play(q, req, env, i).0.Unreadable? && Clean(peers, Play(q, req, env, i).1)
    decreases |q.inbox| + |q.outbox|
  {
    ServingKeepsCount(q, env.polled(i));
    PollingStaysClean(peers, q, env.polled(i));
    RoundEndsWithoutReply(q, env, i);
    hide ServeUntilReply, Untroubled, PolledBy;
    PlayUnfolds(q, req, env, i);
    match OneRound(q, env, i)
    case Ends(_, _) =>
    case Reads(reply, rest) =>
      assert Clean(peers, rest) && peers.readable(reply);
      hide Play, OneRound;
      if reply.id != req.id { CallStaysClean(peers, rest, req, env, i + 1); }
  }

  lemma {:induction false} RunStaysClean(peers: Peers, q: Queues, events: seq<Event>)
    requires Untroubled(peers) && Clean(peers, q) && AllPossible(peers, events)
    ensures Clean(peers, HappenAll(q, events))
    decreases |events|
  {
    if events != [] {
      assert Possible(peers, events[0]);
      hide Untroubled, PolledBy, ServeNext, Play;
      match events[0] {
        case Serves(env) => ServingStaysClean(peers, q, env);
        case Calls(req, env) => CallStaysClean(peers, Queues(q.inbox + [req], q.outbox), req, env, 0);
      }
      hide Clean, Happen, Possible;
      RunStaysClean(peers, Happen(q, events[0]), events[1..]);
    }
  }

  /** A call's environment: it times out before its first poll, or waits for one reply after another. */
  function Impatient(readable: Reply -> bool): CallEnv {
    CallEnv(Through, true, _ => true, _ => Through, _ => [], readable, 10, _ => true)
  }

  function Patient(readable: Reply -> bool, server: Env): CallEnv {
    CallEnv(Through, false, _ => false, _ => Through, _ => [server], readable, 10, _ => true)
  }

  /** What a call that waits for the server comes to, the requests before its own being served first. */
  lemma ServedWhileWaiting(first: Request, later: seq<Request>, req: Request, readable: Reply -> bool, server: Env)
    requires React(Seen(first, server), server).reply.Some? && !server.lost
    ensures var reply := React(Seen(first, server), server).reply.value;
            var outcome := Play(Queues([first] + later, []), req, Patient(readable, server), 0).0;
            && (!readable(reply) ==> outcome == Unreadable(reply))
            && (readable(reply) && reply.id == req.id ==> outcome == Verdict(reply, Patient(readable, server)))
  {
    var env := Patient(readable, server);
    var reply := React(Seen(first, server), server).reply.value;
    hide React, Seen, Verdict;
    var q := Queues([first] + later, []);
    assert ServeNext(q, server) == Queues(later, [reply]);
    assert ServeUntilReply(q, [server]) == Queues(later, [reply]);
    hide ServeUntilReply, ServeNext;
    PlayUnfolds(q, req, env, 0);
    hide Play;
  }

  lemma GivesUpAtOnce(req: Request, readable: Reply -> bool)
    ensures Play(Queues([req], []), req, Impatient(readable), 0) == (TimedOut, Queues([req], []))
  {
    PlayUnfolds(Queues([req], []), req, Impatient(readable), 0);
    hide Play, ServeUntilReply;
  }

  lemma TroubleSpoils(peers: Peers, a: Request, server: Env, b: Request)
    requires Troubles(peers, a, server) && peers.sends(b) && a.id != b.id
    ensures SpoilsOn(peers, [Calls(a, Impatient(peers.readable))], b, Patient(peers.readable, server))
  {
    var events := [Calls(a, Impatient(peers.readable))];
    ReplyAnswersItsRequest(a, server);
    GivesUpAtOnce(a, peers.readable);
    ServedWhileWaiting(a, [b], b, peers.readable, server);
    hide Play, React, Seen;
    assert [] + [a] == [a] && [a] + [b] == [a, b];
    assert HappenAll(Queues([], []), events) == HappenAll(Queues([a], []), events[1..]) == Queues([a], []);
  }

  /** The client can send requests with more than one ID. */
  ghost predicate HasOtherIds(sends: Request -> bool) {
    forall a :: sends(a) ==> exists b :: sends(b) && b.id != a.id
  }

  lemma UntroubledNeverSpoils(peers: Peers, events: seq<Event>, req: Request, env: CallEnv)
    requires Untroubled(peers)
    ensures !SpoilsOn(peers, events, req, env)
  {
    hide Play, HappenAll, Untroubled, PolledBy, NewId;
    if SpoilsOn(peers, events, req, env) {
      RunStaysClean(peers, Queues([], []), events);
      var q := HappenAll(Queues([], []), events);
      CallStaysClean(peers, Queues(q.inbox + [req], q.outbox), req, env, 0);
    }
  }

  lemma TroubleSends(peers: Peers, a: Request, server: Env)
    requires Troubles(peers, a, server)
    ensures peers.sends(a)
  {
  }

  lemma TroubleMakesSpoilable(peers: Peers, a: Request, server: Env)
    requires HasOtherIds(peers.sends) && Troubles(peers, a, server)
    ensures Spoilable(peers)
  {
    hide Troubles, SpoilsOn, Impatient, Patient;
    TroubleSends(peers, a, server);
    var b :| peers.sends(b) && b.id != a.id;
    TroubleSpoils(peers, a, server, b);
  }

  lemma UntroubledIsUnspoilable(peers: Peers)
    requires Untroubled(peers)
    ensures !Spoilable(peers)
  {
    hide Untroubled, SpoilsOn;
    if events, req, env :| SpoilsOn(peers, events, req, env) {
      UntroubledNeverSpoils(peers, events, req, env);
    }
  }

  /** Exactly when a link can be spoiled: another call's reply can make a call fail, on some run, if and
      only if the server can queue some reply that the client cannot read. */
  lemma SpoilableExactly(peers: Peers)
    requires HasOtherIds(peers.sends)
    ensures Spoilable(peers) <==> exists a, server :: Troubles(peers, a, server)
  {
    hide Troubles, Spoilable, HasOtherIds;
    if a, server :| Troubles(peers, a, server) {
      TroubleMakesSpoilable(peers, a, server);
    } else {
      UntroubledIsUnspoilable(peers);
    }
  }

  /** The ends of a link between a client and a server with these limits. */
  ghost function PeersAt(lib: P.Lib, maxClient: nat, maxServer: nat): Peers {
    Peers(req => Sends(lib, maxClient, req),
         reply => Readable(lib, maxServer, maxClient, reply),
         env => Serving(lib, maxClient, maxServer, env))
  }

  /** The same at the limits: calls can be spoiled if and only if the server can queue a reply whose envelope
      is over the client's limit. So a client whose limit is not below its server's is safe. */
  lemma SpoilableAtLimits(lib: P.Lib, maxClient: nat, maxServer: nat)
    requires P.Lawful(lib)
    requires HasOtherIds(PeersAt(lib, maxClient, maxServer).sends)
    ensures Spoilable(PeersAt(lib, maxClient, maxServer))
            <==> exists a, server :: OverTheLimit(lib, maxClient, maxServer, a, server)
    ensures maxServer <= maxClient ==> !Spoilable(PeersAt(lib, maxClient, maxServer))
  {
    hide Troubles, OverTheLimit, Spoilable, PeersAt, HasOtherIds;
    var peers := PeersAt(lib, maxClient, maxServer);
    SpoilableExactly(peers);
    forall a, server ensures Troubles(peers, a, server) <==> OverTheLimit(lib, maxClient, maxServer, a, server) {
      TroublesAtLimits(lib, maxClient, maxServer, a, server);
    }
    if a, server :| OverTheLimit(lib, maxClient, maxServer, a, server) {
      TroublesAtLimits(lib, maxClient, maxServer, a, server);
    }
  }

  ghost predicate OverTheLimit(lib: P.Lib, maxClient: nat, maxServer: nat, a: Request, server: Env) {
    && Sends(lib, maxClient, a) && Serving(lib, maxClient, maxServer, server) && !server.lost
    && var reply := React(Seen(a, server), server).reply;
       reply.Some? && EncodedReply(lib, reply.value, maxServer).Ok?
       && |EncodedReply(lib, reply.value, maxServer).value| > maxClient
  }

  lemma TroublesAtLimits(lib: P.Lib, maxClient: nat, maxServer: nat, a: Request, server: Env)
    requires P.Lawful(lib)
    ensures Troubles(PeersAt(lib, maxClient, maxServer), a, server) <==> OverTheLimit(lib, maxClient, maxServer, a, server)
    ensures OverTheLimit(lib, maxClient, maxServer, a, server) ==> maxClient < maxServer
  {
    hide Readable, P.EncodeEnvelope, EncodedReply, P.Blank, Fits;
    var reply := React(Seen(a, server), server).reply;
    if Sends(lib, maxClient, a) && Serving(lib, maxClient, maxServer, server) && reply.Some? {
      ReplyAnswersItsRequest(a, server);
      QueuedIsSendable(a, server);
      hide React, Seen;
      assert Sendable(lib, maxServer, reply.value);
      ReadableWithinLimit(lib, maxServer, maxClient, reply.value);
    }
  }

  lemma QueuedIsSendable(req: Request, env: Env)
    ensures React(Seen(req, env), env).reply.Some? ==> env.sendable(React(Seen(req, env), env).reply.value)
  {
    hide Rejection, Conclusion;
  }

  // ----- a run on which it happens

  function Numbered(id: string): Request {
    Request(id, "m", [], None, map[])
  }

  /** The server with this limit, whose handler aborts one call and answers all others. */
  ghost function AbortingServer(lib: P.Lib, maxClient: nat, maxServer: nat, aborts: string, message: string): Env {
    Env(req => Sends(lib, maxClient, req) && Fits(lib, maxClient, maxServer, req), {"m"}, 0, 10, _ => None,
        (req: Request) => if req.id == aborts then Aborts("aborted", message, map[]) else Returned([1]),
        reply => Sendable(lib, maxServer, reply), false, "10", "RPC handler failed (RpcProtocolError)")
  }

  /** Call a times out. Its abort, whose envelope is within the server's limit but over the client's, is then
      the first thing that call b reads, and b raises a protocol error for it. Alone on the link, b gets
      its value. */
  lemma LateReplySpoils(lib: P.Lib, idA: string, idB: string, message: string, maxClient: nat, maxServer: nat)
    requires P.Lawful(lib) && idA != idB
    requires Sends(lib, maxClient, Numbered(idA)) && Fits(lib, maxClient, maxServer, Numbered(idA))
    requires Sends(lib, maxClient, Numbered(idB)) && Fits(lib, maxClient, maxServer, Numbered(idB))
    requires var abort := Error(idA, Aborted("aborted"), message, map[]);
             Sendable(lib, maxServer, abort) && |EncodedReply(lib, abort, maxServer).value| > maxClient
    requires Sendable(lib, maxServer, Ok(idB, [1])) && |EncodedReply(lib, Ok(idB, [1]), maxServer).value| <= maxClient
    ensures var a, b := Numbered(idA), Numbered(idB);
            var server := AbortingServer(lib, maxClient, maxServer, idA, message);
            var readable := PeersAt(lib, maxClient, maxServer).readable;
            && Serving(lib, maxClient, maxServer, server)
            && Play(Queues([a], []), a, Impatient(readable), 0) == (TimedOut, Queues([a], []))
            && Play(Queues([a, b], []), b, Patient(readable, server), 0).0
               == Unreadable(Error(idA, Aborted("aborted"), message, map[]))
            && Play(Queues([b], []), b, Patient(readable, server), 0).0 == Value([1])
  {
    hide P.EncodeEnvelope, EncodedReply, P.Blank, Play;
    var a, b := Numbered(idA), Numbered(idB);
    var abort := Error(idA, Aborted("aborted"), message, map[]);
    var server := AbortingServer(lib, maxClient, maxServer, idA, message);
    var readable := PeersAt(lib, maxClient, maxServer).readable;
    ReadableWithinLimit(lib, maxServer, maxClient, abort);
    ReadableWithinLimit(lib, maxServer, maxClient, Ok(idB, [1]));
    hide Readable;
    assert !readable(abort) && readable(Ok(idB, [1]));
    assert React(Seen(a, server), server) == Reaction(true, Some(abort), false);
    assert React(Seen(b, server), server) == Reaction(true, Some(Ok(idB, [1])), false);
    hide React, Seen, Fits, Sendable, Sends, Impatient, Patient;
    GivesUpAtOnce(a, readable);
    ServedWhileWaiting(a, [b], b, readable, server);
    ServedWhileWaiting(b, [], b, readable, server);
    assert [a] + [b] == [a, b] && [b] + [] == [b];
  }
}

# A verified model of npb-rpc

npb-rpc is a small RPC library in Python. Its difficult parts are protocols: completion events that are
recycled in Redis while others still wait on them, replies that arrive after their call has given up, shared
memory that must be handed back exactly once, a registry that anybody may prune. This project models those
protocols in Dafny and proves what they keep, for every run and every interleaving. `dafny verify
dfyconfig.toml` checks it.

## The system

**Completion events.** A pool of slots lives in Redis. Each slot has a hash and a stream that is trimmed to a
bounded length; five atomic scripts change them. `EventHistory` is the reference: the slot's whole, untrimmed
log and one deadline, changed by four kinds of step. `EventStore.Store` has the hash and the trimmed stream,
and each script as a method; its invariant says that the hash is the log's last entry and the stream a tail
of the log that has kept at least the last two entries. `EventRuns` proves what holds over runs: identity,
retention, leases, conservation. `EventClient` is `RpcEvent`: `Create` scans the pool and `Wait` mixes looks at
the hash with blocking reads of the stream, over a `Connection` that lets the others in, gives the clock and
records both. Other clients are schedules, arbitrary lists of scripts that get
in before each store access, and every contract holds for every schedule. Times are integer milliseconds
(nanoseconds for the monotonic clock of `Wait`); clock values are arguments, and are assumed not to go back
only where a property says so.

**ZeroMQ.** `ZmqLink.Link` is a client, a server and the two queues between them. Calls may time out and leave a
reply queued, and either end may be unable to read what the other sends, for each has an envelope limit of its
own. The ghost trace says which request each queued reply answers, and `Call` contains the loop that discards
late replies. `RequestOnTheWire` and `ReplyOnTheWire` connect the link with the bytes of `Protocol`, and
`ZmqSpoiling` says when one call can fail because of another's reply.

**iceoryx2.** `Ownership` is the machine of the call lock, the pending request and the response sample, one action
per step, for any number of threads. `Iceoryx2Client.Client` is the client's own code over that machine: the
retry loop, the two kinds of call, `close()` on a lent response, with other threads let in between any two
actions. `Framing` has the plain byte framing and the in-place writer and reader over an array.

**Envelopes.** `Protocol` encodes and decodes on the level of JSON values. UUID parsing, white space and JSON
text are parameters, with all the ways in which reading and writing JSON may fail; the one law used is that text
produced by `dumps` is read back as the same value.

**Discovery.** `Discovery` is the registry as a machine of operations and answers, with pruning on or off;
`FilesystemRegistry.FilesystemDiscovery` is the object that implements it by loops over directory listings in
arbitrary order. `Service` interleaves the serving thread with its heartbeat thread.

## Where the code falls short of what it is for

The model keeps each of these as the code has it, gives its exact condition, and shows a run or an input on which
it happens.

- `ZmqRpcClient.call()` decodes a reply before it compares request IDs. A late reply to another call whose envelope is
  over this client's limit is therefore not discarded: the call fails with a protocol error for somebody else's
  reply (`ZmqSpoiling.LateReplySpoils`). It can happen if and only if the server can queue a reply that is over the
  client's limit, so never to a client whose limit is not below its server's (`ZmqSpoiling.SpoilableAtLimits`); which
  call is hit is told by `ZmqLink.SpoiledExactly`.
- `serve_once()` sends most of its error replies outside of any handler for their own failure. A reply whose envelope
  is over the server's limit ends `serve_forever()` (`ZmqLink.ServeRaisesExactly`). A well-formed request within
  every limit can do that, since the refusal of an unknown method repeats its name
  (`ZmqLink.UnknownMethodStopsServer`): under the default limit of 65,536 bytes, a name of 65,400 ASCII characters makes
  a request of 65,515 bytes with its deadline, and a refusal of 65,546 bytes. So can a handler's abort
  (`ZmqLink.AbortStopsServer`).
- `Iceoryx2BorrowedResponse.close()` checks `_closed` first and sets it last. Two overlapping calls delete the
  sample and the request twice and release a lock that may be somebody else's (`Ownership.OverlapHappens`).
  `Ownership.OwnershipIsLinear` holds for every run in which no check falls between another closer's check and its
  marking, and `Ownership.OverlapBreaksOwnership` continues any run in which one does to the double delete.
- `DiscoveredRpcServer.serve_forever()` joins its heartbeat thread even when starting it failed. The join raises,
  the instance is not unregistered and the server cannot be entered again (`Service.RecordLeftBehind`,
  `Service.StartFailureLeavesRecord`).
- `decode_envelope()` lets other errors than protocol errors out: a `TypeError` when `kind` is a list or an object,
  and what `json.loads` raises besides its own decoding errors, such as a plain `ValueError` on an integer of too
  many digits and a `RecursionError` on deep nesting (`Protocol.OtherErrorsExactly`, `Protocol.OtherErrorsHappen`).
  Nothing in `serve_once()` catches them either.
- A handler's abort reaches its caller with status and details, but its message only if it is not empty
  (`Protocol.AbortReachesCaller`).
- README.md:221-224 of the library says that the iceoryx2 adapter copies received bytes before decoding; the code
  (`src/npb_rpc/_iceoryx2.py:273-293`) reads them in place, and the model follows the code.

## Model

| member | source | states |
|---|---|---|
| EventHistory.LogAlternates | src/npb_rpc/_event.py:97-210 | the full log of a slot is (1, created), (1, outcome), (2, created), (2, outcome), ... with strictly increasing IDs |
| EventHistory.ApplyKeepsWellFormed | src/npb_rpc/_event.py:97-245 | every script keeps the alternation and only appends to the log |
| EventHistory.RunKeepsWellFormed | src/npb_rpc/_event.py:97-245 | so does every run of scripts by any mix of clients |
| EventHistory.OutcomeIsFinal | src/npb_rpc/_event.py:183-210 | agreement: one outcome per generation, which no later step changes |
| EventRuns.ClaimsCountUp | src/npb_rpc/_event.py:133-167 | the claims of a run return consecutive generations, with no gap and no repetition |
| EventRuns.IdentityIsUnique | src/npb_rpc/_event.py:323-356 | no two claims anywhere in a pool's run hand out the same slot and generation |
| EventRuns.ClaimsAreDistinct | src/npb_rpc/_event.py:323-356 | the same for claims named by the points of the run at which they succeed |
| EventRuns.GrantsAreNew | src/npb_rpc/_event.py:133-167 | every generation handed out in a run is beyond what its slot had reached when the run began |
| EventRuns.StaleHandleIsPowerless | src/npb_rpc/_event.py:183-237 | striking every set, refresh and release of an outdated handle from a run leaves the result unchanged |
| EventRuns.TerminalIsRetained | src/npb_rpc/_event.py:160-167 | before its reuse instant an unreleased terminal slot does not change at all |
| EventRuns.RetentionWindow | src/npb_rpc/_event.py:160-200 | after a completion at t with retention r, every state before t + r shows that outcome, unless the generation is released |
| EventRuns.ReuseInstantHasCause | src/npb_rpc/_event.py:141-245 | a terminal slot's reuse instant was set by a completion, release or sweep of that very generation, and the slot is untouched since |
| EventRuns.RecyclingIsJustified | src/npb_rpc/_event.py:138-167 | conversely every recycling follows an elapsed reuse instant or is a zero-retention sweep |
| EventRuns.ActiveIffLeaseUnbroken | src/npb_rpc/_event.py:138-157 | an uncompleted generation stays active exactly as long as no claim attempt sees its lease ended; otherwise a sweep has failed it |
| EventRuns.OnTimeMeansUnbroken | src/npb_rpc/_event.py:212-226 | under a nondecreasing clock, refreshing before each lease end leaves no attempt that sees the lease ended |
| EventRuns.PunctualOwnerIsNeverSwept | src/npb_rpc/_event.py:193-226 | lease safety: an owner who is always on time is never failed by a sweep, and its own outcome is the one logged |
| EventRuns.SlotsAreIndependent | src/npb_rpc/_event.py:280-287 | a pool's run, seen at one slot, is the run of that slot's own scripts |
| EventRuns.ActiveSlotsAreConserved | src/npb_rpc/_event.py:117-210 | active slots are claims minus completions minus lease sweeps, over every run of a pool |
| EventStore.AppendRepresents | src/npb_rpc/_event.py:107-131 | writing the hash and adding the same fact to the trimmed stream keeps slot and history in step, for any bound of at least 2 |
| EventStore.HashAndStreamAgree | src/npb_rpc/_event.py:119-131 | in every reachable state the hash equals the stream's last entry, holds a lease exactly while `created`, and the log has length 2g - 1 while created and 2g when terminal |
| EventStore.OneEntryIsTooFew | src/npb_rpc/_event.py:270 | with a bound of 1 a recycled slot's stream would have lost the previous outcome; with any bound of at least 2 it still holds it |
| EventStore.Store.NextSlot | src/npb_rpc/_event.py:89-95 | an absent counter starts at slot 0; otherwise it moves on by one within the pool, whatever sizes others use, and the slot returned lies in the pool |
| EventStore.Store.TryClaim | src/npb_rpc/_event.py:97-170 | refines one step of the history (sweep, claim or both), keeps hash, stream and log in step, leaves other slots alone |
| EventStore.Store.Complete | src/npb_rpc/_event.py:172-210 | refines one step; replies expired, already or the new ID exactly as the history says, and changes nothing in the first two cases |
| EventStore.Store.RefreshLease | src/npb_rpc/_event.py:212-226 | moves the lease end of a current active generation, codes -1 and 0 otherwise without a change |
| EventStore.Store.Release | src/npb_rpc/_event.py:228-245 | makes a current terminal generation reusable, codes -1 and 0 otherwise without a change |
| EventStore.Store.Interfere | src/npb_rpc/_event.py:97-245 | whatever scripts others run on the slots, the invariant is kept, the logs only grow, and the pool is that of the run |
| EventClient.ScanVisitsEachSlotOnce | src/npb_rpc/_event.py:328-329 | the cyclic scan visits every slot of the pool exactly once |
| EventClient.StartsRotate | src/npb_rpc/_event.py:89-95 | wherever the counter stands, absent included, the n-th create of a pool after a first one starts n slots further on, so any pool-size creates in a row start at every slot once |
| EventClient.Create | src/npb_rpc/_event.py:296-360 | the start slot is the next one of the counter and lies in the pool; pool and result are those of the cyclic scan from it, under any interference by the five scripts of others; the event is the grant of the last script that ran |
| EventClient.EventsAreDistinct | src/npb_rpc/_event.py:334-356 | no two creates return the same event, however they overlap |
| EventClient.ClaimedInContext | src/npb_rpc/_event.py:334-356 | an event claimed in the run of its own create is claimed by the same script in the whole run around it |
| EventClient.CreatedEventIsNew | src/npb_rpc/_event.py:334-356 | whatever others do, a created event's generation is beyond any its slot had, and it is active with a full lease |
| EventClient.QuietScan | src/npb_rpc/_event.py:328-356 | without interference create takes the first takeable slot in cyclic order, and changes skipped slots only by sweeping expired leases |
| EventClient.ExhaustedIffNothingToTake | src/npb_rpc/_event.py:328-360 | without interference create raises exhausted exactly when no slot can be taken |
| EventClient.AbandonedSlotComesBack | src/npb_rpc/_event.py:138-165 | a slot swept by a pass at t can be taken by every pass from t + retention on |
| EventClient.ReleasedSlotIsTaken | src/npb_rpc/_event.py:228-245 | after a release at t, an undisturbed create with a clock of at least t takes that slot's next generation, or a slot its scan reaches before |
| EventClient.NoLostWakeUp | src/npb_rpc/_event.py:415-442 | once a generation has ended, a waiter that has consumed nothing beyond its creation finds something to read, however far the slot has moved on |
| EventClient.OutcomeIsReadFirst | src/npb_rpc/_event.py:445-465 | until the next generation has ended too, what it finds first is the true outcome |
| EventClient.DecisiveFromOutcomeOn | src/npb_rpc/_event.py:445-467 | in a history, exactly the entries from the outcome on decide a read, the outcome first |
| EventClient.ScanRows | src/npb_rpc/_event.py:444-467 | the loop over the rows stops at the first decisive one and otherwise keeps the last ID |
| EventClient.Digest | src/npb_rpc/_event.py:444-467 | a read goes on exactly when its rows end before the outcome, returns the outcome exactly when they cover it, and expires exactly when they begin after it |
| EventClient.Connection.Snapshot | src/npb_rpc/_event.py:531-543 | a look at the hash tells the outcome, activity or expiry of the generation as the history has it |
| EventClient.Connection.XRead | src/npb_rpc/_event.py:435-439 | a blocking read is answered by what is stored or by the first script that appends while it blocks; its rows are a window of the log, and one that had to block starts right after what the caller consumed |
| EventClient.OutcomeIsSeenThroughoutRetention | src/npb_rpc/_event.py:531-543 | from a completion until its retention is over or the generation is released, every look at the hash gives that outcome |
| EventClient.WaitersAgree | src/npb_rpc/_event.py:408-467 | two waiters on one generation, overlapping or not, get the same result; a wait that begins after a result was given returns it too, unless the slot has moved on |
| EventClient.ReadOnce | src/npb_rpc/_event.py:435-467 | a read that does not return consumes at least one entry and never passes the outcome |
| EventClient.Wait | src/npb_rpc/_event.py:408-467 | terminates under any interference with at most 2g reads, all but the last answered; a result is the logged outcome; expiry means that the slot has moved on; the clock is read before each read, whose block time is the rest up to the deadline; it comes back with nothing only on an active event and only after a reading past the deadline or a read that blocked in vain; a waiter that slept is handed the outcome; what ends the generation before or during its first blocking read is not missed |
| EventClient.WaitedThrough | src/npb_rpc/_event.py:435-442 | who comes back with nothing, or still blocks, has let every script run that was due before the first look, before the first read and while that blocked, and none ended the generation |
| EventClient.WaitAfterCompletion | src/npb_rpc/_event.py:408-467 | a wait that begins after a completion and sees no script at or past t + retention and no release returns that outcome: neither None nor expired |
| EventClient.WaitAcrossCompletion | src/npb_rpc/_event.py:408-467 | so does a wait during which the completion happens |
| EventClient.Set | src/npb_rpc/_event.py:362-397 | logs the outcome exactly on a current active event; raises expired or already set otherwise, without a change |
| EventClient.Status | src/npb_rpc/_event.py:469-475 | `expired` exactly when the slot's generation is another one; otherwise the last logged state |
| EventClient.RefreshLease | src/npb_rpc/_event.py:484-506 | extends exactly a current active event, raises expired exactly for another generation |
| EventClient.Release | src/npb_rpc/_event.py:510-525 | true, false or an error exactly for a current terminal, an outdated, a current active event |
| ZmqLink.ReplyAnswersItsRequest | src/npb_rpc/_zmq.py:321-447 | a reply carries its request's ID; a successful one is what the handler returned for that request; a request that the server cannot read is dropped, to any other it replies or raises, never both |
| ZmqLink.RequestOnTheWire | src/npb_rpc/_zmq.py:335-397 | the server sees a request as it was sent exactly if its envelope is within the server's own limit |
| ZmqLink.ReplyOnTheWire | src/npb_rpc/_zmq.py:187-200 | the client can read a reply exactly if its envelope is within the client's own limit, and finds in it the ID, status and error that were sent |
| ZmqLink.RepliesOnTheWire | src/npb_rpc/_zmq.py:356-447 | what a request is told, by status and text on the wire: each check that refuses it, in their order, then the handler's failure, abort or result |
| ZmqLink.ResponsesRefused | src/npb_rpc/_zmq.py:348-355 | a response sent to a server is refused as an invalid argument |
| ZmqLink.ReadableWithinLimit | src/npb_rpc/_zmq.py:187-200 | a reply that the server can send is readable exactly if its envelope is within the client's limit |
| ZmqLink.ServeRaisesExactly | src/npb_rpc/_zmq.py:335-447 | a server with this limit raises from serve_once exactly on bytes that escape decode_envelope and on a message whose reply has no envelope within the limit |
| ZmqLink.UnknownMethodStopsServer | src/npb_rpc/_zmq.py:357-366 | a well-formed request within every limit, for a method that is unknown, makes serve_once raise exactly if the refusal, which repeats the name, does not fit |
| ZmqLink.AbortStopsServer | src/npb_rpc/_zmq.py:424-432 | a handler's abort makes serve_once raise exactly if its status is unknown or `ok`, or its envelope does not fit |
| ZmqLink.SentIsExplained | src/npb_rpc/_zmq.py:163-169 | sending a request with a new ID keeps the queues explained by the trace |
| ZmqLink.ServedIsExplained | src/npb_rpc/_zmq.py:327-447 | so does serving the oldest request, whatever comes of it |
| ZmqLink.ReceivedIsExplained | src/npb_rpc/_zmq.py:171-185 | so does receiving the oldest reply |
| ZmqLink.QueuedRepliesAreCorrelated | src/npb_rpc/_zmq.py:171-201 | every queued reply answers a request that was sent, and no two queued replies share an ID |
| ZmqLink.HandlerRunsAtMostOnce | src/npb_rpc/_zmq.py:406-417 | the handler runs at most once per request ID, and only for IDs that were sent |
| ZmqLink.Link.Dispatch | src/npb_rpc/_zmq.py:335-447 | the branches of serve_once, for every kind of message, queue exactly the reaction to it, drop it, or raise |
| ZmqLink.Link.Answer | src/npb_rpc/_zmq.py:406-447 | what follows the handler: result, abort, failure or an oversized result whose own report failed, each with its reply |
| ZmqLink.Link.ServeOnce | src/npb_rpc/_zmq.py:321-447 | serves exactly the head of the inbox, if any, and keeps the trace |
| ZmqLink.FirstReplyDecides | src/npb_rpc/_zmq.py:171-202 | a call is decided by the first reply it reads that it cannot read or that is its own; without such a one it times out, fails or waits |
| ZmqLink.SpoiledExactly | src/npb_rpc/_zmq.py:187-202 | a call fails on a reply's envelope exactly if that reply cannot be read and every one its rounds read before it can be and is another call's |
| ZmqSpoiling.CallStaysClean | src/npb_rpc/_zmq.py:171-202 | if whatever the server can queue is readable, no call fails on a reply's envelope, and nothing unreadable is left behind |
| ZmqSpoiling.TroubleSpoils | src/npb_rpc/_zmq.py:171-202 | any reply that the server can queue and the client cannot read makes some other call fail |
| ZmqSpoiling.SpoilableExactly | src/npb_rpc/_zmq.py:171-202 | on some run of a link a call fails on another call's reply, if and only if the server can queue a reply that the client cannot read |
| ZmqSpoiling.SpoilableAtLimits | src/npb_rpc/_zmq.py:171-202 | at the envelope limits: if and only if the server can queue a reply over the client's limit; so never if the client's limit is not below the server's |
| ZmqSpoiling.LateReplySpoils | src/npb_rpc/_zmq.py:187-202 | for any two request IDs and any abort between the two limits, a run on which the late abort makes the other call fail that alone would have got its value |
| ZmqLink.Link.ReadRound | src/npb_rpc/_zmq.py:171-185 | one round of the loop refines the round that CallEndsExactly describes, and the reply it takes answers a served request not before those already consumed |
| ZmqLink.CallEndsExactly | src/npb_rpc/_zmq.py:171-221 | how a call ends, by its rounds: rounds that in time read and discard another call's reply, and one that ends it: out of time, polled in vain, interrupted, broken, on a reply that cannot be read, or with the verdict on its own |
| ZmqLink.AnsweredInTime | src/npb_rpc/_zmq.py:171-221 | a call on an idle link whose request is treated while the first poll waits returns what the handler returned, however little time is left |
| ZmqLink.Link.Call | src/npb_rpc/_zmq.py:124-221 | a returned value is the handler's result on this very request; a remote error is the server's reply to it, an empty text replaced; an unreadable reply is its own or that of an earlier call that never received it; the loop discards at most one reply per such call; it goes through rounds that discard and one that ends it as CallEndsExactly says |
| Ownership.StepKeepsInv | src/npb_rpc/_iceoryx2.py:324-617 | every step without overlapping closers keeps lock, request, sample and retry accounting |
| Ownership.RunKeepsInv | src/npb_rpc/_iceoryx2.py:324-617 | so does every interleaving of any number of calls, closers and a client close |
| Ownership.OwnershipIsLinear | src/npb_rpc/_iceoryx2.py:439-617 | at most one live request, owned by the lock's holder; nothing deleted twice, everything exactly once when its call is over; no stray release; no request sent again after one reached a server |
| Ownership.FinishClosing | src/npb_rpc/_iceoryx2.py:324-334 | a closer past its check, left alone, runs to its end, with exactly the deletes still ahead of it and one release |
| Ownership.OverlapBreaksOwnership | src/npb_rpc/_iceoryx2.py:324-334 | the condition is exact: a check between another closer's check and marking leads to double deletes and a stray release |
| Ownership.OverlapHappens | src/npb_rpc/_iceoryx2.py:324-334 | a run from the start, of one call and two closers, that ends that way |
| Ownership.ClosedForGood | src/npb_rpc/_iceoryx2.py:396-406 | a closed client stays closed, begins no call, and ends every running one at its next check, so that nothing new is sent |
| Iceoryx2Client.Client.Others | src/npb_rpc/_iceoryx2.py:408-617 | whatever other threads do, the invariant is kept and this call's phase is left alone |
| Iceoryx2Client.AnswersExactly | src/npb_rpc/_iceoryx2.py:447-483 | a response in hand, exactly: rounds that reach no server, one whose request does, rounds in which nothing comes back, and one in which the response does, none past the deadline |
| Iceoryx2Client.FailsExactly | src/npb_rpc/_iceoryx2.py:447-493 | an exception, exactly: the first round that does not just go on is past the deadline, or raises on sending, or on receiving for what has reached a server |
| Iceoryx2Client.Client.StartCall | src/npb_rpc/_iceoryx2.py:408-493 | unless the client is closed or the lock stays taken, it ends as AnswersExactly and FailsExactly say, with the response in hand and the lock kept, or with everything given back |
| Iceoryx2Client.Client.CleanUp | src/npb_rpc/_iceoryx2.py:484-493 | on an exception a pending request is deleted and the lock released, from either state of the loop |
| Iceoryx2Client.Client.GiveBack | src/npb_rpc/_iceoryx2.py:552-559 | sample, request and lock are given back in this order, with other threads in between |
| Iceoryx2Client.Client.Call | src/npb_rpc/_iceoryx2.py:544-565 | when call is over it holds nothing, whether it was answered or not |
| Iceoryx2Client.Client.CallBorrowed | src/npb_rpc/_iceoryx2.py:586-617 | a valid response is lent together with the lock; otherwise everything is given back |
| Iceoryx2Client.Client.CloseLent | src/npb_rpc/_iceoryx2.py:324-334 | close gives sample, request and lock back once; closing again changes nothing |
| Iceoryx2Client.Client.Close | src/npb_rpc/_iceoryx2.py:396-406 | closing waits for no lock, changes nothing but the closing event, and may be repeated |
| Framing.LengthRoundTrip | src/npb_rpc/_framing.py:12 | a length below 2^32 is read back from its four bytes |
| Framing.LengthIsBigEndian | src/npb_rpc/_framing.py:12 | the bytes are in network order |
| Framing.PackedExactly | src/npb_rpc/_framing.py:20-27 | what is packed: the JSON text, if there is one within the limit and 32 bits, behind its length and before the payload; nothing otherwise |
| Framing.AcceptedExactly | src/npb_rpc/_framing.py:30-51 | what is accepted: a length within the limit and the message, an envelope of it that decodes, a payload within its limit |
| Framing.UnpackAfterPack | src/npb_rpc/_framing.py:20-51 | within the limits, unpack after pack returns the envelope's normal form and the payload, exactly for the acceptable envelopes |
| Framing.AcceptedMessageIsExact | src/npb_rpc/_framing.py:30-51 | an accepted message is length, envelope and payload with nothing lost |
| Framing.PrepareLoan | src/npb_rpc/_iceoryx2.py:188-201 | the loan starts with the packed length and envelope and has room for exactly the payload |
| Framing.SendPayload | src/npb_rpc/_iceoryx2.py:204-223 | the loan sent holds exactly the bytes the plain packer would build, and it fails exactly when the payload is too large or the packer would fail |
| Framing.ViewMessage | src/npb_rpc/_iceoryx2.py:273-293 | reading in place returns the envelope and the payload's offset as the reference reader says |
| Framing.ReadersAgree | src/npb_rpc/_iceoryx2.py:273-293 | the in-place and the plain reader accept and split alike up to the payload limit, with the same errors |
| Protocol.FillObject | src/npb_rpc/_protocol.py:125-141 | filling the object entry by entry gives the object of the envelope |
| Protocol.RequestSentExactly | src/npb_rpc/_protocol.py:125-134 | the fields of a request on the wire: version 1, kind, ID, method, and deadline and metadata if there are any |
| Protocol.ResponseSentExactly | src/npb_rpc/_protocol.py:125-141 | the fields of a response on the wire: version 1, kind, ID, status, and the error if there is a message |
| Protocol.AcceptedExactly | src/npb_rpc/_protocol.py:169-233 | what is accepted, field by field: version 1, true or 1.0; a text ID that is a UUID; a kind; and what the kind asks for |
| Protocol.RequestAcceptedExactly | src/npb_rpc/_protocol.py:186-204 | of a request: a method that is not blank, an integer deadline or none, metadata of texts or none; and what the envelope then carries |
| Protocol.ResponseAcceptedExactly | src/npb_rpc/_protocol.py:206-233 | of a response: one of the seventeen statuses, and an error with a text and an object exactly if it is not `ok`; and what the envelope then carries |
| Protocol.BuiltExactly | src/npb_rpc/_protocol.py:49-117 | responses and aborts that can be built: a known status, with an error message exactly if it is not `ok` |
| Protocol.BytesAcceptedExactly | src/npb_rpc/_protocol.py:142-170 | on bytes: within the limit, JSON, acceptable; and sent as the JSON text if that is within the limit |
| Protocol.RoundTrip | src/npb_rpc/_protocol.py:120-233 | decode of encode is the envelope's normal form, accepted exactly when the ID is a UUID and the method not blank, or status and error message go together |
| Protocol.ConstructedIsSendable | src/npb_rpc/_protocol.py:79-117 | whatever the constructors build is accepted, given a UUID and a method that is not blank |
| Protocol.DecodeIsStable | src/npb_rpc/_protocol.py:158-233 | for every accepted JSON value, decode, encode, decode equals decode |
| Protocol.OtherErrorsExactly | src/npb_rpc/_protocol.py:158-177 | decoding fails with anything but a protocol error exactly when the bytes are within the limit and either JSON reading raises an error that is not caught, or the kind of a version 1 envelope is a list or an object |
| Protocol.OtherErrorsHappen | src/npb_rpc/_protocol.py:165-177 | the text of a version 1 object with a list for its kind is such bytes, and so are any that JSON reading gives up on |
| Protocol.EnvelopeBytesRoundTrip | src/npb_rpc/_protocol.py:142-170 | the round trip on bytes, within the limits of both sides |
| Protocol.AbortReachesCaller | src/npb_rpc/_protocol.py:49-64 | an abort reaches the caller with status and details, and with its message exactly when that is not empty |
| Discovery.AscendingIsUnique | src/npb_rpc/_discovery.py:271 | sorted distinct names are determined by their set |
| Discovery.OrderIsLexicographic | src/npb_rpc/_discovery.py:271 | the order of names: the first difference decides, and a proper prefix comes first |
| Discovery.NamesExactly | src/npb_rpc/_discovery.py:22-40 | valid names: up to 128 ASCII letters, digits and, but not in front, hyphens, dots and underscores |
| Discovery.ListingIsDetermined | src/npb_rpc/_discovery.py:250-272 | any ascending list of exactly the healthy records is the listing, whatever order the files were met in |
| Discovery.ListedExactly | src/npb_rpc/_discovery.py:250-272 | a listing holds exactly the service's records whose heartbeat is at or after the cutoff, and pruning deletes exactly the others that can be read |
| Discovery.RegisteredIsListed | src/npb_rpc/_discovery.py:178-272 | a record registered with a fresh heartbeat is in the next listing |
| Discovery.UnregisteredIsGone | src/npb_rpc/_discovery.py:187-283 | an unregistered instance is neither listed nor resolved |
| Discovery.ServeAlike | src/npb_rpc/_discovery.py:178-283 | one operation: a registry that prunes and one that does not answer alike, and still differ only in stale records |
| Discovery.PruningIsTransparent | src/npb_rpc/_discovery.py:215-283 | so they answer every sequence of operations alike, given one timeout and a clock that does not go back |
| Discovery.RoundRobinIsFair | src/npb_rpc/_discovery.py:280-283 | k turns give each of n instances the whole laps, and one more exactly to those whose turn comes first |
| Discovery.ResolvesTakeTurns | src/npb_rpc/_discovery.py:274-283 | while the listing stays the same, resolutions go through it in turn |
| Discovery.ResolvingIsFair | src/npb_rpc/_discovery.py:274-283 | hence k resolutions return each instance floor(k / n) times, or once more exactly if its turn comes first |
| FilesystemRegistry.SortByOrders | src/npb_rpc/_discovery.py:271 | sorting keeps the elements and orders distinct names strictly |
| FilesystemRegistry.GatheredIsListing | src/npb_rpc/_discovery.py:262-272 | what one pass over a directory gathers and prunes, in any order of its files, is the listing and the pruned registry |
| FilesystemRegistry.PruneDir | src/npb_rpc/_discovery.py:239-246 | pruning the directories already seen leaves the next one's listing as it was |
| FilesystemRegistry.AliveIsLiving | src/npb_rpc/_discovery.py:239-248 | the directories found alive one by one are, sorted, the services with a healthy instance |
| FilesystemRegistry.FilesystemDiscovery.Register | src/npb_rpc/_discovery.py:178-185 | writes exactly this record under its names and leaves the rest; an invalid name changes nothing |
| FilesystemRegistry.FilesystemDiscovery.Unregister | src/npb_rpc/_discovery.py:187-198 | removes exactly this record and leaves the rest; an absent one is no error, an invalid name changes nothing |
| FilesystemRegistry.FilesystemDiscovery.PruneIfStillStale | src/npb_rpc/_discovery.py:215-225 | a record is deleted exactly if it is, on reading it again, unreadable or still stale |
| FilesystemRegistry.FilesystemDiscovery.ListInstances | src/npb_rpc/_discovery.py:250-272 | for files met in any order: exactly the service's records with a heartbeat within the timeout, in instance order; deletes exactly its stale ones, if it prunes |
| FilesystemRegistry.FilesystemDiscovery.Resolve | src/npb_rpc/_discovery.py:274-283 | a record of the service with a heartbeat within the timeout, whose turn it is, if there is one; the counter moves by one exactly then |
| FilesystemRegistry.FilesystemDiscovery.ListServices | src/npb_rpc/_discovery.py:227-248 | for directories and files met in any order, each directory listed at its own time: exactly the valid names with a record within the timeout, in order |
| Service.StepKeepsInv | src/npb_rpc/_service.py:119-159 | every step of either thread keeps the thread and record accounting |
| Service.NoResurrection | src/npb_rpc/_service.py:119-159 | in every interleaving, once the instance is unregistered it has no record, and no later step of that run writes one |
| Service.HeartbeatBeats | src/npb_rpc/_service.py:119-128 | each time its wait runs out before the stop event, the heartbeat thread writes the record, pruned or not, and waits again; after it, it writes no more |
| Service.EnteringBeats | src/npb_rpc/_service.py:132-147 | entering registers the instance, and a heartbeat thread that starts waits for its first beat when serving begins |
| Service.ServingBeats | src/npb_rpc/_service.py:139-147 | while the server serves, the heartbeat thread is alive |
| Service.RecordIsTold | src/npb_rpc/_service.py:130-159 | unless others prune it, the record is there from registration until unregistering succeeds |
| Service.FailuresAreTold | src/npb_rpc/_service.py:139-159 | whether a run met a failed thread start or a failed unregistration is told by its steps |
| Service.RecordLeftBehind | src/npb_rpc/_service.py:130-159 | unless others prune it, a run that has registered leaves its record exactly if one of its steps was a failed unregistration or a failed start of the heartbeat thread, and exactly in the latter case the server cannot be entered again |
| Service.StartFailureLeavesRecord | src/npb_rpc/_service.py:139-151 | a run that ends that way |
| Service.DiscoveredServer.JoinHeartbeat | src/npb_rpc/_service.py:119-151 | with the stop event set, the heartbeat thread ends after at most one more write, so the join returns |
| Service.DiscoveredServer.WindUp | src/npb_rpc/_service.py:148-159 | `finally` leaves no live heartbeat thread; it leaves the record, unless others prune it, exactly if the thread was never started or unregistering fails |
| Service.DiscoveredServer.ServeForever | src/npb_rpc/_service.py:130-159 | serve_forever ends in exactly one of four ways, told by its inputs, each with what it leaves of record, flag and heartbeat thread |

## Left out

- The hash field `updated_at`, which no script reads.
- Redis, Valkey, ZeroMQ and iceoryx2 themselves: scripts are atomic, stream IDs increase strictly, trimming is exact,
  reads return the oldest entries first and come back empty only at their timeout, queues are first-in first-out.
- URL handling, client caching, key names beyond one key pair per slot, and the validation of argument types and
  ranges; the validated ranges are the preconditions of the event methods.
- JSON text, UTF-8, UUID parsing and the NPB codec: parameters. JSON numbers that are not finite do not occur.
- The library's `decode` of a payload is a predicate; which model object it yields is not modelled.
- One client of a ZeroMQ server: its other peers have queues of their own. Socket errors while the server receives or
  sends are left out, and so are the client's checks for the number of frames and for a request envelope, neither
  of which this server ever sends it.
- The texts of exceptions and the printed form of a limit, which appear in error messages: parameters.
- Nesting so deep that one end's interpreter writes what the other's cannot read: text that `dumps` produces is
  taken to be readable.
- `_send_model`'s direct encoding into the loan; `Framing.SendPayload` covers the path by `_send_payload`.
- Ownership.OwnershipIsLinear: deletes that raise and `KeyboardInterrupt` inside `_start_call` are excluded; the code
  does not release the lock there.
- The deletion of the port by a concurrent client close, and two concurrent client closes.
- The server side of iceoryx2, which follows the dispatch pattern of the ZeroMQ server.
- Idle wait strategies and poll intervals.
- The checks of `_validate_response`, whose result is an argument of the iceoryx2 calls.
- Service.NoResurrection: serve_forever is entered by one thread at a time, so two threads racing past the check of
  `_registered` are not modelled.
- Filesystem details (temporary files, synchronisation, renaming, empty directories, read errors of a directory), and
  the window between the second reading of a stale record and its removal, in which a heartbeat may be lost.
- Discovery.ListingIsDetermined: registry files are those that `register` writes, so a record lies under its own names.
- The threads of Ownership and Service are step systems: a class field holds the shared state as one value, and the
  class methods are the code of one thread with the others' steps in between.
- `_nng.py`, `RedisDiscovery`, the service decorators, generated clients, examples and benchmarks: they add no harder
  property.

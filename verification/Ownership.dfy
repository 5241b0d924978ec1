/** Who owns what in an iceoryx2 client: the call lock, the pending request and the response sample, for
    any interleaving of calls, of closers of lent responses, and of the client's own close.

    A call is numbered, its phase is the point its thread has reached, and every step below is one
    action on shared state. Deletes are assumed not to fail. */
module Ownership {
  import opened Wrappers

  /** Where one execution of close() on a lent response has got to. */
  datatype Closer = Checking | DeletingSample | DeletingPending | Marking | Unlocking | Finished

  datatype Phase =
    | WantsLock
    | Looping(pending: Option<nat>)               // at the top of the loop of _start_call
    | Sending
    | Unreached(request: nat)                     // sent, but no server was connected
    | Receiving(request: nat)
    | Validating(request: nat, sample: nat)
    | DroppingSample(request: nat, sample: nat)   // cleaning up, with the lock still held
    | DroppingPending(request: nat)
    | Releasing
    | Lent(request: nat, sample: nat, closed: bool, closers: seq<Closer>)
    | Done

  /** A pending request or a response sample: the call it was obtained for, how often it has been
      deleted, and (for requests) whether it reached a server. */
  datatype Resource = Resource(owner: nat, deletes: nat, reached: bool)

  datatype Sys = Sys(
    lock: Option<nat>,
    calls: map<nat, Phase>,
    pendings: seq<Resource>,
    samples: seq<Resource>,
    closing: bool,
    strays: nat)        // releases of the lock by a call that did not hold it

  const INIT := Sys(None, map[], [], [], false, 0)

  datatype SendResult = SendRaises | Sent(reached: bool) | SentThenRaises(reached: bool)

  datatype ReceiveResult = ReceiveRaises | Nothing | Response

  datatype Step =
    | Begin(call: nat)
    | Acquire(call: nat)
    | AcquireTimesOut(call: nat)
    | CheckRound(call: nat, expired: bool)
    | Send(call: nat, sent: SendResult)
    | DropUnreached(call: nat)
    | Receive(call: nat, received: ReceiveResult)
    | Validate(call: nat, lends: bool)
    | DropSample(call: nat)
    | DropPending(call: nat)
    | Release(call: nat)
    | CallClose(call: nat)
    | CloserStep(call: nat, closer: nat)
    | CloseClient

  predicate Enabled(s: Sys, step: Step) {
    match step
    case Begin(c) => c !in s.calls
    case Acquire(c) => c in s.calls && s.calls[c].WantsLock? && s.lock.None?
    case AcquireTimesOut(c) => c in s.calls && s.calls[c].WantsLock?
    case CheckRound(c, _) => c in s.calls && s.calls[c].Looping?
    case Send(c, _) => c in s.calls && s.calls[c].Sending?
    case DropUnreached(c) => c in s.calls && s.calls[c].Unreached? && s.calls[c].request < |s.pendings|
    case Receive(c, _) => c in s.calls && s.calls[c].Receiving?
    case Validate(c, _) => c in s.calls && s.calls[c].Validating?
    case DropSample(c) => c in s.calls && s.calls[c].DroppingSample? && s.calls[c].sample < |s.samples|
    case DropPending(c) => c in s.calls && s.calls[c].DroppingPending? && s.calls[c].request < |s.pendings|
    case Release(c) => c in s.calls && s.calls[c].Releasing?
    case CallClose(c) => c in s.calls && s.calls[c].Lent?
    case CloserStep(c, i) =>
      && c in s.calls && s.calls[c].Lent? && i < |s.calls[c].closers| && !s.calls[c].closers[i].Finished?
      && s.calls[c].sample < |s.samples| && s.calls[c].request < |s.pendings|
    case CloseClient => true
  }

  function At(s: Sys, c: nat, p: Phase): Sys {
    s.(calls := s.calls[c := p])
  }

  function Deleted(rs: seq<Resource>, k: nat): seq<Resource>
    requires k < |rs|
  {
    rs[k := rs[k].(deletes := rs[k].deletes + 1)]
  }

  /** threading.Lock.release: whoever calls it, the lock is free afterwards. */
  function Unlocked(s: Sys, c: nat): Sys {
    s.(lock := None, strays := if s.lock == Some(c) then s.strays else s.strays + 1)
  }

  function Fail(pending: Option<nat>): Phase {
    if pending.None? then Releasing else DroppingPending(pending.value)
  }

  function CloserNext(s: Sys, c: nat, i: nat): Sys
    requires Enabled(s, CloserStep(c, i))
  {
    var Lent(request, sample, closed, closers) := s.calls[c];
    match closers[i]
    case Checking =>
      At(s, c, Lent(request, sample, closed, closers[i := if closed then Finished else DeletingSample]))
    case DeletingSample =>
      At(s, c, Lent(request, sample, closed, closers[i := DeletingPending])).(samples := Deleted(s.samples, sample))
    case DeletingPending =>
      At(s, c, Lent(request, sample, closed, closers[i := Marking])).(pendings := Deleted(s.pendings, request))
    case Marking =>
      At(s, c, Lent(request, sample, true, closers[i := Unlocking]))
    case Unlocking =>
      Unlocked(At(s, c, Lent(request, sample, closed, closers[i := Finished])), c)
  }

  function Next(s: Sys, step: Step): Sys
    requires Enabled(s, step)
  {
    match step
    case Begin(c) => At(s, c, if s.closing then Done else WantsLock)
    case Acquire(c) => At(s, c, Looping(None)).(lock := Some(c))
    case AcquireTimesOut(c) => At(s, c, Done)
    case CheckRound(c, expired) =>
      var pending := s.calls[c].pending;
      if s.closing || expired then At(s, c, Fail(pending))
      else At(s, c, if pending.None? then Sending else Receiving(pending.value))
    case Send(c, sent) => (
      var k := |s.pendings|;
      match sent
      case SendRaises => At(s, c, Releasing)
      case Sent(reached) =>
        At(s, c, if reached then Receiving(k) else Unreached(k)).(pendings := s.pendings + [Resource(c, 0, reached)])
      case SentThenRaises(reached) =>
        At(s, c, DroppingPending(k)).(pendings := s.pendings + [Resource(c, 0, reached)])
      )
    case DropUnreached(c) =>
      At(s, c, Looping(None)).(pendings := Deleted(s.pendings, s.calls[c].request))
    case Receive(c, received) => (
      var k := s.calls[c].request;
      match received
      case ReceiveRaises => At(s, c, DroppingPending(k))
      case Nothing => At(s, c, Looping(Some(k)))
      case Response => At(s, c, Validating(k, |s.samples|)).(samples := s.samples + [Resource(c, 0, true)])
      )
    case Validate(c, lends) =>
      var Validating(request, sample) := s.calls[c];
      At(s, c, if lends then Lent(request, sample, false, []) else DroppingSample(request, sample))
    case DropSample(c) =>
      At(s, c, DroppingPending(s.calls[c].request)).(samples := Deleted(s.samples, s.calls[c].sample))
    case DropPending(c) =>
      At(s, c, Releasing).(pendings := Deleted(s.pendings, s.calls[c].request))
    case Release(c) => Unlocked(At(s, c, Done), c)
    case CallClose(c) => At(s, c, s.calls[c].(closers := s.calls[c].closers + [Checking]))
    case CloserStep(c, i) => CloserNext(s, c, i)
    case CloseClient => s.(closing := true)
  }

  // ----- the invariant

  /** Past the check, and not yet through with marking the response closed. */
  predicate Busy(k: Closer) {
    k.DeletingSample? || k.DeletingPending? || k.Marking?
  }

  /** No closer's check falls between the check and the marking of another closer of the same response. */
  predicate NoOverlap(s: Sys, step: Step)
    requires Enabled(s, step)
  {
    step.CloserStep? && s.calls[step.call].closers[step.closer].Checking? && !s.calls[step.call].closed ==>
      forall j :: 0 <= j < |s.calls[step.call].closers| ==> !Busy(s.calls[step.call].closers[j])
  }

  predicate Holding(p: Phase) {
    match p
    case WantsLock => false
    case Done => false
    case Lent(_, _, closed, closers) => !closed || Unlocking in closers
    case _ => true
  }

  /** The pending request that a call in this phase still has to delete. */
  function PendingOf(p: Phase): Option<nat> {
    match p
    case Looping(pending) => pending
    case Unreached(k) => Some(k)
    case Receiving(k) => Some(k)
    case Validating(k, _) => Some(k)
    case DroppingSample(k, _) => Some(k)
    case DroppingPending(k) => Some(k)
    case Lent(k, _, closed, closers) => if closed || Marking in closers then None else Some(k)
    case _ => None
  }

  function SampleOf(p: Phase): Option<nat> {
    match p
    case Validating(_, k) => Some(k)
    case DroppingSample(_, k) => Some(k)
    case Lent(_, k, closed, closers) =>
      if closed || DeletingPending in closers || Marking in closers then None else Some(k)
    case _ => None
  }

  predicate OneCloserAtATime(p: Phase) {
    p.Lent? ==>
      && (forall i, j :: 0 <= i < j < |p.closers| ==> !(Busy(p.closers[i]) && Busy(p.closers[j])))
      && (forall i, j :: 0 <= i < j < |p.closers| ==> !(p.closers[i].Unlocking? && p.closers[j].Unlocking?))
      && (forall i :: 0 <= i < |p.closers| ==>
            && (Busy(p.closers[i]) ==> !p.closed)
            && (p.closers[i].Unlocking? ==> p.closed))
  }

  /** Phases from which the call might still send. */
  predicate MaySend(p: Phase) {
    p.WantsLock? || p == Looping(None) || p.Sending? || p.Unreached?
  }

  ghost predicate LockOwned(s: Sys) {
    && (forall c :: c in s.calls ==> (Holding(s.calls[c]) <==> s.lock == Some(c)))
    && (s.lock.Some? ==> s.lock.value in s.calls)
  }

  /** A resource is undeleted exactly while its call's phase says that it is to be deleted, and has
      been deleted exactly once from then on. */
  ghost predicate Accounted(calls: map<nat, Phase>, rs: seq<Resource>, of: Phase -> Option<nat>) {
    && (forall k :: 0 <= k < |rs| ==>
          rs[k].owner in calls && rs[k].deletes == if of(calls[rs[k].owner]) == Some(k) then 0 else 1)
    && (forall c :: c in calls && of(calls[c]).Some? ==>
          of(calls[c]).value < |rs| && rs[of(calls[c]).value].owner == c)
  }

  ghost predicate NeverResent(s: Sys) {
    forall k :: 0 <= k < |s.pendings| && s.pendings[k].reached ==>
      && s.pendings[k].owner in s.calls && !MaySend(s.calls[s.pendings[k].owner])
      && forall j :: k < j < |s.pendings| ==> s.pendings[j].owner != s.pendings[k].owner
  }

  ghost predicate LentExists(s: Sys) {
    forall c :: c in s.calls && s.calls[c].Lent? ==> s.calls[c].sample < |s.samples| && s.calls[c].request < |s.pendings|
  }

  ghost predicate Inv(s: Sys) {
    && LentExists(s)
    && LockOwned(s)
    && Accounted(s.calls, s.pendings, PendingOf)
    && Accounted(s.calls, s.samples, SampleOf)
    && NeverResent(s)
    && (forall c :: c in s.calls ==> OneCloserAtATime(s.calls[c]))
    && s.strays == 0
  }

  // ----- how the parts of the invariant change

  lemma AccountedSame(calls: map<nat, Phase>, rs: seq<Resource>, of: Phase -> Option<nat>, c: nat, p: Phase)
    requires Accounted(calls, rs, of)
    requires of(p) == if c in calls then of(calls[c]) else None
    ensures Accounted(calls[c := p], rs, of)
  {
  }

  lemma AccountedNew(calls: map<nat, Phase>, rs: seq<Resource>, of: Phase -> Option<nat>, c: nat, p: Phase, reached: bool)
    requires Accounted(calls, rs, of) && c in calls
    requires of(calls[c]) == None && of(p) == Some(|rs|)
    ensures Accounted(calls[c := p], rs + [Resource(c, 0, reached)], of)
  {
  }

  lemma AccountedDeleted(calls: map<nat, Phase>, rs: seq<Resource>, of: Phase -> Option<nat>, c: nat, p: Phase, k: nat)
    requires Accounted(calls, rs, of) && c in calls
    requires of(calls[c]) == Some(k) && of(p) == None
    ensures k < |rs| && Accounted(calls[c := p], Deleted(rs, k), of)
  {
  }

  /** A step of one call that keeps the lock where it is. */
  lemma LockSame(s: Sys, s': Sys, c: nat, p: Phase)
    requires LockOwned(s) && s'.lock == s.lock && s'.calls == s.calls[c := p]
    requires Holding(p) == (c in s.calls && Holding(s.calls[c]))
    ensures LockOwned(s')
  {
  }

  lemma ResentSame(s: Sys, s': Sys, c: nat, p: Phase)
    requires NeverResent(s) && s'.calls == s.calls[c := p]
    requires |s'.pendings| == |s.pendings|
    requires forall k :: 0 <= k < |s.pendings| ==>
               s'.pendings[k].owner == s.pendings[k].owner && s'.pendings[k].reached == s.pendings[k].reached
    requires MaySend(p) ==> if c in s.calls then MaySend(s.calls[c])
                            else forall k :: 0 <= k < |s.pendings| ==> s.pendings[k].owner != c
    ensures NeverResent(s')
  {
  }

  lemma ResentNew(s: Sys, s': Sys, c: nat, p: Phase, reached: bool)
    requires NeverResent(s) && c in s.calls && MaySend(s.calls[c]) && s'.calls == s.calls[c := p]
    requires s'.pendings == s.pendings + [Resource(c, 0, reached)]
    requires reached ==> !MaySend(p)
    ensures NeverResent(s')
  {
    forall k | 0 <= k < |s'.pendings| && s'.pendings[k].reached
      ensures s'.pendings[k].owner in s'.calls && !MaySend(s'.calls[s'.pendings[k].owner])
      ensures forall j :: k < j < |s'.pendings| ==> s'.pendings[j].owner != s'.pendings[k].owner
    {
      if k < |s.pendings| {
        assert s'.pendings[k] == s.pendings[k];
        assert s.pendings[k].owner != c;
      }
    }
  }

  lemma LentSame(s: Sys, s': Sys, c: nat, p: Phase)
    requires LentExists(s) && s'.calls == s.calls[c := p]
    requires |s'.pendings| >= |s.pendings| && |s'.samples| >= |s.samples|
    requires p.Lent? ==> && c in s.calls
                         && match s.calls[c]
                            case Lent(request, sample, _, _) => p.request == request && p.sample == sample
                            case Validating(request, sample) =>
                              && p.request == request && p.sample == sample
                              && request < |s.pendings| && sample < |s.samples|
                            case _ => false
    ensures LentExists(s')
  {
  }

  lemma OneAtATimeMove(s: Sys, s': Sys, c: nat, p: Phase)
    requires forall d :: d in s.calls ==> OneCloserAtATime(s.calls[d])
    requires s'.calls == s.calls[c := p] && OneCloserAtATime(p)
    ensures forall d :: d in s'.calls ==> OneCloserAtATime(s'.calls[d])
  {
  }

  // ----- every step keeps the invariant

  /** Steps that neither take nor give back anything. */
  lemma QuietStepKeepsInv(s: Sys, s': Sys, c: nat, p: Phase)
    requires Inv(s) && c in s.calls && s' == At(s, c, p)
    requires Holding(p) == Holding(s.calls[c]) && OneCloserAtATime(p)
    requires PendingOf(p) == PendingOf(s.calls[c]) && SampleOf(p) == SampleOf(s.calls[c])
    requires MaySend(p) ==> MaySend(s.calls[c])
    requires p.Lent? ==>
               || (s.calls[c].Lent? && p.request == s.calls[c].request && p.sample == s.calls[c].sample)
               || s.calls[c] == Validating(p.request, p.sample)
    ensures Inv(s')
  {
    assert s.calls[c].Validating? ==> s.calls[c].request < |s.pendings| && s.calls[c].sample < |s.samples|;
    hide Accounted, LockOwned, NeverResent, LentExists, Holding, PendingOf, SampleOf, OneCloserAtATime, MaySend;
    AccountedSame(s.calls, s.pendings, PendingOf, c, p);
    AccountedSame(s.calls, s.samples, SampleOf, c, p);
    LockSame(s, s', c, p);
    ResentSame(s, s', c, p);
    OneAtATimeMove(s, s', c, p);
    LentSame(s, s', c, p);
  }

  lemma BeginKeepsInv(s: Sys, c: nat)
    requires Inv(s) && Enabled(s, Begin(c))
    ensures Inv(Next(s, Begin(c)))
  {
    var s' := Next(s, Begin(c));
    var p := s'.calls[c];
    assert forall k :: 0 <= k < |s.pendings| ==> s.pendings[k].owner != c;
    hide Accounted, LockOwned, NeverResent, LentExists;
    AccountedSame(s.calls, s.pendings, PendingOf, c, p);
    AccountedSame(s.calls, s.samples, SampleOf, c, p);
    LockSame(s, s', c, p);
    ResentSame(s, s', c, p);
    OneAtATimeMove(s, s', c, p);
    LentSame(s, s', c, p);
  }

  lemma AcquireKeepsInv(s: Sys, c: nat)
    requires Inv(s) && Enabled(s, Acquire(c))
    ensures Inv(Next(s, Acquire(c)))
  {
    var s' := Next(s, Acquire(c));
    var p := Looping(None);
    hide Accounted, NeverResent, LentExists;
    assert LockOwned(s');
    hide LockOwned;
    AccountedSame(s.calls, s.pendings, PendingOf, c, p);
    AccountedSame(s.calls, s.samples, SampleOf, c, p);
    ResentSame(s, s', c, p);
    OneAtATimeMove(s, s', c, p);
    LentSame(s, s', c, p);
  }

  lemma SentKeepsInv(s: Sys, c: nat, p: Phase, reached: bool)
    requires Inv(s) && Enabled(s, Send(c, Sent(reached)))
    requires p == (if reached then Receiving(|s.pendings|) else Unreached(|s.pendings|)) || p == DroppingPending(|s.pendings|)
    ensures Inv(At(s, c, p).(pendings := s.pendings + [Resource(c, 0, reached)]))
  {
    var s' := At(s, c, p).(pendings := s.pendings + [Resource(c, 0, reached)]);
    hide Accounted, LockOwned, NeverResent, LentExists;
    AccountedNew(s.calls, s.pendings, PendingOf, c, p, reached);
    AccountedSame(s.calls, s.samples, SampleOf, c, p);
    LockSame(s, s', c, p);
    ResentNew(s, s', c, p, reached);
    OneAtATimeMove(s, s', c, p);
    LentSame(s, s', c, p);
  }

  lemma ReceivedKeepsInv(s: Sys, c: nat)
    requires Inv(s) && Enabled(s, Receive(c, Response))
    ensures Inv(Next(s, Receive(c, Response)))
  {
    var s' := Next(s, Receive(c, Response));
    var p := s'.calls[c];
    hide Accounted, LockOwned, NeverResent, LentExists;
    AccountedSame(s.calls, s.pendings, PendingOf, c, p);
    AccountedNew(s.calls, s.samples, SampleOf, c, p, true);
    LockSame(s, s', c, p);
    ResentSame(s, s', c, p);
    OneAtATimeMove(s, s', c, p);
    LentSame(s, s', c, p);
  }

  lemma DeletePendingKeepsInv(s: Sys, s': Sys, c: nat, p: Phase, k: nat)
    requires Inv(s) && c in s.calls && k < |s.pendings| && s' == At(s, c, p).(pendings := Deleted(s.pendings, k))
    requires Holding(p) == Holding(s.calls[c]) && OneCloserAtATime(p)
    requires PendingOf(s.calls[c]) == Some(k) && PendingOf(p) == None && SampleOf(p) == SampleOf(s.calls[c])
    requires MaySend(p) ==> MaySend(s.calls[c])
    requires p.Lent? ==> s.calls[c].Lent? && p.request == s.calls[c].request && p.sample == s.calls[c].sample
    ensures Inv(s')
  {
    hide Accounted, LockOwned, NeverResent, LentExists, Holding, PendingOf, SampleOf, OneCloserAtATime, MaySend;
    AccountedDeleted(s.calls, s.pendings, PendingOf, c, p, k);
    AccountedSame(s.calls, s.samples, SampleOf, c, p);
    LockSame(s, s', c, p);
    ResentSame(s, s', c, p);
    OneAtATimeMove(s, s', c, p);
    LentSame(s, s', c, p);
  }

  lemma DeleteSampleKeepsInv(s: Sys, s': Sys, c: nat, p: Phase, k: nat)
    requires Inv(s) && c in s.calls && k < |s.samples| && s' == At(s, c, p).(samples := Deleted(s.samples, k))
    requires Holding(p) == Holding(s.calls[c]) && OneCloserAtATime(p)
    requires SampleOf(s.calls[c]) == Some(k) && SampleOf(p) == None && PendingOf(p) == PendingOf(s.calls[c])
    requires MaySend(p) ==> MaySend(s.calls[c])
    requires p.Lent? ==> s.calls[c].Lent? && p.request == s.calls[c].request && p.sample == s.calls[c].sample
    ensures Inv(s')
  {
    hide Accounted, LockOwned, NeverResent, LentExists, Holding, PendingOf, SampleOf, OneCloserAtATime, MaySend;
    AccountedSame(s.calls, s.pendings, PendingOf, c, p);
    AccountedDeleted(s.calls, s.samples, SampleOf, c, p, k);
    LockSame(s, s', c, p);
    ResentSame(s, s', c, p);
    OneAtATimeMove(s, s', c, p);
    LentSame(s, s', c, p);
  }

  lemma UnlockKeepsInv(s: Sys, c: nat, p: Phase)
    requires Inv(s) && c in s.calls && Holding(s.calls[c]) && !Holding(p) && OneCloserAtATime(p)
    requires PendingOf(p) == PendingOf(s.calls[c]) && SampleOf(p) == SampleOf(s.calls[c])
    requires MaySend(p) ==> MaySend(s.calls[c])
    requires p.Lent? ==> s.calls[c].Lent? && p.request == s.calls[c].request && p.sample == s.calls[c].sample
    ensures Inv(Unlocked(At(s, c, p), c))
  {
    var s' := Unlocked(At(s, c, p), c);
    hide Accounted, NeverResent, LentExists, Holding, PendingOf, SampleOf, OneCloserAtATime, MaySend;
    assert LockOwned(s') && s'.strays == 0;
    hide LockOwned;
    AccountedSame(s.calls, s.pendings, PendingOf, c, p);
    AccountedSame(s.calls, s.samples, SampleOf, c, p);
    ResentSame(s, s', c, p);
    OneAtATimeMove(s, s', c, p);
    LentSame(s, s', c, p);
  }

  /** One closer's step, seen on the phase of the lent response alone. */
  lemma CloserPhaseStep(p: Phase, closed: bool, i: nat, next: Closer)
    requires p.Lent? && OneCloserAtATime(p) && i < |p.closers|
    requires closed == (p.closed || p.closers[i].Marking?)
    requires match p.closers[i]
             case Checking =>
               && next == (if p.closed then Finished else DeletingSample)
               && (!p.closed ==> forall j :: 0 <= j < |p.closers| ==> !Busy(p.closers[j]))
             case DeletingSample => next == DeletingPending
             case DeletingPending => next == Marking
             case Marking => next == Unlocking
             case Unlocking => next == Finished
             case Finished => false
    ensures var p' := Lent(p.request, p.sample, closed, p.closers[i := next]);
            && OneCloserAtATime(p')
            && if p.closers[i].Unlocking? then Holding(p) && !Holding(p') else Holding(p') == Holding(p)
    ensures var p' := Lent(p.request, p.sample, closed, p.closers[i := next]);
            && (if p.closers[i].DeletingSample? then SampleOf(p) == Some(p.sample) && SampleOf(p') == None
                else SampleOf(p') == SampleOf(p))
            && (if p.closers[i].DeletingPending? then PendingOf(p) == Some(p.request) && PendingOf(p') == None
                else PendingOf(p') == PendingOf(p))
  {
    var ks := p.closers;
    var ks' := ks[i := next];
    forall k | k != ks[i] && k != next ensures k in ks' <==> k in ks {
      if k in ks {
        var j :| 0 <= j < |ks| && ks[j] == k;
        assert ks'[j] == k;
      }
    }
    assert ks'[i] == next;
    assert ks[i] in ks;
  }

  lemma CheckOrMarkKeepsInv(s: Sys, c: nat, i: nat)
    requires Inv(s) && Enabled(s, CloserStep(c, i)) && NoOverlap(s, CloserStep(c, i))
    requires s.calls[c].closers[i].Checking? || s.calls[c].closers[i].Marking?
    ensures Inv(CloserNext(s, c, i))
  {
    var p := s.calls[c];
    assert OneCloserAtATime(p);
    hide Inv;
    var s' := CloserNext(s, c, i);
    var p' := s'.calls[c];
    CloserPhaseStep(p, p'.closed, i, p'.closers[i]);
    hide Holding, PendingOf, SampleOf, OneCloserAtATime, Busy;
    QuietStepKeepsInv(s, s', c, p');
  }

  lemma CloserDeletesSample(s: Sys, c: nat, i: nat)
    requires Inv(s) && Enabled(s, CloserStep(c, i)) && NoOverlap(s, CloserStep(c, i))
    requires s.calls[c].closers[i].DeletingSample?
    ensures Inv(CloserNext(s, c, i))
  {
    var p := s.calls[c];
    assert OneCloserAtATime(p);
    hide Inv;
    var s' := CloserNext(s, c, i);
    var p' := s'.calls[c];
    CloserPhaseStep(p, p'.closed, i, p'.closers[i]);
    hide Holding, PendingOf, SampleOf, OneCloserAtATime, Busy;
    DeleteSampleKeepsInv(s, s', c, p', p.sample);
  }

  lemma CloserDeletesPending(s: Sys, c: nat, i: nat)
    requires Inv(s) && Enabled(s, CloserStep(c, i)) && NoOverlap(s, CloserStep(c, i))
    requires s.calls[c].closers[i].DeletingPending?
    ensures Inv(CloserNext(s, c, i))
  {
    var p := s.calls[c];
    assert OneCloserAtATime(p);
    hide Inv;
    var s' := CloserNext(s, c, i);
    var p' := s'.calls[c];
    CloserPhaseStep(p, p'.closed, i, p'.closers[i]);
    hide Holding, PendingOf, SampleOf, OneCloserAtATime, Busy;
    DeletePendingKeepsInv(s, s', c, p', p.request);
  }

  lemma CloserUnlocks(s: Sys, c: nat, i: nat)
    requires Inv(s) && Enabled(s, CloserStep(c, i)) && NoOverlap(s, CloserStep(c, i))
    requires s.calls[c].closers[i].Unlocking?
    ensures Inv(CloserNext(s, c, i))
  {
    var p := s.calls[c];
    assert OneCloserAtATime(p);
    hide Inv;
    var s' := CloserNext(s, c, i);
    var p' := s'.calls[c];
    CloserPhaseStep(p, p'.closed, i, p'.closers[i]);
    hide Holding, PendingOf, SampleOf, OneCloserAtATime, Busy;
    UnlockKeepsInv(s, c, p');
  }

  lemma CloserKeepsInv(s: Sys, c: nat, i: nat)
    requires Inv(s) && Enabled(s, CloserStep(c, i)) && NoOverlap(s, CloserStep(c, i))
    ensures Inv(CloserNext(s, c, i))
  {
    hide Inv, NoOverlap, CloserNext;
    match s.calls[c].closers[i]
    case Checking => CheckOrMarkKeepsInv(s, c, i);
    case DeletingSample => CloserDeletesSample(s, c, i);
    case DeletingPending => CloserDeletesPending(s, c, i);
    case Marking => CheckOrMarkKeepsInv(s, c, i);
    case Unlocking => CloserUnlocks(s, c, i);
  }

  lemma OpenCloserKeepsInv(s: Sys, c: nat)
    requires Inv(s) && Enabled(s, CallClose(c))
    ensures Inv(Next(s, CallClose(c)))
  {
    var p := s.calls[c];
    assert OneCloserAtATime(p);
    hide Inv;
    var p' := p.(closers := p.closers + [Checking]);
    OpenCloserPhase(p);
    hide Holding, PendingOf, SampleOf, OneCloserAtATime;
    QuietStepKeepsInv(s, Next(s, CallClose(c)), c, p');
  }

  lemma OpenCloserPhase(p: Phase)
    requires p.Lent? && OneCloserAtATime(p)
    ensures var p' := p.(closers := p.closers + [Checking]);
            && OneCloserAtATime(p') && Holding(p') == Holding(p)
            && PendingOf(p') == PendingOf(p) && SampleOf(p') == SampleOf(p)
  {
    var p' := p.(closers := p.closers + [Checking]);
    assert forall k: Closer :: k != Checking ==> (k in p'.closers <==> k in p.closers);
  }

  lemma StepKeepsInv(s: Sys, step: Step)
    requires Inv(s) && Enabled(s, step) && NoOverlap(s, step)
    ensures Inv(Next(s, step))
  {
    hide Inv;
    var s' := Next(s, step);
    match step
    case Begin(c) => BeginKeepsInv(s, c);
    case Acquire(c) => AcquireKeepsInv(s, c);
    case AcquireTimesOut(c) => QuietStepKeepsInv(s, s', c, s'.calls[c]);
    case CheckRound(c, _) => QuietStepKeepsInv(s, s', c, s'.calls[c]);
    case Send(c, sent) =>
      if sent.SendRaises? { QuietStepKeepsInv(s, s', c, s'.calls[c]); }
      else { SentKeepsInv(s, c, s'.calls[c], sent.reached); }
    case DropUnreached(c) => DeletePendingKeepsInv(s, s', c, s'.calls[c], s.calls[c].request);
    case Receive(c, received) =>
      if received.Response? { ReceivedKeepsInv(s, c); }
      else { QuietStepKeepsInv(s, s', c, s'.calls[c]); }
    case Validate(c, _) => QuietStepKeepsInv(s, s', c, s'.calls[c]);
    case DropSample(c) => DeleteSampleKeepsInv(s, s', c, s'.calls[c], s.calls[c].sample);
    case DropPending(c) => DeletePendingKeepsInv(s, s', c, s'.calls[c], s.calls[c].request);
    case Release(c) => UnlockKeepsInv(s, c, Done);
    case CallClose(c) => OpenCloserKeepsInv(s, c);
    case CloserStep(c, i) => CloserKeepsInv(s, c, i);
    case CloseClient => ClosingKeepsInv(s);
  }

  lemma ClosingKeepsInv(s: Sys)
    requires Inv(s)
    ensures Inv(s.(closing := true))
  {
    hide Accounted;
    assert LockOwned(s.(closing := true)) && NeverResent(s.(closing := true)) && LentExists(s.(closing := true));
  }

  // ----- runs

  /** A run from the initial state in which every step is enabled when it is taken. */
  ghost predicate IsRun(s: Sys, steps: seq<Step>, end: Sys)
    decreases |steps|
  {
    if steps == [] then s == end
    else Enabled(s, steps[0]) && IsRun(Next(s, steps[0]), steps[1..], end)
  }

  ghost predicate WithoutOverlap(s: Sys, steps: seq<Step>, end: Sys)
    requires IsRun(s, steps, end)
    decreases |steps|
  {
    steps == [] || (NoOverlap(s, steps[0]) && WithoutOverlap(Next(s, steps[0]), steps[1..], end))
  }

  lemma {:induction false} RunKeepsInv(s: Sys, steps: seq<Step>, end: Sys)
    requires Inv(s) && IsRun(s, steps, end) && WithoutOverlap(s, steps, end)
    ensures Inv(end)
    decreases |steps|
  {
    hide Inv, Next, Enabled, NoOverlap;
    if steps != [] {
      StepKeepsInv(s, steps[0]);
      RunKeepsInv(Next(s, steps[0]), steps[1..], end);
    }
  }

  /** Linear ownership: in every run in which no two closes of one response overlap, at most one request
      is live, and it belongs to the call that holds the lock; nothing is ever deleted twice; whatever a
      finished call obtained is deleted exactly once and it no longer holds the lock; the lock is never
      released by anyone but its owner; and a call sends nothing after a request that reached a server. */
  lemma OwnershipIsLinear(steps: seq<Step>, end: Sys)
    requires IsRun(INIT, steps, end) && WithoutOverlap(INIT, steps, end)
    ensures forall j, k :: 0 <= j < k < |end.pendings| ==> end.pendings[j].deletes > 0 || end.pendings[k].deletes > 0
    ensures forall k :: 0 <= k < |end.pendings| && end.pendings[k].deletes == 0 ==> end.lock == Some(end.pendings[k].owner)
    ensures forall k :: 0 <= k < |end.samples| && end.samples[k].deletes == 0 ==> end.lock == Some(end.samples[k].owner)
    ensures forall k :: 0 <= k < |end.pendings| ==> end.pendings[k].deletes <= 1
    ensures forall k :: 0 <= k < |end.samples| ==> end.samples[k].deletes <= 1
    ensures forall c :: c in end.calls && Over(end.calls[c]) ==>
              && end.lock != Some(c)
              && (forall k :: 0 <= k < |end.pendings| && end.pendings[k].owner == c ==> end.pendings[k].deletes == 1)
              && (forall k :: 0 <= k < |end.samples| && end.samples[k].owner == c ==> end.samples[k].deletes == 1)
    ensures end.strays == 0
    ensures forall j, k :: 0 <= j < k < |end.pendings| && end.pendings[j].reached ==>
              end.pendings[j].owner != end.pendings[k].owner
  {
    RunKeepsInv(INIT, steps, end);
    forall k | 0 <= k < |end.pendings| && end.pendings[k].deletes == 0
      ensures end.lock == Some(end.pendings[k].owner) && PendingOf(end.calls[end.pendings[k].owner]) == Some(k)
    {
      LiveMeansHolding(end.calls[end.pendings[k].owner]);
    }
    forall k | 0 <= k < |end.samples| && end.samples[k].deletes == 0
      ensures end.lock == Some(end.samples[k].owner)
    {
      LiveMeansHolding(end.calls[end.samples[k].owner]);
    }
    forall c | c in end.calls && Over(end.calls[c])
      ensures end.lock != Some(c) && PendingOf(end.calls[c]) == None && SampleOf(end.calls[c]) == None
    {
      OverMeansNothingHeld(end.calls[c]);
    }
    hide PendingOf, SampleOf, Holding, OneCloserAtATime, Over;
  }

  /** The call has returned or raised, and what it lent has been closed. */
  predicate Over(p: Phase) {
    p.Done? || (p.Lent? && p.closed && Unlocking !in p.closers)
  }

  lemma LiveMeansHolding(p: Phase)
    requires OneCloserAtATime(p) && (PendingOf(p).Some? || SampleOf(p).Some?)
    ensures Holding(p)
  {
  }

  lemma OverMeansNothingHeld(p: Phase)
    requires Over(p)
    ensures !Holding(p) && PendingOf(p) == None && SampleOf(p) == None
  {
  }

  // ----- closing the client

  /** A closed client stays closed; it begins no call, and every check of a running one ends it, so that
      nothing new is sent. */
  lemma ClosedForGood(s: Sys, step: Step)
    requires Enabled(s, step)
    ensures step.CloseClient? ==> Next(s, step) == s.(closing := true)
    ensures s.closing ==> Next(s, step).closing
    ensures s.closing && step.Begin? ==> Next(s, step).calls[step.call] == Done
    ensures s.closing && step.CheckRound? ==>
              Next(s, step).calls[step.call]
              == if s.calls[step.call].pending.None? then Releasing else DroppingPending(s.calls[step.call].pending.value)
    ensures s.closing ==> forall c :: c in Next(s, step).calls && Next(s, step).calls[c].Sending? ==>
                                        c in s.calls && s.calls[c].Sending?
    ensures |Next(s, step).pendings| > |s.pendings| ==> step.Send? && s.calls[step.call].Sending?
  {
  }

  // ----- what an overlap does

  function Rank(k: Closer): nat {
    match k
    case Checking => 5
    case DeletingSample => 4
    case DeletingPending => 3
    case Marking => 2
    case Unlocking => 1
    case Finished => 0
  }

  /** A closer past its check, left to run to its end. */
  lemma {:induction false} FinishClosing(s: Sys, c: nat, i: nat) returns (steps: seq<Step>, end: Sys)
    requires Enabled(s, CloserStep(c, i)) && !s.calls[c].closers[i].Checking?
    ensures IsRun(s, steps, end) && c in end.calls
    ensures end.calls[c].Lent? && end.calls[c].request == s.calls[c].request && end.calls[c].sample == s.calls[c].sample
    ensures end.calls[c].closers == s.calls[c].closers[i := Finished]
    ensures |end.samples| == |s.samples| && |end.pendings| == |s.pendings|
    ensures var p := s.calls[c];
            && end.samples[p.sample].deletes == s.samples[p.sample].deletes + (if Rank(p.closers[i]) >= 4 then 1 else 0)
            && end.pendings[p.request].deletes == s.pendings[p.request].deletes + (if Rank(p.closers[i]) >= 3 then 1 else 0)
    ensures end.lock == None && end.strays == s.strays + (if s.lock == Some(c) then 0 else 1)
    decreases Rank(s.calls[c].closers[i])
  {
    var step := CloserStep(c, i);
    var s' := Next(s, step);
    if s.calls[c].closers[i].Unlocking? {
      end := s';
      assert IsRun(s', [], end);
      steps := [step];
      assert steps[1..] == [];
    } else {
      var rest;
      rest, end := FinishClosing(s', c, i);
      steps := [step] + rest;
      assert steps[1..] == rest;
    }
  }

  lemma {:induction false} RunsConcatenate(s: Sys, a: seq<Step>, mid: Sys, b: seq<Step>, end: Sys)
    requires IsRun(s, a, mid) && IsRun(mid, b, end)
    ensures IsRun(s, a + b, end)
    decreases |a|
  {
    hide Enabled, Next;
    if a == [] {
      assert a + b == b;
    } else {
      assert (a + b)[1..] == a[1..] + b;
      RunsConcatenate(Next(s, a[0]), a[1..], mid, b, end);
    }
  }

  /** The condition is exact: as soon as one closer's check does fall between another's check and its
      marking, the two only have to run on, and sample and request are deleted twice and the lock is
      released by a closer whose response no longer holds it. */
  lemma OverlapBreaksOwnership(s: Sys, c: nat, i: nat) returns (steps: seq<Step>, end: Sys)
    requires Inv(s) && Enabled(s, CloserStep(c, i)) && !NoOverlap(s, CloserStep(c, i))
    ensures IsRun(s, [CloserStep(c, i)] + steps, end)
    ensures c in end.calls && end.calls[c].Lent? && end.strays >= 1
    ensures end.calls[c].sample < |end.samples| && end.samples[end.calls[c].sample].deletes == 2
    ensures end.calls[c].request < |end.pendings| && end.pendings[end.calls[c].request].deletes == 2
  {
    var p := s.calls[c];
    var j :| 0 <= j < |p.closers| && Busy(p.closers[j]);
    ResourcesOfOverlapped(s, c, j);
    hide Inv;
    var s1 := Next(s, CloserStep(c, i));
    var a, mid := FinishClosing(s1, c, i);
    var b, last := FinishClosing(mid, c, j);
    end := last;
    RunsConcatenate(s1, a, mid, b, end);
    steps := a + b;
    assert ([CloserStep(c, i)] + steps)[1..] == steps;
  }

  /** One thread calls, gets its response on loan, and two threads begin to close it: the first is past its
      check when the second makes its own. */
  function OverlappingRun(): seq<Step> {
    LendingSteps() + ClosingSteps()
  }

  function LendingSteps(): seq<Step> {
    [Begin(0)] + ([Acquire(0)] + ([CheckRound(0, false)] + SendingSteps()))
  }

  function SendingSteps(): seq<Step> {
    [Send(0, Sent(true))] + ([Receive(0, Response)] + ([Validate(0, true)] + []))
  }

  function ClosingSteps(): seq<Step> {
    [CallClose(0)] + ([CallClose(0)] + ([CloserStep(0, 0)] + []))
  }

  /** The only call's response is lent, and these are its closers. */
  function LentOnce(closers: seq<Closer>): Sys {
    Sys(Some(0), map[0 := Lent(0, 0, false, closers)], [Resource(0, 0, true)], [Resource(0, 0, true)], false, 0)
  }

  lemma RunStep(s: Sys, step: Step, s': Sys, steps: seq<Step>, end: Sys)
    requires Enabled(s, step) && Next(s, step) == s' && IsRun(s', steps, end)
    ensures IsRun(s, [step] + steps, end)
  {
    hide Enabled, Next;
    assert ([step] + steps)[1..] == steps;
  }

  lemma EmptyRun(s: Sys)
    ensures IsRun(s, [], s)
  {
  }

  lemma LendingRun()
    ensures IsRun(INIT, LendingSteps(), LentOnce([]))
  {
    hide IsRun, LentOnce, SendingSteps;
    var s1 := Sys(None, map[0 := WantsLock], [], [], false, 0);
    var s2 := Sys(Some(0), map[0 := Looping(None)], [], [], false, 0);
    var s3 := Sys(Some(0), map[0 := Sending], [], [], false, 0);
    SendingRun();
    RunStep(s2, CheckRound(0, false), s3, SendingSteps(), LentOnce([]));
    RunStep(s1, Acquire(0), s2, [CheckRound(0, false)] + SendingSteps(), LentOnce([]));
    RunStep(INIT, Begin(0), s1, [Acquire(0)] + ([CheckRound(0, false)] + SendingSteps()), LentOnce([]));
  }

  lemma SendingRun()
    ensures IsRun(Sys(Some(0), map[0 := Sending], [], [], false, 0), SendingSteps(), LentOnce([]))
  {
    hide IsRun;
    var resources := [Resource(0, 0, true)];
    var s3 := Sys(Some(0), map[0 := Sending], [], [], false, 0);
    var s4 := Sys(Some(0), map[0 := Receiving(0)], resources, [], false, 0);
    var s5 := Sys(Some(0), map[0 := Validating(0, 0)], resources, resources, false, 0);
    var s6 := LentOnce([]);
    EmptyRun(s6);
    RunStep(s5, Validate(0, true), s6, [], s6);
    RunStep(s4, Receive(0, Response), s5, [Validate(0, true)] + [], s6);
    RunStep(s3, Send(0, Sent(true)), s4, [Receive(0, Response)] + ([Validate(0, true)] + []), s6);
  }

  lemma ClosersRun()
    ensures IsRun(LentOnce([]), ClosingSteps(), LentOnce([DeletingSample, Checking]))
  {
    hide IsRun;
    var s6, s7, s8, s9 := LentOnce([]), LentOnce([Checking]), LentOnce([Checking, Checking]), LentOnce([DeletingSample, Checking]);
    EmptyRun(s9);
    assert [Checking, Checking][0 := DeletingSample] == [DeletingSample, Checking];
    RunStep(s8, CloserStep(0, 0), s9, [], s9);
    assert [] + [Checking] == [Checking] && [Checking] + [Checking] == [Checking, Checking];
    RunStep(s7, CallClose(0), s8, [CloserStep(0, 0)] + [], s9);
    RunStep(s6, CallClose(0), s7, [CallClose(0)] + ([CloserStep(0, 0)] + []), s9);
  }

  lemma OverlappingPhase(p: Phase)
    requires p == Lent(0, 0, false, [DeletingSample, Checking])
    ensures PendingOf(p) == SampleOf(p) == Some(0) && OneCloserAtATime(p) && Holding(p) && !MaySend(p)
    ensures Busy(p.closers[0])
  {
    assert Marking !in p.closers && DeletingPending !in p.closers;
  }

  lemma OverlappingIsSound()
    ensures Inv(LentOnce([DeletingSample, Checking]))
    ensures Enabled(LentOnce([DeletingSample, Checking]), CloserStep(0, 1))
    ensures !NoOverlap(LentOnce([DeletingSample, Checking]), CloserStep(0, 1))
  {
    var s := LentOnce([DeletingSample, Checking]);
    OverlappingPhase(s.calls[0]);
    hide PendingOf, SampleOf, OneCloserAtATime, Holding, MaySend, Busy;
  }

  /** It does happen: a run from the start, of one call and two closers, at whose end the sample and the
      request have been deleted twice and the lock has been released by a closer that did not hold it. */
  lemma OverlapHappens() returns (steps: seq<Step>, end: Sys)
    ensures IsRun(INIT, OverlappingRun() + [CloserStep(0, 1)] + steps, end)
    ensures 0 in end.calls && end.calls[0].Lent? && end.strays >= 1
    ensures end.calls[0].sample < |end.samples| && end.samples[end.calls[0].sample].deletes == 2
    ensures end.calls[0].request < |end.pendings| && end.pendings[end.calls[0].request].deletes == 2
  {
    var s := LentOnce([DeletingSample, Checking]);
    LendingRun();
    ClosersRun();
    OverlappingIsSound();
    hide IsRun, Inv, Enabled, NoOverlap, LentOnce, LendingSteps, ClosingSteps;
    RunsConcatenate(INIT, LendingSteps(), LentOnce([]), ClosingSteps(), s);
    steps, end := OverlapBreaksOwnership(s, 0, 1);
    RunsConcatenate(INIT, OverlappingRun(), s, [CloserStep(0, 1)] + steps, end);
    assert OverlappingRun() + ([CloserStep(0, 1)] + steps) == OverlappingRun() + [CloserStep(0, 1)] + steps;
  }

  lemma ResourcesOfOverlapped(s: Sys, c: nat, j: nat)
    requires Inv(s) && c in s.calls && s.calls[c].Lent? && j < |s.calls[c].closers| && Busy(s.calls[c].closers[j])
    requires s.calls[c].sample < |s.samples| && s.calls[c].request < |s.pendings|
    ensures s.samples[s.calls[c].sample].deletes == (if s.calls[c].closers[j].DeletingSample? then 0 else 1)
    ensures s.pendings[s.calls[c].request].deletes == (if s.calls[c].closers[j].Marking? then 1 else 0)
  {
    var p := s.calls[c];
    OverlappedPhase(p, j);
    var request, sample := s.pendings[p.request], s.samples[p.sample];
    hide PendingOf, SampleOf, OneCloserAtATime, NeverResent;
    assert s.lock == Some(c);
    if SampleOf(s.calls[sample.owner]) == Some(p.sample) { LiveMeansHolding(s.calls[sample.owner]); }
    if PendingOf(s.calls[request.owner]) == Some(p.request) { LiveMeansHolding(s.calls[request.owner]); }
  }

  lemma OverlappedPhase(p: Phase, j: nat)
    requires OneCloserAtATime(p) && p.Lent? && j < |p.closers| && Busy(p.closers[j])
    ensures Holding(p)
    ensures SampleOf(p) == if p.closers[j].DeletingSample? then Some(p.sample) else None
    ensures PendingOf(p) == if p.closers[j].Marking? then None else Some(p.request)
  {
    assert p.closers[j] in p.closers;
  }
}

/** The iceoryx2 client's own code: the retry loop of _start_call, the two kinds of call, and close() on
    a lent response. Every action on shared state is a step of the ownership machine, and `Others` lets
    any other threads in between two of them. */
module Iceoryx2Client {
  import opened Wrappers
  import opened Ownership

  /** The call a step belongs to, if its own thread takes it. */
  function CallOf(step: Step): Option<nat> {
    match step
    case Begin(c) => Some(c)
    case Acquire(c) => Some(c)
    case AcquireTimesOut(c) => Some(c)
    case CheckRound(c, _) => Some(c)
    case Send(c, _) => Some(c)
    case DropUnreached(c) => Some(c)
    case Receive(c, _) => Some(c)
    case Validate(c, _) => Some(c)
    case DropSample(c) => Some(c)
    case DropPending(c) => Some(c)
    case Release(c) => Some(c)
    case CallClose(c) => Some(c)
    case CloserStep(c, _) => Some(c)
    case CloseClient => None
  }

  /** How _start_call ends: with a response in hand, with an exception, or not within the rounds seen. */
  datatype Started = Answered(request: nat, sample: nat) | Raised | StillPolling

  function Ending(started: Started): Result {
    match started
    case Answered(_, _) => Answers
    case Raised => Fails
    case StillPolling => Undecided
  }

  /** What the rounds of a call meet. */
  datatype Rounds = Rounds(
    count: nat,
    expired: nat -> bool,
    send: nat -> SendResult,
    receive: nat -> ReceiveResult,
    others: nat -> seq<Step>)

  datatype Result = Answers | Fails | Undecided

  /** What rounds i, i + 1, ... lead to, `sent` telling whether a request is on its way to a server: it is
      sent as often as it takes for one to reach a server, and from then on only received for. */
  function Play(r: Rounds, i: nat, sent: bool): Result
    decreases if i < r.count then r.count - i else 0
  {
    if i >= r.count then Undecided
    else if r.expired(i) then Fails
    else if !sent && (r.send(i).SendRaises? || r.send(i).SentThenRaises?) then Fails
    else if !sent && !r.send(i).reached then Play(r, i + 1, false)
    else
      match r.receive(i)
      case ReceiveRaises => Fails
      case Nothing => Play(r, i + 1, true)
      case Response => Answers
  }

  // ----- what the rounds lead to, told by the rounds themselves

  /** Rounds before n have neither expired nor reached a server. */
  ghost predicate Unsent(r: Rounds, n: nat) {
    forall k: nat :: k < n ==> !r.expired(k) && r.send(k) == Sent(false)
  }

  /** The request of round a has reached a server, and nothing has come back, expired or failed before n. */
  ghost predicate Underway(r: Rounds, a: nat, n: nat) {
    && Unsent(r, a) && !r.expired(a) && r.send(a) == Sent(true)
    && forall k: nat :: a <= k < n ==> !r.expired(k) && r.receive(k) == Nothing
  }

  lemma {:induction false} UnsentPlays(r: Rounds, n: nat)
    requires Unsent(r, n) && n <= r.count
    ensures Play(r, 0, false) == Play(r, n, false)
    decreases n
  {
    if n > 0 { UnsentPlays(r, n - 1); }
  }

  lemma {:induction false} UnderwayPlays(r: Rounds, a: nat, n: nat)
    requires Underway(r, a, n) && a < n <= r.count
    ensures Play(r, 0, false) == Play(r, n, true)
    decreases n
  {
    if n == a + 1 {
      UnsentPlays(r, a);
    } else {
      UnderwayPlays(r, a, n - 1);
    }
  }

  /** Where the rounds have got to by round n, unless they have ended before. */
  lemma {:induction false} PlaysOn(r: Rounds, n: nat) returns (a: nat, end: nat)
    requires n <= r.count
    ensures end <= n
    ensures Unsent(r, end) || (a < end && Underway(r, a, end))
    ensures end < n ==> if Unsent(r, end) then Stops(r, end, false) else Stops(r, end, true)
    decreases n
  {
    if n == 0 {
      a, end := 0, 0;
    } else {
      a, end := PlaysOn(r, n - 1);
      if end == n - 1 {
        if Unsent(r, end) {
          if !Stops(r, end, false) {
            if r.send(end) == Sent(true) { a := end; }
            end := n;
          }
        } else if !Stops(r, end, true) {
          end := n;
        }
      }
    }
  }

  /** The round ends the call, `sent` telling whether a request is already on its way. */
  predicate Stops(r: Rounds, n: nat, sent: bool) {
    || r.expired(n)
    || (!sent && (r.send(n).SendRaises? || r.send(n).SentThenRaises?))
    || ((sent || r.send(n) == Sent(true)) && r.receive(n) != Nothing)
  }

  /** A response in hand, exactly: rounds that reach no server, one whose request does, rounds in which
      nothing comes back, and one in which the response does, none of them past the deadline. */
  lemma AnswersExactly(r: Rounds)
    ensures Play(r, 0, false) == Answers
            <==> exists a: nat, b: nat ::
                   && a <= b < r.count
                   && (forall k: nat :: k <= b ==> !r.expired(k))
                   && (forall k: nat :: k < a ==> r.send(k) == Sent(false))
                   && r.send(a) == Sent(true)
                   && (forall k: nat :: a <= k < b ==> r.receive(k) == Nothing)
                   && r.receive(b) == Response
  {
    if a: nat, b: nat :|
      && a <= b < r.count
      && (forall k: nat :: k <= b ==> !r.expired(k))
      && (forall k: nat :: k < a ==> r.send(k) == Sent(false))
      && r.send(a) == Sent(true)
      && (forall k: nat :: a <= k < b ==> r.receive(k) == Nothing)
      && r.receive(b) == Response
    {
      if a == b { UnsentPlays(r, a); } else { UnderwayPlays(r, a, b); }
    } else {
      var a, end := PlaysOn(r, r.count);
      if Unsent(r, end) { UnsentPlays(r, end); } else { UnderwayPlays(r, a, end); }
    }
  }

  /** An exception, exactly: the first round that does not just go on is past the deadline, or raises on
      sending, or on receiving what has reached a server. */
  lemma FailsExactly(r: Rounds)
    ensures Play(r, 0, false) == Fails <==> exists n: nat :: n < r.count && FailsAt(r, n)
  {
    if n: nat :| n < r.count && FailsAt(r, n) {
      if FailsUnsent(r, n) {
        UnsentPlays(r, n);
      } else {
        var a: nat :| FailsUnderway(r, a, n);
        UnderwayPlays(r, a, n);
      }
    } else {
      var a, end := PlaysOn(r, r.count);
      if Unsent(r, end) {
        UnsentPlays(r, end);
        assert end < r.count ==> !FailsAt(r, end);
      } else {
        UnderwayPlays(r, a, end);
        assert FailsUnderway(r, a, end) ==> FailsAt(r, end);
      }
    }
  }

  ghost predicate FailsAt(r: Rounds, n: nat) {
    FailsUnsent(r, n) || exists a: nat :: FailsUnderway(r, a, n)
  }

  ghost predicate FailsUnsent(r: Rounds, n: nat) {
    && (forall k: nat :: k < n ==> !r.expired(k) && r.send(k) == Sent(false))
    && (r.expired(n) || r.send(n).SendRaises? || r.send(n).SentThenRaises?
        || (r.send(n) == Sent(true) && r.receive(n) == ReceiveRaises))
  }

  ghost predicate FailsUnderway(r: Rounds, a: nat, n: nat) {
    && a < n && (forall k: nat :: k < n ==> !r.expired(k))
    && (forall k: nat :: k < a ==> r.send(k) == Sent(false)) && r.send(a) == Sent(true)
    && (forall k: nat :: a <= k < n ==> r.receive(k) == Nothing)
    && (r.expired(n) || r.receive(n) == ReceiveRaises)
  }

  /** What else may end a call early: a closed client, or a lock that others kept beyond the timeout. */
  datatype Stop = NotStopped | ClientClosed | LockBusy

  class Client {
    var sys: Sys

    ghost predicate Valid()
      reads this
    {
      Inv(sys)
    }

    constructor ()
      ensures Valid() && sys == INIT
    {
      sys := INIT;
    }

    method Do(step: Step)
      requires Valid() && Enabled(sys, step) && NoOverlap(sys, step)
      modifies this
      ensures Valid() && sys == Next(old(sys), step)
    {
      hide Inv, Next;
      StepKeepsInv(sys, step);
      sys := Next(sys, step);
    }

    /** Steps of other threads; those that are not possible when their turn comes are skipped. */
    method Others(c: nat, steps: seq<Step>)
      requires Valid()
      modifies this
      ensures Valid()
      ensures c in sys.calls <==> c in old(sys.calls)
      ensures c in sys.calls ==> sys.calls[c] == old(sys.calls[c])
    {
      hide Inv, Enabled, NoOverlap;
      var i := 0;
      while i < |steps|
        invariant Valid()
        invariant c in sys.calls <==> c in old(sys.calls)
        invariant c in sys.calls ==> sys.calls[c] == old(sys.calls[c])
      {
        if CallOf(steps[i]) != Some(c) && Enabled(sys, steps[i]) {
          if NoOverlap(sys, steps[i]) {
            ElsewhereKeeps(sys, steps[i], c);
            Do(steps[i]);
          }
        }
        i := i + 1;
      }
    }

    // ----- single actions

    method BeginCall(c: nat) returns (open: bool)
      requires Valid() && c !in sys.calls
      modifies this
      ensures Valid() && c in sys.calls && sys.calls[c] == if open then WantsLock else Done
      ensures open == !old(sys.closing) && sys.closing == old(sys.closing)
    {
      hide Inv;
      open := !sys.closing;
      Do(Begin(c));
    }

    method AcquireLock(c: nat) returns (acquired: bool)
      requires Valid() && c in sys.calls && sys.calls[c] == WantsLock
      modifies this
      ensures Valid() && c in sys.calls && sys.calls[c] == if acquired then Looping(None) else Done
      ensures acquired == old(sys.lock).None?
      ensures !acquired ==> sys.lock == old(sys.lock)
    {
      hide Inv;
      acquired := sys.lock.None?;
      if acquired { Do(Acquire(c)); } else { Do(AcquireTimesOut(c)); }
    }

    method Check(c: nat, expired: bool, pending: Option<nat>) returns (proceed: bool)
      requires Valid() && c in sys.calls && sys.calls[c] == Looping(pending)
      modifies this
      ensures Valid() && c in sys.calls && proceed == !(old(sys.closing) || expired) && sys.closing == old(sys.closing)
      ensures sys.calls[c] == if !proceed then Fail(pending) else if pending.None? then Sending else Receiving(pending.value)
    {
      hide Inv;
      proceed := !(sys.closing || expired);
      Do(CheckRound(c, expired));
    }

    method SendOnce(c: nat, result: SendResult) returns (request: nat)
      requires Valid() && c in sys.calls && sys.calls[c] == Sending
      modifies this
      ensures Valid() && c in sys.calls
      ensures sys.calls[c] == match result
                              case SendRaises => Releasing
                              case Sent(reached) => if reached then Receiving(request) else Unreached(request)
                              case SentThenRaises(_) => DroppingPending(request)
      ensures result.SendRaises? ==> sys.pendings == old(sys.pendings)
      ensures !result.SendRaises? ==> sys.pendings == old(sys.pendings) + [Resource(c, 0, result.reached)]
    {
      hide Inv;
      request := |sys.pendings|;
      Do(Send(c, result));
    }

    method DropUnreachedRequest(c: nat)
      requires Valid() && c in sys.calls && sys.calls[c].Unreached?
      modifies this
      ensures Valid() && c in sys.calls && sys.calls[c] == Looping(None)
    {
      hide Inv;
      PhaseResources(sys, c);
      Do(DropUnreached(c));
    }

    method ReceiveOnce(c: nat, result: ReceiveResult, request: nat) returns (sample: nat)
      requires Valid() && c in sys.calls && sys.calls[c] == Receiving(request)
      modifies this
      ensures Valid() && c in sys.calls
      ensures sys.calls[c] == match result
                              case ReceiveRaises => DroppingPending(request)
                              case Nothing => Looping(Some(request))
                              case Response => Validating(request, sample)
    {
      hide Inv;
      sample := |sys.samples|;
      Do(Receive(c, result));
    }

    method ValidateResponse(c: nat, lends: bool, request: nat, sample: nat)
      requires Valid() && c in sys.calls && sys.calls[c] == Validating(request, sample)
      modifies this
      ensures Valid() && c in sys.calls
      ensures sys.calls[c] == if lends then Lent(request, sample, false, []) else DroppingSample(request, sample)
    {
      hide Inv;
      Do(Validate(c, lends));
    }

    method DeleteSample(c: nat, request: nat, sample: nat)
      requires Valid() && c in sys.calls && sys.calls[c] == DroppingSample(request, sample)
      modifies this
      ensures Valid() && c in sys.calls && sys.calls[c] == DroppingPending(request)
    {
      hide Inv;
      PhaseResources(sys, c);
      Do(DropSample(c));
    }

    method DeletePending(c: nat)
      requires Valid() && c in sys.calls && sys.calls[c].DroppingPending?
      modifies this
      ensures Valid() && c in sys.calls && sys.calls[c] == Releasing && sys.closing == old(sys.closing)
    {
      hide Inv;
      PhaseResources(sys, c);
      Do(DropPending(c));
    }

    method ReleaseLock(c: nat)
      requires Valid() && c in sys.calls && sys.calls[c].Releasing?
      modifies this
      ensures Valid() && c in sys.calls && sys.calls[c] == Done
      ensures old(sys.lock) == Some(c) && sys.lock == None && sys.closing == old(sys.closing)
    {
      hide Inv;
      HoldsLock(sys, c);
      Do(Release(c));
    }

    method StartCloser(c: nat) returns (i: nat)
      requires Valid() && c in sys.calls && sys.calls[c].Lent?
      modifies this
      ensures Valid() && c in sys.calls && i == |old(sys.calls[c]).closers|
      ensures sys.calls[c] == old(sys.calls[c]).(closers := old(sys.calls[c]).closers + [Checking])
      ensures sys == At(old(sys), c, old(sys.calls[c]).(closers := old(sys.calls[c]).closers + [Checking]))
    {
      hide Inv;
      i := |sys.calls[c].closers|;
      Do(CallClose(c));
    }

    /** One closer's next action; while it is past its check no other closer of the response is. */
    method CloserAction(c: nat, i: nat)
      requires Valid() && c in sys.calls && sys.calls[c].Lent? && i < |sys.calls[c].closers|
      requires !sys.calls[c].closers[i].Finished?
      requires forall j :: 0 <= j < |sys.calls[c].closers| && j != i ==> sys.calls[c].closers[j].Finished?
      modifies this
      ensures Valid() && c in sys.calls && sys.calls[c] == AfterCloser(old(sys.calls[c]), i)
      ensures old(sys.calls[c]).closers[i].Unlocking? ==> old(sys.lock) == Some(c) && sys.lock == None
      ensures old(sys.calls[c]).closers[i].Checking? ==> sys == At(old(sys), c, sys.calls[c])
    {
      hide Inv, CloserNext, AfterCloser;
      LentResources(sys, c);
      if sys.calls[c].closers[i].Unlocking? { UnlockerHoldsLock(sys, c, i); }
      CloserNextPhase(sys, c, i);
      Do(CloserStep(c, i));
    }

    // ----- the code built from them

    /** The client's own close: it waits for no lock, and may be called again. */
    method Close()
      requires Valid()
      modifies this
      ensures Valid() && sys == old(sys).(closing := true)
    {
      hide Inv;
      Do(CloseClient);
    }

    /** The exception path of _start_call. */
    method CleanUp(c: nat, pending: Option<nat>)
      requires Valid() && c in sys.calls && sys.calls[c] == Fail(pending)
      modifies this
      ensures Valid() && c in sys.calls && sys.calls[c] == Done && sys.closing == old(sys.closing)
    {
      hide Inv;
      if pending.Some? {
        DeletePending(c);
      }
      ReleaseLock(c);
    }

    /** _start_call: unless it is stopped, it ends as its rounds play out, with the response in hand and the
        lock kept, or with everything given back. */
    method StartCall(c: nat, r: Rounds) returns (started: Started, stop: Stop)
      requires Valid() && c !in sys.calls
      modifies this
      ensures Valid() && c in sys.calls
      ensures started.Answered? ==> sys.calls[c] == Validating(started.request, started.sample)
      ensures started == Raised ==> sys.calls[c] == Done
      ensures started == StillPolling ==> sys.calls[c].Looping?
      ensures match stop
              case NotStopped => Play(r, 0, false) == Ending(started)
              case ClientClosed => started == Raised && sys.closing
              case LockBusy => started == Raised && sys.lock.Some?
    {
      hide Inv;
      stop := NotStopped;
      var open := BeginCall(c);
      if !open {
        return Raised, ClientClosed;
      }
      Others(c, r.others(0));
      var acquired := AcquireLock(c);
      if !acquired {
        return Raised, LockBusy;
      }
      var pending: Option<nat> := None;
      var i, turn := 0, 1;
      while i < r.count
        invariant Valid() && c in sys.calls && sys.calls[c] == Looping(pending)
        invariant Play(r, 0, false) == Play(r, i, pending.Some?)
      {
        Others(c, r.others(turn));
        var proceed := Check(c, r.expired(i), pending);
        if !proceed {
          stop := if sys.closing then ClientClosed else NotStopped;
          CleanUp(c, pending);
          started := Raised;
          return;
        }
        Others(c, r.others(turn + 1));
        if pending.None? {
          var request := SendOnce(c, r.send(i));
          if r.send(i) == SendRaises {
            CleanUp(c, None);
            started := Raised;
            return;
          }
          if r.send(i).SentThenRaises? {
            CleanUp(c, Some(request));
            started := Raised;
            return;
          }
          Others(c, r.others(turn + 2));
          if r.send(i).reached {
            pending := Some(request);
          } else {
            DropUnreachedRequest(c);
          }
        }
        if pending.Some? {
          Others(c, r.others(turn + 3));
          var sample := ReceiveOnce(c, r.receive(i), pending.value);
          if r.receive(i) == ReceiveRaises {
            CleanUp(c, pending);
            started := Raised;
            return;
          }
          if r.receive(i) == Response {
            started := Answered(pending.value, sample);
            return;
          }
        }
        i, turn := i + 1, turn + 4;
      }
      started := StillPolling;
    }

    /** `finally`: the sample, then the pending request, then the lock. */
    method GiveBack(c: nat, request: nat, sample: nat, others: nat -> seq<Step>)
      requires Valid() && c in sys.calls && sys.calls[c] == DroppingSample(request, sample)
      modifies this
      ensures Valid() && c in sys.calls && sys.calls[c] == Done
    {
      hide Inv;
      DeleteSample(c, request, sample);
      Others(c, others(0));
      DeletePending(c);
      Others(c, others(1));
      ReleaseLock(c);
    }

    /** call: whatever the response turns out to be, everything is given back before it is decoded. */
    method Call(c: nat, r: Rounds, cleanup: nat -> seq<Step>) returns (answered: bool, polling: bool, stop: Stop)
      requires Valid() && c !in sys.calls
      modifies this
      ensures Valid() && c in sys.calls
      ensures !polling ==> sys.calls[c] == Done
      ensures stop.NotStopped? ==>
                && (answered <==> Play(r, 0, false).Answers?)
                && (polling <==> Play(r, 0, false).Undecided?)
      ensures !stop.NotStopped? ==> !answered && !polling
    {
      hide Inv;
      var started;
      started, stop := StartCall(c, r);
      answered, polling := started.Answered?, started.StillPolling?;
      if answered {
        ValidateResponse(c, false, started.request, started.sample);
        GiveBack(c, started.request, started.sample, cleanup);
      }
    }

    /** call_borrowed: a valid response stays on loan, with the lock; an invalid one is given back. */
    method CallBorrowed(c: nat, r: Rounds, valid: bool, cleanup: nat -> seq<Step>) returns (lent: bool, polling: bool, stop: Stop)
      requires Valid() && c !in sys.calls
      modifies this
      ensures Valid() && c in sys.calls
      ensures lent ==>
                && sys.calls[c].Lent? && !sys.calls[c].closed && sys.calls[c].closers == []
                && sys.lock == Some(c)
      ensures !lent && !polling ==> sys.calls[c] == Done
      ensures stop.NotStopped? ==>
                && (lent <==> Play(r, 0, false).Answers? && valid)
                && (polling <==> Play(r, 0, false).Undecided?)
      ensures !stop.NotStopped? ==> !lent && !polling
    {
      hide Inv;
      var started;
      started, stop := StartCall(c, r);
      lent, polling := started.Answered? && valid, started.StillPolling?;
      if started.Answered? {
        ValidateResponse(c, valid, started.request, started.sample);
        if valid {
          LentHoldsLock(sys, c);
        } else {
          GiveBack(c, started.request, started.sample, cleanup);
        }
      }
    }

    /** Iceoryx2BorrowedResponse.close, run by one thread at a time: it may be called any number of
        times, and only the first gives the response and the lock back. */
    method CloseLent(c: nat, others: nat -> seq<Step>)
      requires Valid() && c in sys.calls && sys.calls[c].Lent?
      requires forall j :: 0 <= j < |sys.calls[c].closers| ==> sys.calls[c].closers[j].Finished?
      modifies this
      ensures Valid() && c in sys.calls
      ensures var p, p' := old(sys.calls[c]), sys.calls[c];
              p' == Lent(p.request, p.sample, true, p.closers + [Finished])
      ensures old(sys.calls[c]).closed ==> sys == At(old(sys), c, sys.calls[c])
      ensures !old(sys.calls[c]).closed ==> old(sys.lock) == Some(c) && sys.lock == None
    {
      hide Inv, At;
      if !sys.calls[c].closed { LentHoldsLock(sys, c); }
      ghost var s, p := sys, sys.calls[c];
      var i := StartCloser(c);
      if sys.calls[c].closed {
        CloserAction(c, i);
        AtTwice(s, c, p.(closers := p.closers + [Checking]), sys.calls[c]);
        assert sys.calls[c].closers == p.closers + [Finished];
      } else {
        CloserAction(c, i);
        assert sys.calls[c] == Lent(p.request, p.sample, false, p.closers + [DeletingSample]);
        CloseRest(c, i, p.closers, others);
      }
    }

    /** The body of close() past its check. */
    method CloseRest(c: nat, i: nat, ghost before: seq<Closer>, others: nat -> seq<Step>)
      requires Valid() && c in sys.calls && sys.calls[c].Lent? && !sys.calls[c].closed && i == |before|
      requires sys.calls[c].closers == before + [DeletingSample]
      requires forall j :: 0 <= j < |before| ==> before[j].Finished?
      modifies this
      ensures Valid() && c in sys.calls && sys.lock == None
      ensures sys.calls[c] == Lent(old(sys.calls[c]).request, old(sys.calls[c]).sample, true, before + [Finished])
    {
      hide Inv;
      Others(c, others(0));
      CloserAction(c, i);
      assert sys.calls[c].closers == before + [DeletingPending];
      Others(c, others(1));
      CloserAction(c, i);
      assert sys.calls[c].closers == before + [Marking];
      Others(c, others(2));
      CloserAction(c, i);
      assert sys.calls[c].closers == before + [Unlocking];
      Others(c, others(3));
      CloserAction(c, i);
      assert sys.calls[c].closers == before + [Finished];
    }
  }

  lemma ElsewhereKeeps(s: Sys, step: Step, c: nat)
    requires Enabled(s, step) && CallOf(step) != Some(c)
    ensures c in Next(s, step).calls <==> c in s.calls
    ensures c in s.calls ==> Next(s, step).calls[c] == s.calls[c]
  {
  }

  lemma PhaseResources(s: Sys, c: nat)
    requires Inv(s) && c in s.calls
    ensures PendingOf(s.calls[c]).Some? ==> PendingOf(s.calls[c]).value < |s.pendings|
    ensures SampleOf(s.calls[c]).Some? ==> SampleOf(s.calls[c]).value < |s.samples|
  {
  }

  lemma AtTwice(s: Sys, c: nat, p: Phase, p': Phase)
    ensures At(At(s, c, p), c, p') == At(s, c, p')
  {
    assert s.calls[c := p][c := p'] == s.calls[c := p'];
  }

  lemma HoldsLock(s: Sys, c: nat)
    requires Inv(s) && c in s.calls && Holding(s.calls[c])
    ensures s.lock == Some(c)
  {
  }

  /** A closer's next action, on the phase of the response alone. */
  function AfterCloser(p: Phase, i: nat): Phase
    requires p.Lent? && i < |p.closers| && !p.closers[i].Finished?
  {
    match p.closers[i]
    case Checking => p.(closers := p.closers[i := if p.closed then Finished else DeletingSample])
    case DeletingSample => p.(closers := p.closers[i := DeletingPending])
    case DeletingPending => p.(closers := p.closers[i := Marking])
    case Marking => p.(closed := true, closers := p.closers[i := Unlocking])
    case Unlocking => p.(closers := p.closers[i := Finished])
  }

  lemma CloserNextPhase(s: Sys, c: nat, i: nat)
    requires Enabled(s, CloserStep(c, i))
    ensures c in CloserNext(s, c, i).calls && CloserNext(s, c, i).calls[c] == AfterCloser(s.calls[c], i)
    ensures s.calls[c].closers[i].Unlocking? ==> CloserNext(s, c, i).lock == None
    ensures s.calls[c].closers[i].Checking? ==> CloserNext(s, c, i) == At(s, c, AfterCloser(s.calls[c], i))
  {
  }

  lemma UnlockerHoldsLock(s: Sys, c: nat, i: nat)
    requires Inv(s) && c in s.calls && s.calls[c].Lent? && i < |s.calls[c].closers| && s.calls[c].closers[i].Unlocking?
    ensures s.lock == Some(c)
  {
    assert s.calls[c].closers[i] in s.calls[c].closers;
    HoldsLock(s, c);
  }

  lemma LentHoldsLock(s: Sys, c: nat)
    requires Inv(s) && c in s.calls && s.calls[c].Lent? && !s.calls[c].closed
    ensures s.lock == Some(c)
  {
  }

  lemma LentResources(s: Sys, c: nat)
    requires Inv(s) && c in s.calls && s.calls[c].Lent?
    ensures s.calls[c].sample < |s.samples| && s.calls[c].request < |s.pendings|
  {
  }
}

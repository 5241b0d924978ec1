/** DiscoveredRpcServer: the serving thread and its heartbeat thread, interleaved step by step. */
module Service {

  /** Where serve_forever is. */
  datatype Main =
    | Outside              // serve_forever is not running
    | Registered           // registered, the stop event cleared, no heartbeat thread yet
    | Serving
    | Stopping(started: Thread)   // in `finally`, about to set the stop event
    | Joining(started: Thread)
    | Unregistering
    | Leaving
    | Returned
    | Raised               // left by an exception

  /** The heartbeat thread object that `finally` finds: none, one whose start failed, or a running one. */
  datatype Thread = NoThread | NeverStarted | Running

  datatype Heartbeat = Absent | Waiting | Writing | Exited

  /** How this run of serve_forever has dealt with its record. */
  datatype Fate = NotYet | RegisterFailed | Unregistered | UnregisterFailed | JoinFailed

  datatype Sys = Sys(
    main: Main,
    heartbeat: Heartbeat,
    stop: bool,          // the stop event
    registered: bool,    // the flag _registered
    record: bool,        // the registry holds a record of this instance
    fate: Fate)

  datatype Step =
    | Enter(registers: bool)
    | ServerStops                     // the wrapped server's serve_forever returns or raises
    | StartHeartbeat(result: Thread)
    | SetStop
    | Join
    | Unregister(ok: bool)
    | Leave
    | Wake                            // the wait on the stop event ends, by the event or by its timeout
    | Write(ok: bool)
    | Prune                           // another process prunes the record as stale

  predicate Enabled(s: Sys, step: Step) {
    match step
    case Enter(_) => (s.main.Outside? || s.main.Returned? || s.main.Raised?)
    case StartHeartbeat(_) => s.main.Registered?
    case ServerStops => s.main.Serving?
    case SetStop => s.main.Stopping?
    case Join => s.main.Joining? && (s.main.started.Running? ==> s.heartbeat.Exited?)
    case Unregister(_) => s.main.Unregistering?
    case Leave => s.main.Leaving?
    case Wake => s.heartbeat.Waiting?
    case Write(_) => s.heartbeat.Writing?
    case Prune => true
  }

  function Next(s: Sys, step: Step): Sys
    requires Enabled(s, step)
  {
    match step
    case Enter(registers) =>
      if s.registered then s.(main := Raised)     // already running
      else if !registers then s.(main := Raised, fate := RegisterFailed)
      else s.(main := Registered, heartbeat := Absent, stop := false, registered := true, record := true, fate := NotYet)
    case StartHeartbeat(result) =>
      if result.Running? then s.(main := Serving, heartbeat := Waiting) else s.(main := Stopping(result))
    case ServerStops => s.(main := Stopping(Running))
    case SetStop => s.(main := Joining(s.main.started), stop := true)
    case Join =>
      // joining a thread that was never started raises, and skips the rest of `finally`
      if s.main.started.NeverStarted? then s.(main := Raised, fate := JoinFailed)
      else s.(main := Unregistering)
    case Unregister(ok) =>
      if ok then s.(main := Leaving, record := false, fate := Unregistered)
      else s.(main := Leaving, fate := UnregisterFailed)
    case Leave => s.(main := Returned, registered := false)
    case Wake => s.(heartbeat := if s.stop then Exited else Writing)
    case Write(ok) => s.(heartbeat := Waiting, record := s.record || ok)
    case Prune => s.(record := false)
  }

  const INIT := Sys(Outside, Absent, false, false, false, NotYet)

  predicate HeartbeatAlive(s: Sys) {
    s.heartbeat.Waiting? || s.heartbeat.Writing?
  }

  /** The heartbeat thread lives only while serve_forever has still to join it, and sees the stop event
      before that; what serve_forever has left behind is said by the fate of its record. */
  predicate Inv(s: Sys) {
    && (HeartbeatAlive(s) ==> s.main.Serving? || s.main == Stopping(Running) || s.main == Joining(Running))
    && (s.main.Joining? ==> s.stop)
    && (s.registered <==> s.fate == JoinFailed || !(s.main.Outside? || s.main.Returned? || s.main.Raised?))
    && (s.main.Leaving? || s.main.Returned? ==> s.fate == Unregistered || s.fate == UnregisterFailed)
    && (s.main.Raised? ==> s.fate == RegisterFailed || s.fate == JoinFailed)
    && (s.main.Outside? ==> s.fate == NotYet && !s.record)
    && (s.fate == Unregistered ==> (s.main.Leaving? || s.main.Returned?) && !s.record)
    && (s.fate == RegisterFailed || s.fate == JoinFailed ==> s.main.Raised?)
    && (s.fate == UnregisterFailed ==> s.main.Leaving? || s.main.Returned?)
  }

  lemma StepKeepsInv(s: Sys, step: Step)
    requires Inv(s) && Enabled(s, step)
    ensures Inv(Next(s, step))
  {
  }

  predicate IsRun(s: Sys, steps: seq<Step>, end: Sys)
    decreases |steps|
  {
    if steps == [] then s == end
    else Enabled(s, steps[0]) && IsRun(Next(s, steps[0]), steps[1..], end)
  }

  lemma {:induction false} RunKeepsInv(s: Sys, steps: seq<Step>, end: Sys)
    requires Inv(s) && IsRun(s, steps, end)
    ensures Inv(end)
    decreases |steps|
  {
    hide Inv, Enabled, Next;
    if steps != [] {
      StepKeepsInv(s, steps[0]);
      RunKeepsInv(Next(s, steps[0]), steps[1..], end);
    }
  }

  predicate StaysOut(steps: seq<Step>) {
    forall i :: 0 <= i < |steps| ==> !steps[i].Enter?
  }

  lemma {:induction false} NothingWritesAfterwards(s: Sys, steps: seq<Step>, end: Sys)
    requires Inv(s) && (s.main.Leaving? || s.main.Returned? || s.main.Raised?) && !s.record
    requires IsRun(s, steps, end) && StaysOut(steps)
    ensures !end.record
    decreases |steps|
  {
    if steps != [] {
      assert !steps[0].Enter?;
      StepKeepsInv(s, steps[0]);
      NothingWritesAfterwards(Next(s, steps[0]), steps[1..], end);
    }
  }

  /** No resurrection: in every interleaving, once serve_forever has unregistered its instance there is
      no record of it, its heartbeat thread is gone, and no later step writes one until serve_forever is
      entered again. */
  lemma NoResurrection(steps: seq<Step>, left: Sys, later: seq<Step>, end: Sys)
    requires IsRun(INIT, steps, left) && left.fate == Unregistered
    requires IsRun(left, later, end) && StaysOut(later)
    ensures !left.record && !HeartbeatAlive(left)
    ensures !end.record
  {
    RunKeepsInv(INIT, steps, left);
    NothingWritesAfterwards(left, later, end);
  }

  predicate Unpruned(steps: seq<Step>) {
    forall i :: 0 <= i < |steps| ==> !steps[i].Prune?
  }

  /** The record that a finished run leaves behind. */
  predicate RecordTold(s: Sys) {
    && (s.main.Registered? || s.main.Serving? || s.main.Stopping? || s.main.Joining? || s.main.Unregistering? ==> s.record)
    && (s.fate == UnregisterFailed || s.fate == JoinFailed ==> s.record)
  }

  lemma {:induction false} RecordIsTold(s: Sys, steps: seq<Step>, end: Sys)
    requires Inv(s) && RecordTold(s) && IsRun(s, steps, end) && Unpruned(steps)
    ensures Inv(end) && RecordTold(end)
    decreases |steps|
  {
    if steps != [] {
      assert !steps[0].Prune?;
      StepKeepsInv(s, steps[0]);
      RecordIsTold(Next(s, steps[0]), steps[1..], end);
    }
  }

  /** The heartbeat thread object that `finally` will find was never started. */
  predicate Doomed(s: Sys) {
    s.main == Stopping(NeverStarted) || s.main == Joining(NeverStarted) || s.fate == JoinFailed
  }

  /** Which of the two failures a run has met is told by its steps. */
  lemma {:induction false} FailuresAreTold(s: Sys, steps: seq<Step>, end: Sys)
    requires Inv(s) && IsRun(s, steps, end) && StaysOut(steps)
    ensures Doomed(end) <==> Doomed(s) || StartHeartbeat(NeverStarted) in steps
    ensures end.fate == UnregisterFailed <==> s.fate == UnregisterFailed || Unregister(false) in steps
    ensures end.fate == RegisterFailed <==> s.fate == RegisterFailed
    decreases |steps|
  {
    if steps != [] {
      assert !steps[0].Enter? && steps == [steps[0]] + steps[1..];
      StepKeepsInv(s, steps[0]);
      FailuresAreTold(Next(s, steps[0]), steps[1..], end);
    }
  }

  /** Exactly when a record is left behind: when nobody prunes it, a run that has registered leaves its
      record exactly if unregistering it failed, or if the heartbeat thread could not be started, for then
      joining it raises before the instance is unregistered; and exactly in that last case the server
      still counts as running, so that it can never be entered again. */
  lemma RecordLeftBehind(before: seq<Step>, s: Sys, steps: seq<Step>, left: Sys)
    requires IsRun(INIT, before, s) && Enabled(s, Enter(true)) && !s.registered
    requires IsRun(Next(s, Enter(true)), steps, left) && StaysOut(steps) && Unpruned(steps)
    requires left.main.Returned? || left.main.Raised?
    ensures left.record <==> StartHeartbeat(NeverStarted) in steps || Unregister(false) in steps
    ensures left.registered <==> StartHeartbeat(NeverStarted) in steps
    ensures left.registered ==> forall registers :: Next(left, Enter(registers)) == left.(main := Raised)
  {
    RunKeepsInv(INIT, before, s);
    var entered := Next(s, Enter(true));
    StepKeepsInv(s, Enter(true));
    RecordIsTold(entered, steps, left);
    FailuresAreTold(entered, steps, left);
  }

  /** A run that ends that way. */
  lemma StartFailureLeavesRecord()
    ensures IsRun(INIT, [Enter(true), StartHeartbeat(NeverStarted), SetStop, Join],
                  Sys(Raised, Absent, true, true, true, JoinFailed))
  {
    var s1 := Next(INIT, Enter(true));
    var s2 := Next(s1, StartHeartbeat(NeverStarted));
    var s3 := Next(s2, SetStop);
    var s4 := Next(s3, Join);
    assert IsRun(s4, [], s4);
    assert IsRun(s3, [Join], s4);
    assert IsRun(s2, [SetStop, Join], s4);
    assert IsRun(s1, [StartHeartbeat(NeverStarted), SetStop, Join], s4);
  }

  /** The heartbeat: each time its wait runs out with the stop event not set, the thread writes the record,
      also one that others have pruned, and waits again; once the event is set it writes no more. */
  lemma HeartbeatBeats(s: Sys, ok: bool)
    requires s.heartbeat.Waiting?
    ensures Enabled(s, Wake)
    ensures !s.stop ==>
              && Enabled(Next(s, Wake), Write(ok))
              && var beaten := Next(Next(s, Wake), Write(ok));
                 beaten == s.(record := s.record || ok)
    ensures s.stop ==> Next(s, Wake) == s.(heartbeat := Exited)
    ensures s.stop ==> forall step: Step :: step.Write? || step.Wake? ==> !Enabled(Next(s, Wake), step)
  {
  }

  /** Entering registers the instance, and a heartbeat thread that starts is waiting for its first beat when
      the server begins to serve. */
  lemma EnteringBeats(s: Sys)
    requires Enabled(s, Enter(true)) && !s.registered
    ensures var entered := Next(s, Enter(true));
            && entered.record && entered.registered && !entered.stop && Enabled(entered, StartHeartbeat(Running))
            && var serving := Next(entered, StartHeartbeat(Running));
               serving == entered.(main := Serving, heartbeat := Waiting)
  {
  }

  /** While the server serves, the heartbeat thread is alive, and no step but its own ends it. */
  lemma {:induction false} ServingBeats(s: Sys, steps: seq<Step>, end: Sys)
    requires Inv(s) && s.main.Serving? && HeartbeatAlive(s) && !s.stop
    requires IsRun(s, steps, end) && end.main.Serving? && ServerStops !in steps
    ensures HeartbeatAlive(end) && !end.stop && end.registered
    decreases |steps|
  {
    if steps != [] {
      assert steps[0] in steps;
      StepKeepsInv(s, steps[0]);
      ServingBeats(Next(s, steps[0]), steps[1..], end);
    }
  }

  /** A step of the heartbeat thread or of another process. */
  predicate Elsewhere(step: Step) {
    step.Wake? || step.Write? || step.Prune?
  }

  lemma ElsewhereKeeps(s: Sys, step: Step)
    requires Enabled(s, step) && Elsewhere(step)
    ensures var s' := Next(s, step);
            && s'.main == s.main && s'.stop == s.stop && s'.registered == s.registered && s'.fate == s.fate
            && (s'.heartbeat.Absent? <==> s.heartbeat.Absent?)
            && (s.heartbeat.Exited? ==> s'.heartbeat.Exited?)
            && (s.heartbeat.Exited? || s.heartbeat.Absent? ==> s'.record ==> s.record)
            && (!step.Prune? ==> s.record ==> s'.record)
  {
  }

  ghost predicate UnprunedBy(others: nat -> seq<Step>) {
    forall i: nat :: Unpruned(others(i))
  }

  /** How one call of serve_forever ends. */
  datatype Ending = AlreadyRunning | NotRegistered | LeftBehind | Left(unregistered: bool)

  /** The server object: serve_forever step by step, with anything the heartbeat thread and other
      processes do in between. */
  class DiscoveredServer {
    var sys: Sys

    ghost predicate Valid()
      reads this
    {
      Inv(sys)
    }

    constructor ()
      ensures Valid() && sys == INIT
    {
      sys := INIT;
    }

    method Do(step: Step)
      requires Valid() && Enabled(sys, step)
      modifies this
      ensures Valid() && sys == Next(old(sys), step)
    {
      hide Inv, Next;
      StepKeepsInv(sys, step);
      sys := Next(sys, step);
    }

    method Others(steps: seq<Step>)
      requires Valid()
      modifies this
      ensures Valid()
      ensures sys.main == old(sys).main && sys.stop == old(sys).stop
      ensures sys.registered == old(sys).registered && sys.fate == old(sys).fate
      ensures sys.heartbeat.Absent? <==> old(sys).heartbeat.Absent?
      ensures old(sys).heartbeat.Exited? ==> sys.heartbeat.Exited?
      ensures old(sys).heartbeat.Exited? || old(sys).heartbeat.Absent? ==> sys.record ==> old(sys).record
      ensures Unpruned(steps) ==> old(sys).record ==> sys.record
    {
      hide Inv, Enabled, Next;
      for i := 0 to |steps|
        invariant Valid()
        invariant sys.main == old(sys).main && sys.stop == old(sys).stop
        invariant sys.registered == old(sys).registered && sys.fate == old(sys).fate
        invariant sys.heartbeat.Absent? <==> old(sys).heartbeat.Absent?
        invariant old(sys).heartbeat.Exited? ==> sys.heartbeat.Exited?
        invariant old(sys).heartbeat.Exited? || old(sys).heartbeat.Absent? ==> sys.record ==> old(sys).record
        invariant Unpruned(steps) ==> old(sys).record ==> sys.record
      {
        if Elsewhere(steps[i]) && Enabled(sys, steps[i]) {
          ElsewhereKeeps(sys, steps[i]);
          Do(steps[i]);
        }
      }
    }

    /** join on a running thread: with the stop event set, the heartbeat loop ends after at most one more
        write, which may still succeed. */
    method JoinHeartbeat(writes: bool)
      requires Valid() && sys.main == Joining(Running) && !sys.heartbeat.Absent?
      modifies this
      ensures Valid() && sys.main.Unregistering? && sys.heartbeat.Exited?
      ensures sys.registered == old(sys).registered && sys.stop
      ensures old(sys).record ==> sys.record
    {
      while !sys.heartbeat.Exited?
        invariant Valid() && sys.main == Joining(Running) && !sys.heartbeat.Absent?
        invariant sys.registered == old(sys).registered
        invariant old(sys).record ==> sys.record
        decreases if sys.heartbeat.Writing? then 2 else if sys.heartbeat.Waiting? then 1 else 0
      {
        if sys.heartbeat.Writing? { Do(Write(writes)); } else { Do(Wake); }
      }
      Do(Join);
    }

    /** `finally`: stop the heartbeat, wait for it, unregister. */
    method WindUp(started: Thread, writes: bool, unregisters: bool, others: nat -> seq<Step>) returns (ending: Ending)
      requires Valid() && sys.main == Stopping(started) && sys.registered
      requires started.Running? <==> !sys.heartbeat.Absent?
      modifies this
      ensures Valid() && !HeartbeatAlive(sys)
      ensures ending == if started.NeverStarted? then LeftBehind else Left(unregisters)
      ensures ending == LeftBehind ==> sys.main.Raised? && sys.registered && sys.fate == JoinFailed
      ensures ending.Left? ==> sys.main.Returned? && !sys.registered
      ensures ending == Left(true) ==> !sys.record && sys.fate == Unregistered
      ensures old(sys).record && UnprunedBy(others) ==> (sys.record <==> started.NeverStarted? || !unregisters)
    {
      Do(SetStop);
      Others(others(0));
      if started.NeverStarted? {
        Do(Join);
        return LeftBehind;
      }
      if started.Running? { JoinHeartbeat(writes); } else { Do(Join); }
      Others(others(1));
      Do(Unregister(unregisters));
      Others(others(2));
      Do(Leave);
      ending := Left(unregisters);
    }

    /** serve_forever; `started` says what became of the heartbeat thread. */
    method ServeForever(registers: bool, started: Thread, writes: bool, unregisters: bool, others: nat -> seq<Step>)
      returns (ending: Ending)
      requires Valid() && (sys.main.Outside? || sys.main.Returned? || sys.main.Raised?)
      modifies this
      ensures Valid() && !HeartbeatAlive(sys)
      ensures ending == if old(sys).registered then AlreadyRunning
                        else if !registers then NotRegistered
                        else if started.NeverStarted? then LeftBehind
                        else Left(unregisters)
      ensures ending == AlreadyRunning || ending == NotRegistered ==> sys.record == old(sys).record
      ensures ending == AlreadyRunning || ending == LeftBehind <==> sys.registered
      ensures ending == Left(true) ==> !sys.record
      // unless others prune it, the record of a registered run is left exactly in the two failures
      ensures !old(sys).registered && registers && UnprunedBy(others) ==> (sys.record <==> started.NeverStarted? || !unregisters)
    {
      var running := sys.registered;
      Do(Enter(registers));
      if running || !registers {
        return if running then AlreadyRunning else NotRegistered;
      }
      Others(others(0));
      Do(StartHeartbeat(started));
      Others(others(1));
      if started.Running? {
        Do(ServerStops);
        Others(others(2));
      }
      var later := (i: nat) => others(i + 3);
      assert UnprunedBy(others) ==> UnprunedBy(later);
      ending := WindUp(started, writes, unregisters, later);
    }
  }
}

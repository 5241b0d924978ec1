/** The life of one event slot, told by the entries its scripts append to the slot's stream.

    The Redis side keeps a hash and a stream trimmed to a bounded length. Here the whole, untrimmed
    log is the state, together with one deadline: the end of the owner's lease while the slot is
    active, the instant from which it may be recycled once it is terminal. EventStore ties the hash
    and the trimmed stream to this state. */
module EventHistory {
  /** `Unknown` stands for any text the client does not recognise. */
  datatype State = Created | Succeeded | Failed | Cancelled | Unknown(text: string)

  predicate Terminal(s: State) {
    s.Succeeded? || s.Failed? || s.Cancelled?
  }

  /** One stream entry. Redis IDs are only ever compared, so a number stands for an ID. */
  datatype Entry = Entry(id: nat, generation: nat, state: State, error: string)

  datatype History = History(log: seq<Entry>, deadline: int)

  const UNCLAIMED := History([], 0)
  const LEASE_EXPIRED := "event owner lease expired"

  predicate Active(h: History) {
    |h.log| % 2 == 1
  }

  /** The latest generation ever claimed, 0 before the first claim. */
  function Generation(h: History): nat {
    (|h.log| + 1) / 2
  }

  /** The entry that ends generation g. */
  function OutcomeIndex(g: nat): nat
    requires g >= 1
  {
    2 * g - 1
  }

  predicate Issued(h: History, g: nat)
    requires g >= 1
  {
    |h.log| >= OutcomeIndex(g)
  }

  predicate Ended(h: History, g: nat)
    requires g >= 1
  {
    |h.log| > OutcomeIndex(g)
  }

  predicate Recycled(h: History, g: nat)
    requires g >= 1
  {
    |h.log| > OutcomeIndex(g) + 1
  }

  function LastId(log: seq<Entry>): nat {
    if log == [] then 0 else log[|log| - 1].id
  }

  /** An automatic ID: the server clock, unless that would not be beyond the last ID. */
  function NextId(lastId: nat, tick: nat): nat {
    if tick > lastId then tick else lastId + 1
  }

  /** What an entry appended to the log looks like: a fresh ID, and by turns the creation of the next
      generation and the outcome of the current one. */
  predicate Follows(log: seq<Entry>, e: Entry) {
    && e.id > LastId(log)
    && e.generation == |log| / 2 + 1
    && if |log| % 2 == 0 then e.state == Created && e.error == "" else Terminal(e.state)
  }

  ghost predicate Grown(log: seq<Entry>)
    decreases |log|
  {
    log == [] || (Grown(log[..|log| - 1]) && Follows(log[..|log| - 1], log[|log| - 1]))
  }

  ghost predicate WellFormed(h: History) {
    Grown(h.log) && (Active(h) ==> h.deadline > 0)
  }

  /** The history invariant: the full log is (1, created), (1, outcome), (2, created), (2, outcome), ...
      and its IDs strictly increase. */
  lemma {:induction false} LogAlternates(log: seq<Entry>)
    requires Grown(log)
    ensures forall i :: 0 <= i < |log| ==> log[i].generation == i / 2 + 1
    ensures forall i :: 0 <= i < |log| && i % 2 == 0 ==> log[i].state == Created && log[i].error == ""
    ensures forall i :: 0 <= i < |log| && i % 2 == 1 ==> Terminal(log[i].state)
    ensures forall i, j :: 0 <= i < j < |log| ==> log[i].id < log[j].id
    ensures forall i :: 0 <= i < |log| ==> 0 < log[i].id <= LastId(log)
    decreases |log|
  {
    if log != [] {
      var front := log[..|log| - 1];
      LogAlternates(front);
      forall i | 0 <= i < |front| ensures log[i] == front[i] {}
    }
  }

  /** One atomic script run by some client, with the arguments the client passes and the server
      clock that seeds stream IDs. */
  datatype Op =
    | TryClaim(now: int, lease: int, retention: int, maxlen: nat, tick: nat)
    | Complete(generation: nat, state: State, error: string, now: int, retention: int, maxlen: nat, tick: nat)
    | Refresh(generation: nat, now: int, lease: int)
    | Release(generation: nat, now: int)

  /** What the clients validate before they run a script; the clock is milliseconds since the epoch. */
  predicate Legal(op: Op) {
    && op.now >= 0
    && match op
       case TryClaim(_, lease, retention, maxlen, _) => lease >= 1 && retention >= 0 && maxlen >= 2
       case Complete(g, state, _, _, retention, maxlen, _) => g >= 1 && Terminal(state) && retention >= 0 && maxlen >= 2
       case Refresh(g, _, lease) => g >= 1 && lease >= 1
       case Release(g, _) => g >= 1
  }

  // ----- the steps

  function Begin(h: History, now: int, lease: int, tick: nat): History {
    History(h.log + [Entry(NextId(LastId(h.log), tick), Generation(h) + 1, Created, "")], now + lease)
  }

  function Finish(h: History, state: State, error: string, reusableAt: int, tick: nat): History {
    History(h.log + [Entry(NextId(LastId(h.log), tick), Generation(h), state, error)], reusableAt)
  }

  predicate Claimable(h: History, now: int) {
    !Active(h) && (h.log == [] || h.deadline <= now)
  }

  predicate Overdue(h: History, now: int) {
    Active(h) && h.deadline <= now
  }

  /** An attempt succeeds on a claimable slot, or on an overdue one when retention is zero. */
  predicate CanTake(h: History, now: int, retention: int) {
    Claimable(h, now) || (Overdue(h, now) && retention == 0)
  }

  function Sweep(h: History, now: int, retention: int, tick: nat): History {
    if Overdue(h, now) then Finish(h, Failed, LEASE_EXPIRED, now + retention, tick) else h
  }

  function Apply(h: History, op: Op): History {
    match op
    case TryClaim(now, lease, retention, maxlen, tick) =>
      if CanTake(h, now, retention) then Begin(Sweep(h, now, retention, tick), now, lease, tick)
      else Sweep(h, now, retention, tick)
    case Complete(g, state, error, now, retention, maxlen, tick) =>
      if Active(h) && Generation(h) == g then Finish(h, state, error, now + retention, tick) else h
    case Refresh(g, now, lease) =>
      if Active(h) && Generation(h) == g then h.(deadline := now + lease) else h
    case Release(g, now) =>
      if !Active(h) && h.log != [] && Generation(h) == g then h.(deadline := now) else h
  }

  // ----- every step keeps the alternation and only appends

  lemma LastEntry(h: History)
    requires WellFormed(h) && h.log != []
    ensures var last := h.log[|h.log| - 1];
            && last.generation == Generation(h) > 0
            && (last.state == Created <==> Active(h))
            && (!Active(h) ==> Terminal(last.state))
  {
  }

  lemma AppendGrows(log: seq<Entry>, e: Entry)
    requires Grown(log) && Follows(log, e)
    ensures Grown(log + [e])
  {
    assert (log + [e])[..|log|] == log;
  }

  lemma BeginKeepsWellFormed(h: History, now: int, lease: int, tick: nat)
    requires WellFormed(h) && !Active(h) && now >= 0 && lease >= 1
    ensures WellFormed(Begin(h, now, lease, tick))
  {
    AppendGrows(h.log, Begin(h, now, lease, tick).log[|h.log|]);
  }

  lemma FinishKeepsWellFormed(h: History, state: State, error: string, reusableAt: int, tick: nat)
    requires WellFormed(h) && Active(h) && Terminal(state)
    ensures WellFormed(Finish(h, state, error, reusableAt, tick))
  {
    AppendGrows(h.log, Finish(h, state, error, reusableAt, tick).log[|h.log|]);
  }

  lemma ApplyKeepsWellFormed(h: History, op: Op)
    requires WellFormed(h) && Legal(op)
    ensures WellFormed(Apply(h, op))
    ensures h.log <= Apply(h, op).log
  {
    match op
    case TryClaim(now, lease, retention, maxlen, tick) =>
      if Overdue(h, now) {
        FinishKeepsWellFormed(h, Failed, LEASE_EXPIRED, now + retention, tick);
      }
      if CanTake(h, now, retention) {
        BeginKeepsWellFormed(Sweep(h, now, retention, tick), now, lease, tick);
      }
    case Complete(g, state, error, now, retention, maxlen, tick) =>
      if Active(h) && Generation(h) == g {
        FinishKeepsWellFormed(h, state, error, now + retention, tick);
      }
    case Refresh(_, _, _) =>
    case Release(_, _) =>
  }

  // ----- runs

  ghost predicate AllLegal(ops: seq<Op>) {
    forall i :: 0 <= i < |ops| ==> Legal(ops[i])
  }

  function Run(h: History, ops: seq<Op>): History
    decreases |ops|
  {
    if ops == [] then h else Run(Apply(h, ops[0]), ops[1..])
  }

  lemma {:induction false} RunKeepsWellFormed(h: History, ops: seq<Op>)
    requires WellFormed(h) && AllLegal(ops)
    ensures WellFormed(Run(h, ops))
    ensures h.log <= Run(h, ops).log
    decreases |ops|
  {
    if ops != [] {
      ApplyKeepsWellFormed(h, ops[0]);
      RunKeepsWellFormed(Apply(h, ops[0]), ops[1..]);
    }
  }

  lemma {:induction false} RunSplit(h: History, a: seq<Op>, b: seq<Op>)
    ensures Run(h, a + b) == Run(Run(h, a), b)
    decreases |a|
  {
    if a == [] {
      assert a + b == b;
    } else {
      assert (a + b)[1..] == a[1..] + b;
      RunSplit(Apply(h, a[0]), a[1..], b);
    }
  }

  /** Agreement: an outcome once logged is the outcome of that generation for good. */
  lemma OutcomeIsFinal(h: History, ops: seq<Op>, g: nat)
    requires WellFormed(h) && AllLegal(ops) && g >= 1 && Ended(h, g)
    ensures Ended(Run(h, ops), g)
    ensures Run(h, ops).log[OutcomeIndex(g)] == h.log[OutcomeIndex(g)]
    ensures forall i | 0 <= i < |Run(h, ops).log| && i != OutcomeIndex(g) ::
              Run(h, ops).log[i].generation == g ==> Run(h, ops).log[i].state == Created
  {
    RunKeepsWellFormed(h, ops);
    LogAlternates(Run(h, ops).log);
  }
}

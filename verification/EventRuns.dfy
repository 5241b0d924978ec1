/** What holds over whole runs of one slot and of a pool: identity, retention, leases, conservation. */
module EventRuns {
  import opened EventHistory

  // ----- prefixes of a run from the unclaimed slot

  function At(ops: seq<Op>, i: nat): History
    requires i <= |ops|
  {
    Run(UNCLAIMED, ops[..i])
  }

  lemma AtNext(ops: seq<Op>, i: nat)
    requires i < |ops|
    ensures At(ops, i + 1) == Apply(At(ops, i), ops[i])
  {
    assert ops[..i + 1] == ops[..i] + [ops[i]];
    RunSplit(UNCLAIMED, ops[..i], [ops[i]]);
  }

  // ----- identity

  /** The generation a script run hands to its caller, 0 when it hands out none. */
  function Granted(h: History, op: Op): nat {
    if op.TryClaim? && CanTake(h, op.now, op.retention) then Generation(Apply(h, op)) else 0
  }

  lemma GrantRaisesGeneration(h: History, op: Op)
    ensures Generation(Apply(h, op)) == Generation(h) + (if Granted(h, op) > 0 then 1 else 0)
    ensures Granted(h, op) > 0 ==> Granted(h, op) == Generation(h) + 1
    ensures op.TryClaim? && CanTake(h, op.now, op.retention) ==> Granted(h, op) > 0
  {
  }

  function Grants(h: History, ops: seq<Op>): seq<nat>
    decreases |ops|
  {
    if ops == [] then []
    else (if Granted(h, ops[0]) > 0 then [Granted(h, ops[0])] else []) + Grants(Apply(h, ops[0]), ops[1..])
  }

  /** Claims on a slot return consecutive generations, with no gap and no repetition. */
  lemma {:induction false} ClaimsCountUp(h: History, ops: seq<Op>)
    ensures |Grants(h, ops)| == Generation(Run(h, ops)) - Generation(h)
    ensures forall i :: 0 <= i < |Grants(h, ops)| ==> Grants(h, ops)[i] == Generation(h) + 1 + i
    decreases |ops|
  {
    if ops != [] {
      GrantRaisesGeneration(h, ops[0]);
      ClaimsCountUp(Apply(h, ops[0]), ops[1..]);
    }
  }

  predicate CarriesGeneration(op: Op, g: nat) {
    !op.TryClaim? && op.generation == g
  }

  function WithoutHandle(ops: seq<Op>, g: nat): seq<Op>
    decreases |ops|
  {
    if ops == [] then []
    else (if CarriesGeneration(ops[0], g) then [] else [ops[0]]) + WithoutHandle(ops[1..], g)
  }

  /** A handle whose slot has moved on is powerless: striking everything it does from a run changes nothing. */
  lemma {:induction false} StaleHandleIsPowerless(h: History, g: nat, ops: seq<Op>)
    requires g < Generation(h)
    ensures Run(h, ops) == Run(h, WithoutHandle(ops, g))
    decreases |ops|
  {
    if ops != [] {
      GrantRaisesGeneration(h, ops[0]);
      StaleHandleIsPowerless(Apply(h, ops[0]), g, ops[1..]);
      if !CarriesGeneration(ops[0], g) {
        var rest := WithoutHandle(ops[1..], g);
        assert ([ops[0]] + rest)[1..] == rest;
      } else {
        assert [] + WithoutHandle(ops[1..], g) == WithoutHandle(ops[1..], g);
      }
    }
  }

  // ----- retention

  /** While every script runs before the slot may be reused, and nobody releases this generation,
      a terminal slot does not change at all. */
  lemma {:induction false} TerminalIsRetained(h: History, ops: seq<Op>)
    requires h.log != [] && !Active(h)
    requires forall i :: 0 <= i < |ops| ==> ops[i].now < h.deadline
    requires forall i :: 0 <= i < |ops| ==> !(ops[i].Release? && ops[i].generation == Generation(h))
    ensures Run(h, ops) == h
    decreases |ops|
  {
    if ops != [] {
      assert Apply(h, ops[0]) == h;
      TerminalIsRetained(h, ops[1..]);
    }
  }

  ghost predicate ClockNondecreasing(ops: seq<Op>) {
    forall i, j :: 0 <= i < j < |ops| ==> ops[i].now <= ops[j].now
  }

  /** Retention window: after a completion at t with retention r, and without a release, every prefix
      of the run whose last script still runs before t + r leaves the outcome in place. */
  lemma RetentionWindow(h: History, done: Op, ops: seq<Op>, n: nat)
    requires done.Complete? && Active(h) && Generation(h) == done.generation
    requires n <= |ops| && ClockNondecreasing(ops)
    requires n > 0 ==> ops[n - 1].now < done.now + done.retention
    requires forall i :: 0 <= i < n ==> !(ops[i].Release? && ops[i].generation == done.generation)
    ensures Run(Apply(h, done), ops[..n]) == Apply(h, done)
    ensures Apply(h, done).log[|h.log|].state == done.state && Apply(h, done).log[|h.log|].error == done.error
    ensures Generation(Apply(h, done)) == done.generation && !Active(Apply(h, done))
  {
    forall i | 0 <= i < n ensures ops[..n][i].now < done.now + done.retention {
      assert i < n - 1 ==> ops[i].now <= ops[n - 1].now;
    }
    TerminalIsRetained(Apply(h, done), ops[..n]);
  }

  /** The ways in which a script run fixes the instant from which generation g may be recycled. */
  predicate AllowsReuse(h: History, op: Op, g: nat, at: int) {
    && Generation(h) == g
    && match op
       case Complete(g', _, _, now, retention, _, _) => Active(h) && g' == g && at == now + retention
       case Release(g', now) => !Active(h) && h.log != [] && g' == g && at == now
       case TryClaim(now, _, retention, _, _) => Overdue(h, now) && retention != 0 && at == now + retention
       case Refresh(_, _, _) => false
  }

  /** A terminal slot's reuse instant was set by a completion, a release or a lease sweep of that very
      generation, and nothing has touched the slot since. */
  lemma {:induction false} ReuseInstantHasCause(ops: seq<Op>, i: nat) returns (j: nat)
    requires i <= |ops|
    requires At(ops, i).log != [] && !Active(At(ops, i))
    ensures j < i && AllowsReuse(At(ops, j), ops[j], Generation(At(ops, i)), At(ops, i).deadline)
    ensures forall k | j < k <= i :: At(ops, k) == At(ops, i)
    decreases i
  {
    assert i > 0;
    AtNext(ops, i - 1);
    if At(ops, i) == At(ops, i - 1) {
      j := ReuseInstantHasCause(ops, i - 1);
    } else {
      j := i - 1;
    }
  }

  /** Every recycling is earned: by the owner's completion plus its retention, by a release, by a lease
      sweep plus its retention, each at or before the claim's clock, or by a sweep with zero retention. */
  lemma RecyclingIsJustified(ops: seq<Op>, i: nat) returns (j: nat, at: int)
    requires i < |ops| && ops[i].TryClaim?
    requires Granted(At(ops, i), ops[i]) > 1
    ensures j <= i && at <= ops[i].now
    ensures
      || (j == i && Overdue(At(ops, i), ops[i].now) && ops[i].retention == 0)
      || (j < i && AllowsReuse(At(ops, j), ops[j], Granted(At(ops, i), ops[i]) - 1, at))
  {
    GrantRaisesGeneration(At(ops, i), ops[i]);
    j, at := i, ops[i].now;
    if !Overdue(At(ops, i), ops[i].now) {
      j := ReuseInstantHasCause(ops, i);
      at := At(ops, i).deadline;
    }
  }

  /** A release makes the slot claimable for every caller whose clock is not behind the release. */
  lemma ReleaseFreesAtOnce(h: History, g: nat, t: int, claim: Op)
    requires !Active(h) && h.log != [] && Generation(h) == g
    requires claim.TryClaim? && t <= claim.now
    ensures Granted(Apply(h, Release(g, t)), claim) == g + 1
  {
  }

  // ----- leases

  /** No claim attempt sees the lease ended, where e is the current lease end and each refresh moves it. */
  predicate LeaseUnbroken(g: nat, e: int, ops: seq<Op>)
    decreases |ops|
  {
    ops == []
    || match ops[0]
       case TryClaim(now, _, _, _, _) => now < e && LeaseUnbroken(g, e, ops[1..])
       case Refresh(g', now, lease) => LeaseUnbroken(g, if g' == g then now + lease else e, ops[1..])
       case _ => LeaseUnbroken(g, e, ops[1..])
  }

  predicate Completes(op: Op, g: nat) {
    op.Complete? && op.generation == g
  }

  /** `end` continues h, whose active generation a lease sweep has ended. */
  predicate EndedBySweep(h: History, end: History) {
    && |end.log| > |h.log|
    && end.log[|h.log|].generation == Generation(h)
    && end.log[|h.log|].state == Failed && end.log[|h.log|].error == LEASE_EXPIRED
  }

  lemma SweptForGood(h: History, op: Op, ops: seq<Op>)
    requires WellFormed(h) && Legal(op) && AllLegal(ops)
    requires op.TryClaim? && Overdue(h, op.now)
    ensures EndedBySweep(h, Run(Apply(h, op), ops))
  {
    hide Grown;
    ApplyKeepsWellFormed(h, op);
    RunKeepsWellFormed(Apply(h, op), ops);
  }

  lemma {:induction false} UnbrokenSurvives(h: History, ops: seq<Op>)
    requires Active(h) && LeaseUnbroken(Generation(h), h.deadline, ops)
    requires forall i :: 0 <= i < |ops| ==> !Completes(ops[i], Generation(h))
    ensures Run(h, ops).log == h.log
    decreases |ops|
  {
    if ops != [] {
      assert !Completes(ops[0], Generation(h));
      UnbrokenSurvives(Apply(h, ops[0]), ops[1..]);
    }
  }

  lemma {:induction false} BrokenIsSwept(h: History, ops: seq<Op>)
    requires WellFormed(h) && AllLegal(ops) && Active(h) && !LeaseUnbroken(Generation(h), h.deadline, ops)
    requires forall i :: 0 <= i < |ops| ==> !Completes(ops[i], Generation(h))
    ensures EndedBySweep(h, Run(h, ops))
    decreases |ops|
  {
    hide Grown;
    assert !Completes(ops[0], Generation(h));
    if ops[0].TryClaim? && Overdue(h, ops[0].now) {
      SweptForGood(h, ops[0], ops[1..]);
    } else {
      ApplyKeepsWellFormed(h, ops[0]);
      BrokenIsSwept(Apply(h, ops[0]), ops[1..]);
    }
  }

  /** Until somebody completes it, an active generation survives a run exactly when its lease is
      unbroken; otherwise a sweep has ended it as failed. */
  lemma ActiveIffLeaseUnbroken(h: History, ops: seq<Op>)
    requires WellFormed(h) && AllLegal(ops) && Active(h)
    requires forall i :: 0 <= i < |ops| ==> !Completes(ops[i], Generation(h))
    ensures LeaseUnbroken(Generation(h), h.deadline, ops) <==> Run(h, ops).log == h.log
    ensures Run(h, ops).log != h.log ==> EndedBySweep(h, Run(h, ops))
  {
    hide Grown, LeaseUnbroken, Run, Generation, Completes;
    if LeaseUnbroken(Generation(h), h.deadline, ops) {
      UnbrokenSurvives(h, ops);
    } else {
      BrokenIsSwept(h, ops);
    }
  }

  /** The owner acts, by refreshing or completing, only before the lease it then holds has ended. */
  predicate OwnerOnTime(g: nat, e: int, ops: seq<Op>)
    decreases |ops|
  {
    ops == []
    || match ops[0]
       case Refresh(g', now, lease) =>
         if g' == g then now < e && OwnerOnTime(g, now + lease, ops[1..]) else OwnerOnTime(g, e, ops[1..])
       case Complete(g', _, _, now, _, _, _) => (g' == g ==> now < e) && OwnerOnTime(g, e, ops[1..])
       case _ => OwnerOnTime(g, e, ops[1..])
  }

  lemma {:induction false} OnTimeMeansUnbroken(g: nat, e: int, ops: seq<Op>)
    requires ops != [] && ClockNondecreasing(ops) && OwnerOnTime(g, e, ops)
    requires Completes(ops[|ops| - 1], g)
    requires forall i :: 0 <= i < |ops| - 1 ==> !Completes(ops[i], g)
    ensures ops[0].now < e
    ensures LeaseUnbroken(g, e, ops[..|ops| - 1])
    decreases |ops|
  {
    if |ops| > 1 {
      var e' := if ops[0].Refresh? && ops[0].generation == g then ops[0].now + ops[0].lease else e;
      OnTimeMeansUnbroken(g, e', ops[1..]);
      assert ops[..|ops| - 1][1..] == ops[1..][..|ops| - 2];
      assert ops[0].now <= ops[1].now;
    }
  }

  /** Lease safety: under a nondecreasing clock an owner who is always on time is never swept, and
      the completion it finally sends is the one that is logged. */
  lemma PunctualOwnerIsNeverSwept(h: History, ops: seq<Op>)
    requires WellFormed(h) && Active(h)
    requires ops != [] && AllLegal(ops) && ClockNondecreasing(ops)
    requires Completes(ops[|ops| - 1], Generation(h))
    requires forall i :: 0 <= i < |ops| - 1 ==> !Completes(ops[i], Generation(h))
    requires OwnerOnTime(Generation(h), h.deadline, ops)
    ensures var done := ops[|ops| - 1];
            var end := Run(h, ops);
            && |end.log| == |h.log| + 1
            && end.log[|h.log|].state == done.state && end.log[|h.log|].error == done.error
            && end.deadline == done.now + done.retention
  {
    hide Grown, OwnerOnTime, LeaseUnbroken;
    var before := ops[..|ops| - 1];
    OnTimeMeansUnbroken(Generation(h), h.deadline, ops);
    ActiveIffLeaseUnbroken(h, before);
    assert ops == before + [ops[|ops| - 1]];
    RunSplit(h, before, [ops[|ops| - 1]]);
  }

  // ----- pools

  type Pool = map<nat, History>

  datatype PoolOp = PoolOp(slot: nat, op: Op)

  function Of(p: Pool, slot: nat): History {
    if slot in p then p[slot] else UNCLAIMED
  }

  function PoolStep(p: Pool, x: PoolOp): Pool {
    p[x.slot := Apply(Of(p, x.slot), x.op)]
  }

  function PoolRun(p: Pool, xs: seq<PoolOp>): Pool
    decreases |xs|
  {
    if xs == [] then p else PoolRun(PoolStep(p, xs[0]), xs[1..])
  }

  ghost predicate PoolLegal(xs: seq<PoolOp>) {
    forall i :: 0 <= i < |xs| ==> Legal(xs[i].op)
  }

  function On(slot: nat, xs: seq<PoolOp>): seq<Op>
    decreases |xs|
  {
    if xs == [] then []
    else (if xs[0].slot == slot then [xs[0].op] else []) + On(slot, xs[1..])
  }

  /** Slots do not interfere: a pool run, seen at one slot, is the run of that slot's own scripts. */
  lemma {:induction false} SlotsAreIndependent(p: Pool, xs: seq<PoolOp>, slot: nat)
    ensures Of(PoolRun(p, xs), slot) == Run(Of(p, slot), On(slot, xs))
    ensures PoolLegal(xs) ==> AllLegal(On(slot, xs))
    decreases |xs|
  {
    if xs != [] {
      SlotsAreIndependent(PoolStep(p, xs[0]), xs[1..], slot);
      var rest := On(slot, xs[1..]);
      assert ([xs[0].op] + rest)[1..] == rest;
      assert [] + rest == rest;
    }
  }

  lemma {:induction false} PoolRunSplit(p: Pool, a: seq<PoolOp>, b: seq<PoolOp>)
    ensures PoolRun(p, a + b) == PoolRun(PoolRun(p, a), b)
    decreases |a|
  {
    if a == [] {
      assert a + b == b;
    } else {
      assert (a + b)[1..] == a[1..] + b;
      PoolRunSplit(PoolStep(p, a[0]), a[1..], b);
    }
  }

  function PoolGrants(p: Pool, xs: seq<PoolOp>): seq<(nat, nat)>
    decreases |xs|
  {
    if xs == [] then []
    else
      var g := Granted(Of(p, xs[0].slot), xs[0].op);
      (if g > 0 then [(xs[0].slot, g)] else []) + PoolGrants(PoolStep(p, xs[0]), xs[1..])
  }

  lemma {:induction false} GrantsAreNew(p: Pool, xs: seq<PoolOp>, k: nat)
    requires k < |PoolGrants(p, xs)|
    ensures PoolGrants(p, xs)[k].1 > Generation(Of(p, PoolGrants(p, xs)[k].0))
    decreases |xs|
  {
    hide Apply, Granted, Generation;
    GrantRaisesGeneration(Of(p, xs[0].slot), xs[0].op);
    var g := Granted(Of(p, xs[0].slot), xs[0].op);
    if g > 0 {
      if k > 0 { GrantsAreNew(PoolStep(p, xs[0]), xs[1..], k - 1); }
    } else {
      GrantsAreNew(PoolStep(p, xs[0]), xs[1..], k);
    }
  }

  /** Identity: no two claims anywhere in a run hand out the same slot and generation. */
  lemma {:induction false} IdentityIsUnique(p: Pool, xs: seq<PoolOp>, i: nat, j: nat)
    requires i < j < |PoolGrants(p, xs)|
    ensures PoolGrants(p, xs)[i] != PoolGrants(p, xs)[j]
    decreases |xs|
  {
    hide Apply, Granted, Generation;
    GrantRaisesGeneration(Of(p, xs[0].slot), xs[0].op);
    var g := Granted(Of(p, xs[0].slot), xs[0].op);
    var p' := PoolStep(p, xs[0]);
    if g == 0 {
      IdentityIsUnique(p', xs[1..], i, j);
    } else if i > 0 {
      IdentityIsUnique(p', xs[1..], i - 1, j - 1);
    } else {
      GrantsAreNew(p', xs[1..], j - 1);
    }
  }

  lemma {:induction false} PoolGrantsSplit(p: Pool, a: seq<PoolOp>, b: seq<PoolOp>)
    ensures PoolGrants(p, a + b) == PoolGrants(p, a) + PoolGrants(PoolRun(p, a), b)
    decreases |a|
  {
    if a == [] {
      assert a + b == b;
    } else {
      hide Granted, PoolStep;
      assert (a + b)[1..] == a[1..] + b;
      PoolGrantsSplit(PoolStep(p, a[0]), a[1..], b);
    }
  }

  /** What the i-th script of a pool's run hands to its caller. */
  function GrantAt(p: Pool, xs: seq<PoolOp>, i: nat): nat
    requires i < |xs|
  {
    Granted(Of(PoolRun(p, xs[..i]), xs[i].slot), xs[i].op)
  }

  /** A claim that succeeds somewhere in a run is listed among the run's grants, after the earlier ones. */
  lemma GrantIsListed(p: Pool, xs: seq<PoolOp>, i: nat)
    requires i < |xs| && GrantAt(p, xs, i) > 0
    ensures |PoolGrants(p, xs[..i + 1])| == |PoolGrants(p, xs[..i])| + 1
    ensures var k := |PoolGrants(p, xs[..i])|;
            k < |PoolGrants(p, xs)| && PoolGrants(p, xs)[k] == (xs[i].slot, GrantAt(p, xs, i))
  {
    hide Granted, PoolRun, PoolStep;
    var q := PoolRun(p, xs[..i]);
    assert PoolGrants(q, [xs[i]]) == [(xs[i].slot, GrantAt(p, xs, i))];
    hide PoolGrants;
    assert xs[..i + 1] == xs[..i] + [xs[i]];
    PoolGrantsSplit(p, xs[..i], [xs[i]]);
    assert xs == xs[..i + 1] + xs[i + 1..];
    PoolGrantsSplit(p, xs[..i + 1], xs[i + 1..]);
  }

  /** Two claims that succeed at different points of one run never return the same slot and generation. */
  lemma ClaimsAreDistinct(p: Pool, xs: seq<PoolOp>, i: nat, j: nat)
    requires i < j < |xs| && GrantAt(p, xs, i) > 0 && GrantAt(p, xs, j) > 0
    ensures (xs[i].slot, GrantAt(p, xs, i)) != (xs[j].slot, GrantAt(p, xs, j))
  {
    hide GrantAt, PoolGrants, PoolRun;
    GrantIsListed(p, xs, i);
    GrantIsListed(p, xs, j);
    assert xs[..j] == xs[..i + 1] + xs[i + 1..j];
    PoolGrantsSplit(p, xs[..i + 1], xs[i + 1..j]);
    IdentityIsUnique(p, xs, |PoolGrants(p, xs[..i])|, |PoolGrants(p, xs[..j])|);
  }

  function ActiveSlots(p: Pool): set<nat> {
    set k | k in p && Active(p[k])
  }

  function SetsIn(h: History, op: Op): nat {
    if op.Complete? && Active(h) && Generation(h) == op.generation then 1 else 0
  }

  function SweepsIn(h: History, op: Op): nat {
    if op.TryClaim? && Overdue(h, op.now) then 1 else 0
  }

  /** Claims, successful completions and lease sweeps of a pool run. */
  datatype Tally = Tally(claims: nat, sets: nat, sweeps: nat)

  function Count(p: Pool, xs: seq<PoolOp>): Tally
    decreases |xs|
  {
    if xs == [] then Tally(0, 0, 0)
    else
      var h := Of(p, xs[0].slot);
      var rest := Count(PoolStep(p, xs[0]), xs[1..]);
      Tally(rest.claims + Bit(Granted(h, xs[0].op) > 0),
            rest.sets + SetsIn(h, xs[0].op),
            rest.sweeps + SweepsIn(h, xs[0].op))
  }

  function Bit(b: bool): nat {
    if b then 1 else 0
  }

  lemma ActiveSlotsAfterUpdate(p: Pool, slot: nat, h: History)
    ensures |ActiveSlots(p[slot := h])| - |ActiveSlots(p)| == Bit(Active(h)) - Bit(Active(Of(p, slot)))
  {
    var others := ActiveSlots(p) - {slot};
    assert ActiveSlots(p) == if Active(Of(p, slot)) then others + {slot} else others;
    assert ActiveSlots(p[slot := h]) == if Active(h) then others + {slot} else others;
  }

  lemma StepBalances(h: History, op: Op)
    ensures Bit(Active(Apply(h, op))) == Bit(Active(h)) + Bit(Granted(h, op) > 0) - SetsIn(h, op) - SweepsIn(h, op)
  {
  }

  /** Conservation: every claim is still running, was completed, or was swept. */
  lemma {:induction false} ActiveSlotsAreConserved(p: Pool, xs: seq<PoolOp>)
    ensures |ActiveSlots(PoolRun(p, xs))|
            == |ActiveSlots(p)| + Count(p, xs).claims - Count(p, xs).sets - Count(p, xs).sweeps
    decreases |xs|
  {
    if xs != [] {
      var h := Of(p, xs[0].slot);
      ActiveSlotsAfterUpdate(p, xs[0].slot, Apply(h, xs[0].op));
      StepBalances(h, xs[0].op);
      ActiveSlotsAreConserved(PoolStep(p, xs[0]), xs[1..]);
    }
  }
}

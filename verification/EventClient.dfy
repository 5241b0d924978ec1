/** RpcEvent: what one client does with the store while others keep claiming, completing, sweeping and
    recycling the same slots. `schedule(i)` is the arbitrary list of scripts that other clients get in
    before this client's i-th step; every contract below holds for every schedule. */
module EventClient {
  import opened Arithmetic
  import opened Wrappers
  import opened EventHistory
  import opened EventRuns
  import opened EventStore

  /** Identity is (slot, generation); durations are in milliseconds. */
  datatype RpcEvent = RpcEvent(slot: nat, generation: nat, retention: int, lease: int, maxlen: nat) {
    predicate Valid() {
      generation >= 1 && retention >= 0 && lease >= 1 && maxlen >= 2
    }
  }

  type Schedule = nat -> seq<PoolOp>

  ghost predicate Plausible(schedule: Schedule) {
    forall i: nat :: PoolLegal(schedule(i))
  }

  // ----- create

  /** The i-th slot tried by a scan of a pool of `size` slots. */
  function Cyclic(start: nat, i: nat, size: nat): nat
    requires size > 0
  {
    (start + i) % size
  }

  /** The attempt at which a scan from `start` reaches slot k. */
  function AttemptAt(start: nat, k: nat, size: nat): nat
    requires start < size && k < size
  {
    if k >= start then k - start else k + size - start
  }

  lemma CyclicBelow(start: nat, i: nat, size: nat)
    requires start < size && i < size
    ensures Cyclic(start, i, size) == if start + i < size then start + i else start + i - size
  {
    if start + i >= size {
      assert start + i == size + (start + i - size);
    }
  }

  /** A scan visits every slot of the pool exactly once: each slot at one attempt, each attempt one slot. */
  lemma ScanVisitsEachSlotOnce(start: nat, i: nat, size: nat)
    requires start < size && i < size
    ensures Cyclic(start, i, size) < size && AttemptAt(start, Cyclic(start, i, size), size) == i
    ensures AttemptAt(start, i, size) < size && Cyclic(start, AttemptAt(start, i, size), size) == i
  {
    CyclicBelow(start, i, size);
    CyclicBelow(start, AttemptAt(start, i, size), size);
  }

  lemma CyclicNext(start: nat, n: nat, size: nat)
    requires size > 0
    ensures Advance(Cyclic(start, n, size), size) == Cyclic(start, n + 1, size)
  {
    ModNext(start + n, size);
  }

  /** Creates of pools of one size take turns, wherever the counter stood, absent included: the n-th after
      a first one starts n slots further on. So any `size` of them in a row start at every slot once. */
  lemma {:induction false} StartsRotate(counter: int, sizes: seq<nat>, size: nat)
    requires counter >= -1 && size > 0 && sizes != []
    requires forall i :: 0 <= i < |sizes| ==> sizes[i] == size
    ensures CounterAfter(counter, sizes) == Cyclic(Advance(counter, size), |sizes| - 1, size)
    decreases |sizes|
  {
    if |sizes| == 1 {
      assert Advance(counter, size) < size;
      assert sizes[..0] == [];
    } else {
      StartsRotate(counter, sizes[..|sizes| - 1], size);
      CyclicNext(Advance(counter, size), |sizes| - 2, size);
    }
  }

  /** The arguments of one create call; `ticks(i)` is the server clock at the i-th attempt. */
  datatype Request = Request(now: int, lease: int, retention: int, maxlen: nat, ticks: nat -> nat) {
    predicate Valid() {
      now >= 0 && lease >= 1 && retention >= 0 && maxlen >= 2
    }

    function Attempt(i: nat): Op {
      TryClaim(now, lease, retention, maxlen, ticks(i))
    }
  }

  datatype Scan = Scan(pool: Pool, taken: Option<(nat, nat)>)

  /** A scan from the offset-th attempt on: the pool it leaves and the slot and generation it takes. */
  function ScanFrom(p: Pool, start: nat, size: nat, offset: nat, r: Request, schedule: Schedule): Scan
    requires size > 0 && offset <= size
    decreases size - offset
  {
    if offset == size then Scan(p, None)
    else
      var k := Cyclic(start, offset, size);
      var q := PoolRun(p, schedule(offset));
      var q' := PoolStep(q, PoolOp(k, r.Attempt(offset)));
      var g := Granted(Of(q, k), r.Attempt(offset));
      if g > 0 then Scan(q', Some((k, g))) else ScanFrom(q', start, size, offset + 1, r, schedule)
  }

  lemma ScanUnfolds(p: Pool, start: nat, size: nat, offset: nat, r: Request, schedule: Schedule)
    requires offset < size
    ensures var k := Cyclic(start, offset, size);
            var q := PoolRun(p, schedule(offset));
            var q' := PoolStep(q, PoolOp(k, r.Attempt(offset)));
            var g := Granted(Of(q, k), r.Attempt(offset));
            ScanFrom(p, start, size, offset, r, schedule)
            == if g > 0 then Scan(q', Some((k, g))) else ScanFrom(q', start, size, offset + 1, r, schedule)
    ensures ScanFrom(p, start, size, size, r, schedule) == Scan(p, None)
  {
  }

  /** The next-slot scripts of others before each of the first n attempts. */
  function CreatesBefore(creates: nat -> seq<nat>, n: nat): seq<nat>
    decreases n
  {
    if n == 0 then [] else CreatesBefore(creates, n - 1) + creates(n - 1)
  }

  /** The run that the first n attempts make, together with the scripts of others before each. */
  function ScanRun(start: nat, size: nat, r: Request, schedule: Schedule, n: nat): seq<PoolOp>
    requires size > 0
    decreases n
  {
    if n == 0 then []
    else
      ScanRun(start, size, r, schedule, n - 1) + schedule(n - 1)
      + [PoolOp(Cyclic(start, n - 1, size), r.Attempt(n - 1))]
  }

  /** The last script of a run, whose claim has handed out this event. */
  ghost predicate Claimed(p: Pool, xs: seq<PoolOp>, e: RpcEvent) {
    xs != [] && xs[|xs| - 1].slot == e.slot && GrantAt(p, xs, |xs| - 1) == e.generation > 0
  }

  lemma ScanRunGrows(p: Pool, start: nat, size: nat, r: Request, schedule: Schedule, n: nat)
    requires size > 0
    ensures var before := PoolRun(PoolRun(p, ScanRun(start, size, r, schedule, n)), schedule(n));
            var x := PoolOp(Cyclic(start, n, size), r.Attempt(n));
            var xs := ScanRun(start, size, r, schedule, n + 1);
            && PoolRun(p, xs) == PoolStep(before, x)
            && xs != [] && xs[|xs| - 1] == x && GrantAt(p, xs, |xs| - 1) == Granted(Of(before, x.slot), x.op)
  {
    hide Cyclic, Granted, PoolStep;
    var done, x := ScanRun(start, size, r, schedule, n), PoolOp(Cyclic(start, n, size), r.Attempt(n));
    var xs := ScanRun(start, size, r, schedule, n + 1);
    assert xs == (done + schedule(n)) + [x] && xs[..|xs| - 1] == done + schedule(n);
    PoolRunSplit(p, done, schedule(n));
    PoolRunSplit(p, done + schedule(n), [x]);
    assert PoolRun(PoolRun(p, done + schedule(n)), [x]) == PoolStep(PoolRun(p, done + schedule(n)), x);
  }

  /** One attempt of the scan, after whatever others did. */
  method AttemptSlot(store: Store, k: nat, r: Request, i: nat, others: seq<PoolOp>, creates: seq<nat>) returns (generation: nat)
    requires store.Valid() && r.Valid() && PoolLegal(others) && Positive(creates)
    modifies store
    ensures store.Valid() && store.counter == CounterAfter(old(store.counter), creates)
    ensures store.pool == PoolStep(PoolRun(old(store.pool), others), PoolOp(k, r.Attempt(i)))
    ensures generation == Granted(Of(PoolRun(old(store.pool), others), k), r.Attempt(i))
  {
    hide Mirrors, Granted, PoolRun, PoolStep, CounterAfter, Positive, Apply;
    store.Interfere(others);
    store.OtherCreates(creates);
    generation := store.TryClaim(k, r.now, r.lease, r.retention, r.maxlen, r.ticks(i));
  }

  /** create: `schedule` and `creates` are the scripts of other clients before each attempt. */
  method Create(store: Store, size: nat, r: Request, schedule: Schedule, creates: nat -> seq<nat>)
    returns (event: Option<RpcEvent>, ghost start: nat, ghost attempts: nat)
    requires store.Valid() && size > 0 && r.Valid() && Plausible(schedule)
    requires forall i: nat :: Positive(creates(i))
    modifies store
    ensures store.Valid()
    ensures start == Advance(old(store.counter), size) < size
    ensures attempts <= size && store.counter == CounterAfter(start, CreatesBefore(creates, attempts))
    ensures var scan := ScanFrom(old(store.pool), start, size, 0, r, schedule);
            && store.pool == scan.pool
            && event == (match scan.taken
                         case None => None
                         case Some((k, g)) => Some(RpcEvent(k, g, r.retention, r.lease, r.maxlen)))
    // the scripts that ran, and the event as the grant of the last of them
    ensures var xs := ScanRun(start, size, r, schedule, attempts);
            store.pool == PoolRun(old(store.pool), xs) && (event.Some? ==> Claimed(old(store.pool), xs, event.value))
  {
    hide Mirrors, ScanRun, GrantAt, ScanFrom, Granted, Cyclic, PoolRun, PoolStep, CounterAfter, Positive, PoolLegal;
    var first := store.NextSlot(size);
    start, attempts := first, 0;
    ghost var p := store.pool;
    CounterStays(start);
    NothingScanned(p, start, size, r, schedule);
    var offset := 0;
    while offset < size
      invariant offset == attempts <= size && store.Valid()
      invariant store.counter == CounterAfter(start, CreatesBefore(creates, attempts))
      invariant ScanFrom(p, start, size, 0, r, schedule) == ScanFrom(store.pool, start, size, offset, r, schedule)
      invariant store.pool == PoolRun(p, ScanRun(start, size, r, schedule, attempts))
    {
      ScanUnfolds(store.pool, start, size, offset, r, schedule);
      ScanRunGrows(p, start, size, r, schedule, offset);
      CounterAppends(start, CreatesBefore(creates, offset), creates(offset));
      attempts := attempts + 1;
      var k := Cyclic(first, offset, size);
      var generation := AttemptSlot(store, k, r, offset, schedule(offset), creates(offset));
      if generation > 0 {
        event := Some(RpcEvent(k, generation, r.retention, r.lease, r.maxlen));
        return;
      }
      offset := offset + 1;
    }
    ScanUnfolds(store.pool, start, size, size - 1, r, schedule);
    event := None;
  }

  lemma NothingScanned(p: Pool, start: nat, size: nat, r: Request, schedule: Schedule)
    requires size > 0
    ensures PoolRun(p, ScanRun(start, size, r, schedule, 0)) == p
  {
  }

  /** No two creates return the same event, however they overlap: in the run of all scripts, each event is
      the grant of the script with which its create ended. */
  lemma EventsAreDistinct(p: Pool, xs: seq<PoolOp>, i: nat, j: nat, e: RpcEvent, e': RpcEvent)
    requires i < j < |xs| && Claimed(p, xs[..i + 1], e) && Claimed(p, xs[..j + 1], e')
    ensures (e.slot, e.generation) != (e'.slot, e'.generation)
  {
    assert xs[..i + 1][..i] == xs[..i] && xs[..j + 1][..j] == xs[..j];
    ClaimsAreDistinct(p, xs, i, j);
  }

  /** An event claimed in a run of its own create is claimed, by the same script, in every run that has been
      going on before. */
  lemma ClaimedInContext(p: Pool, before: seq<PoolOp>, xs: seq<PoolOp>, e: RpcEvent)
    requires Claimed(PoolRun(p, before), xs, e)
    ensures Claimed(p, before + xs, e)
  {
    hide Granted, PoolRun;
    var all := before + xs;
    assert all[..|all| - 1] == before + xs[..|xs| - 1];
    PoolRunSplit(p, before, xs[..|xs| - 1]);
    assert all[|all| - 1] == xs[|xs| - 1];
  }

  lemma CounterStays(counter: int)
    requires counter >= -1
    ensures CounterAfter(counter, []) == counter
  {
  }

  lemma GrantMakesActive(h: History, op: Op)
    requires Granted(h, op) > 0
    ensures Active(Apply(h, op)) && Generation(Apply(h, op)) == Granted(h, op) > Generation(h)
    ensures Apply(h, op).deadline == op.now + op.lease
  {
  }

  lemma {:induction false} PoolGenerationGrows(p: Pool, xs: seq<PoolOp>, k: nat)
    ensures Generation(Of(PoolRun(p, xs), k)) >= Generation(Of(p, k))
    decreases |xs|
  {
    if xs != [] {
      GrantRaisesGeneration(Of(p, xs[0].slot), xs[0].op);
      PoolGenerationGrows(PoolStep(p, xs[0]), xs[1..], k);
    }
  }

  lemma AttemptGenerationGrows(p: Pool, xs: seq<PoolOp>, x: PoolOp, k: nat)
    ensures Generation(Of(PoolStep(PoolRun(p, xs), x), k)) >= Generation(Of(p, k))
  {
    hide Granted, Apply, Generation;
    PoolGenerationGrows(p, xs, k);
    GrantRaisesGeneration(Of(PoolRun(p, xs), x.slot), x.op);
  }

  /** Whatever the others do, a created event is new: no claim on its slot had reached its generation
      when create was called, and on return it is active with a full lease. */
  lemma {:induction false} CreatedEventIsNew(p: Pool, start: nat, size: nat, offset: nat, r: Request, schedule: Schedule)
    requires size > 0 && offset <= size
    requires ScanFrom(p, start, size, offset, r, schedule).taken.Some?
    ensures var scan := ScanFrom(p, start, size, offset, r, schedule);
            var (k, g) := scan.taken.value;
            && k < size && g > Generation(Of(p, k))
            && Active(Of(scan.pool, k)) && Generation(Of(scan.pool, k)) == g
            && Of(scan.pool, k).deadline == r.now + r.lease
    decreases size - offset
  {
    hide Granted, Apply, Generation, Active, PoolRun;
    var k := Cyclic(start, offset, size);
    var q := PoolRun(p, schedule(offset));
    var op := r.Attempt(offset);
    var q' := PoolStep(q, PoolOp(k, op));
    ScanUnfolds(p, start, size, offset, r, schedule);
    if Granted(Of(q, k), op) == 0 {
      CreatedEventIsNew(q', start, size, offset + 1, r, schedule);
      AttemptGenerationGrows(p, schedule(offset), PoolOp(k, op), ScanFrom(q', start, size, offset + 1, r, schedule).taken.value.0);
    } else {
      GrantMakesActive(Of(q, k), op);
      PoolGenerationGrows(p, schedule(offset), k);
    }
  }

  ghost predicate Quiet(schedule: Schedule) {
    forall i: nat :: schedule(i) == []
  }

  /** The first attempt whose slot can be taken, `size` if there is none. */
  function FirstTakeable(p: Pool, start: nat, size: nat, offset: nat, r: Request): (j: nat)
    requires size > 0 && offset <= size
    ensures offset <= j <= size
    decreases size - offset
  {
    if offset == size || CanTake(Of(p, Cyclic(start, offset, size)), r.now, r.retention) then offset
    else FirstTakeable(p, start, size, offset + 1, r)
  }

  lemma {:induction false} FirstTakeableIsFirst(p: Pool, start: nat, size: nat, offset: nat, r: Request)
    requires size > 0 && offset <= size
    ensures var j := FirstTakeable(p, start, size, offset, r);
            && (j < size ==> CanTake(Of(p, Cyclic(start, j, size)), r.now, r.retention))
            && forall i :: offset <= i < j ==> !CanTake(Of(p, Cyclic(start, i, size)), r.now, r.retention)
    decreases size - offset
  {
    hide CanTake, Cyclic, Of;
    if offset < size && !CanTake(Of(p, Cyclic(start, offset, size)), r.now, r.retention) {
      FirstTakeableIsFirst(p, start, size, offset + 1, r);
    }
  }

  lemma AttemptEither(h: History, r: Request, i: nat)
    ensures CanTake(h, r.now, r.retention) ==> Granted(h, r.Attempt(i)) == Generation(h) + 1
    ensures !CanTake(h, r.now, r.retention) ==>
              Granted(h, r.Attempt(i)) == 0 && Apply(h, r.Attempt(i)) == Sweep(h, r.now, r.retention, r.ticks(i))
  {
  }

  /** What a scan without interference leaves of slot k, when attempts before `offset` are behind it and
      attempt j is the one that succeeds. */
  function Left(p: Pool, start: nat, size: nat, offset: nat, j: nat, r: Request, k: nat): History
    requires start < size
  {
    if k >= size then Of(p, k)
    else
      var i := AttemptAt(start, k, size);
      if offset <= i < j then Sweep(Of(p, k), r.now, r.retention, r.ticks(i))
      else if i == j then Apply(Of(p, k), r.Attempt(j))
      else Of(p, k)
  }

  lemma LeftSkips(p: Pool, start: nat, size: nat, offset: nat, j: nat, r: Request, k: nat)
    requires start < size && offset < j <= size
    ensures var s := Cyclic(start, offset, size);
            Left(p[s := Sweep(Of(p, s), r.now, r.retention, r.ticks(offset))], start, size, offset + 1, j, r, k)
            == Left(p, start, size, offset, j, r, k)
  {
    hide Sweep, Apply, Cyclic;
    ScanVisitsEachSlotOnce(start, offset, size);
    if k < size { ScanVisitsEachSlotOnce(start, k, size); }
  }

  lemma LeftTakes(p: Pool, start: nat, size: nat, j: nat, r: Request, k: nat)
    requires start < size && j < size
    ensures var s := Cyclic(start, j, size);
            Left(p, start, size, j, j, r, k) == Of(p[s := Apply(Of(p, s), r.Attempt(j))], k)
  {
    hide Sweep, Apply, Cyclic;
    ScanVisitsEachSlotOnce(start, j, size);
    if k < size { ScanVisitsEachSlotOnce(start, k, size); }
  }

  /** The slots still ahead of the scan are the same in both pools. */
  ghost predicate SameAhead(p: Pool, q: Pool, start: nat, size: nat, offset: nat)
    requires size > 0
  {
    forall i :: offset <= i < size ==> Of(p, Cyclic(start, i, size)) == Of(q, Cyclic(start, i, size))
  }

  lemma SameAheadSkips(p: Pool, q: Pool, start: nat, size: nat, offset: nat, h: History)
    requires start < size && offset < size && SameAhead(p, q, start, size, offset)
    ensures SameAhead(p[Cyclic(start, offset, size) := h], q, start, size, offset + 1)
  {
    ScanVisitsEachSlotOnce(start, offset, size);
    forall i | offset + 1 <= i < size
      ensures Of(p[Cyclic(start, offset, size) := h], Cyclic(start, i, size)) == Of(q, Cyclic(start, i, size))
    {
      ScanVisitsEachSlotOnce(start, i, size);
    }
  }

  lemma FirstTakeableUnfolds(p: Pool, start: nat, size: nat, offset: nat, r: Request)
    requires offset < size
    ensures FirstTakeable(p, start, size, offset, r)
            == if CanTake(Of(p, Cyclic(start, offset, size)), r.now, r.retention) then offset
               else FirstTakeable(p, start, size, offset + 1, r)
  {
    hide CanTake, Cyclic, Of;
  }

  lemma {:induction false} QuietTakenFrom(p0: Pool, p: Pool, start: nat, size: nat, offset: nat, r: Request, schedule: Schedule)
    requires start < size && offset <= size && Quiet(schedule)
    requires SameAhead(p, p0, start, size, offset)
    ensures var j := FirstTakeable(p0, start, size, offset, r);
            ScanFrom(p, start, size, offset, r, schedule).taken
            == (if j == size then None
                else Some((Cyclic(start, j, size), Generation(Of(p0, Cyclic(start, j, size))) + 1)))
    decreases size - offset
  {
    if offset < size {
      assert PoolRun(p, schedule(offset)) == p;
      FirstTakeableUnfolds(p0, start, size, offset, r);
      hide CanTake, Granted, Apply, Sweep, Generation, ScanFrom, PoolRun, Cyclic, FirstTakeable;
      var s := Cyclic(start, offset, size);
      assert Of(p, s) == Of(p0, s);
      hide SameAhead;
      AttemptEither(Of(p, s), r, offset);
      ScanUnfolds(p, start, size, offset, r, schedule);
      hide Of, Quiet;
      if !CanTake(Of(p, s), r.now, r.retention) {
        SameAheadSkips(p, p0, start, size, offset, Apply(Of(p, s), r.Attempt(offset)));
        assert Quiet(schedule);
        QuietTakenFrom(p0, PoolStep(p, PoolOp(s, r.Attempt(offset))), start, size, offset + 1, r, schedule);
      }
    }
  }

  lemma {:induction false} QuietLeftFrom(p0: Pool, p: Pool, start: nat, size: nat, offset: nat, r: Request, schedule: Schedule, k: nat)
    requires start < size && offset <= size && Quiet(schedule)
    requires SameAhead(p, p0, start, size, offset)
    ensures Of(ScanFrom(p, start, size, offset, r, schedule).pool, k)
            == Left(p, start, size, offset, FirstTakeable(p0, start, size, offset, r), r, k)
    decreases size - offset
  {
    assert offset == size ==> Left(p, start, size, offset, size, r, k) == Of(p, k);
    if offset < size {
      assert PoolRun(p, schedule(offset)) == p;
      hide CanTake, Granted, Apply, Sweep, Generation, ScanFrom, PoolRun, Cyclic, Left;
      var s := Cyclic(start, offset, size);
      assert Of(p, s) == Of(p0, s);
      hide SameAhead;
      AttemptEither(Of(p, s), r, offset);
      ScanUnfolds(p, start, size, offset, r, schedule);
      if CanTake(Of(p, s), r.now, r.retention) {
        LeftTakes(p, start, size, offset, r, k);
      } else {
        SameAheadSkips(p, p0, start, size, offset, Apply(Of(p, s), r.Attempt(offset)));
        QuietLeftFrom(p0, PoolStep(p, PoolOp(s, r.Attempt(offset))), start, size, offset + 1, r, schedule, k);
        LeftSkips(p, start, size, offset, FirstTakeable(p0, start, size, offset, r), r, k);
      }
    }
  }

  /** Without interference the scan takes the first slot, in cyclic order, that can be taken; a skipped
      slot has at most had an expired lease swept, and no other slot has changed. */
  lemma QuietScan(p: Pool, start: nat, size: nat, r: Request, schedule: Schedule, k: nat)
    requires start < size && Quiet(schedule)
    ensures var scan := ScanFrom(p, start, size, 0, r, schedule);
            var j := FirstTakeable(p, start, size, 0, r);
            && scan.taken == (if j == size then None
                              else Some((Cyclic(start, j, size), Generation(Of(p, Cyclic(start, j, size))) + 1)))
            && Of(scan.pool, k) == Left(p, start, size, 0, j, r, k)
  {
    QuietTakenFrom(p, p, start, size, 0, r, schedule);
    QuietLeftFrom(p, p, start, size, 0, r, schedule, k);
  }

  /** Without interference create raises exhausted exactly when no slot of the pool can be taken. */
  lemma ExhaustedIffNothingToTake(p: Pool, start: nat, size: nat, r: Request, schedule: Schedule)
    requires start < size && Quiet(schedule)
    ensures ScanFrom(p, start, size, 0, r, schedule).taken == None
            <==> forall k: nat :: k < size ==> !CanTake(Of(p, k), r.now, r.retention)
  {
    hide CanTake, ScanFrom;
    QuietScan(p, start, size, r, schedule, 0);
    FirstTakeableIsFirst(p, start, size, 0, r);
    var j := FirstTakeable(p, start, size, 0, r);
    if j < size {
      ScanVisitsEachSlotOnce(start, j, size);
    } else {
      forall k: nat | k < size ensures !CanTake(Of(p, k), r.now, r.retention) {
        ScanVisitsEachSlotOnce(start, k, size);
        assert !CanTake(Of(p, Cyclic(start, AttemptAt(start, k, size), size)), r.now, r.retention);
      }
    }
  }

  /** After a release at t, a create whose clock is at least t does not come out empty, if nobody interferes:
      it takes this slot's next generation, or one of the slots that its scan reaches before. */
  lemma ReleasedSlotIsTaken(p: Pool, k: nat, g: nat, t: int, start: nat, size: nat, r: Request, schedule: Schedule)
    requires start < size && k < size && t <= r.now && Quiet(schedule)
    requires !Active(Of(p, k)) && Of(p, k).log != [] && Generation(Of(p, k)) == g
    ensures var scan := ScanFrom(PoolStep(p, PoolOp(k, Op.Release(g, t))), start, size, 0, r, schedule);
            && scan.taken.Some? && scan.taken.value.0 < size
            && AttemptAt(start, scan.taken.value.0, size) <= AttemptAt(start, k, size)
            && (scan.taken.value.0 == k ==> scan.taken.value.1 == g + 1)
  {
    var q := PoolStep(p, PoolOp(k, Op.Release(g, t)));
    ReleaseFreesAtOnce(Of(p, k), g, t, r.Attempt(0));
    assert Of(q, k) == Apply(Of(p, k), Op.Release(g, t)) && Generation(Of(q, k)) == g;
    assert CanTake(Of(q, k), r.now, r.retention);
    hide CanTake, Apply, ScanFrom, FirstTakeable, Cyclic, PoolStep, Generation, Active, Granted;
    var j := FirstTakeable(q, start, size, 0, r);
    QuietScan(q, start, size, r, schedule, k);
    FirstTakeableIsFirst(q, start, size, 0, r);
    ScanVisitsEachSlotOnce(start, k, size);
    var i := AttemptAt(start, k, size);
    assert Cyclic(start, i, size) == k;
    assert j <= i;
    ScanVisitsEachSlotOnce(start, j, size);
  }

  /** A pass at t over an abandoned slot makes it takeable for every pass from t + retention on, and
      with zero retention for the sweeping pass itself. */
  lemma AbandonedSlotComesBack(h: History, t: int, retention: int, tick: nat, t': int, retention': int)
    requires Overdue(h, t) && retention >= 0 && t' >= t + retention
    ensures CanTake(Sweep(h, t, retention, tick), t', retention')
    ensures !Ended(h, Generation(h)) && Ended(Sweep(h, t, retention, tick), Generation(h))
    ensures retention == 0 ==> CanTake(h, t, retention)
  {
  }

  // ----- reading the stream

  /** XREAD: the stored entries after an ID, oldest first. */
  function After(stream: seq<Entry>, lastId: nat): seq<Entry>
    decreases |stream|
  {
    if stream == [] || stream[0].id > lastId then stream else After(stream[1..], lastId)
  }

  function Rows(stream: seq<Entry>, lastId: nat, count: nat): seq<Entry> {
    var rest := After(stream, lastId);
    if |rest| <= count then rest else rest[..count]
  }

  function IdAt(log: seq<Entry>, pos: nat): nat
    requires pos <= |log|
  {
    if pos == 0 then 0 else log[pos - 1].id
  }

  lemma {:induction false} AfterIsTail(log: seq<Entry>, from: nat, pos: nat)
    requires Grown(log) && from <= |log| && pos <= |log|
    ensures After(log[from..], IdAt(log, pos)) == log[if from < pos then pos else from..]
    decreases |log| - from
  {
    LogAlternates(log);
    if from < |log| {
      assert log[from..][0] == log[from];
      if from < pos {
        assert log[from..][1..] == log[from + 1..];
        AfterIsTail(log, from + 1, pos);
      }
    }
  }

  lemma WindowOf(stream: seq<Entry>, log: seq<Entry>)
    requires IsTail(stream, log)
    ensures |stream| <= |log| && stream == log[|log| - |stream|..]
  {
  }

  lemma FirstOfTail(log: seq<Entry>, start: nat, count: nat)
    requires start <= |log|
    ensures var rest := log[start..];
            var rows := if |rest| <= count then rest else rest[..count];
            start + |rows| <= |log| && rows == log[start..start + |rows|] && (start + |rows| == |log| || |rows| == count)
  {
  }

  /** The rows read are a window of the log: from the oldest entry still stored and not yet consumed. */
  lemma RowsAreWindow(stream: seq<Entry>, lastId: nat, log: seq<Entry>, pos: nat, count: nat) returns (start: nat)
    requires Grown(log) && StreamAgrees(stream, lastId, log) && pos <= |log| && count >= 1
    ensures start == if pos < |log| - |stream| then |log| - |stream| else pos
    ensures |log| <= pos + 2 ==> start == pos
    ensures var rows := Rows(stream, IdAt(log, pos), count);
            && start + |rows| <= |log| && rows == log[start..start + |rows|]
            && (start + |rows| == |log| || |rows| == count)
            && (rows == [] <==> pos == |log|)
  {
    hide Grown, IsTail, After;
    WindowOf(stream, log);
    var from := |log| - |stream|;
    start := if pos < from then from else pos;
    AfterIsTail(log, from, pos);
    FirstOfTail(log, start, count);
  }

  /** No lost wake-up: whoever has consumed no entry beyond its generation's creation finds something to
      read as soon as that generation has ended, however far the slot has moved on. */
  lemma NoLostWakeUp(s: Slot, h: History, g: nat, pos: nat, count: nat)
    requires Represents(s, h) && g >= 1 && count >= 1
    requires pos <= OutcomeIndex(g) && pos <= |h.log|
    requires Ended(h, g)
    ensures Rows(s.stream, IdAt(h.log, pos), count) != []
  {
    hide Represents;
    RepresentsParts(s, h);
    var _ := RowsAreWindow(s.stream, s.lastId, h.log, pos, count);
  }

  /** Why two entries suffice: until generation g + 1 has ended too, the stream holds g's outcome, and a
      reader that had consumed everything before it reads it first. */
  lemma OutcomeIsReadFirst(s: Slot, h: History, g: nat, count: nat)
    requires Represents(s, h) && g >= 1 && count >= 1
    requires Ended(h, g) && !Ended(h, g + 1)
    ensures var rows := Rows(s.stream, IdAt(h.log, OutcomeIndex(g)), count);
            rows != [] && rows[0] == h.log[OutcomeIndex(g)]
  {
    hide Represents;
    RepresentsParts(s, h);
    var start := RowsAreWindow(s.stream, s.lastId, h.log, OutcomeIndex(g), count);
  }

  lemma RepresentsParts(s: Slot, h: History)
    requires Represents(s, h)
    ensures Grown(h.log) && StreamAgrees(s.stream, s.lastId, h.log)
  {
  }

  datatype Verdict = Continue(lastId: nat) | Outcome(state: State, error: string) | MovedOn(generation: nat) | Garbled(state: State)

  predicate Decisive(e: Entry, g: nat) {
    e.generation > g || (e.generation == g && e.state != Created)
  }

  function Decide(e: Entry, g: nat): Verdict
    requires Decisive(e, g)
  {
    if e.generation > g then MovedOn(e.generation)
    else if Terminal(e.state) then Outcome(e.state, e.error)
    else Garbled(e.state)
  }

  /** The loop over the entries of one read. */
  method ScanRows(rows: seq<Entry>, g: nat, lastId0: nat) returns (v: Verdict, at: nat)
    ensures at <= |rows| && forall i :: 0 <= i < at ==> !Decisive(rows[i], g)
    ensures at < |rows| ==> Decisive(rows[at], g) && v == Decide(rows[at], g)
    ensures at == |rows| ==> v == Continue(if rows == [] then lastId0 else rows[|rows| - 1].id)
  {
    var lastId := lastId0;
    at := 0;
    while at < |rows|
      invariant at <= |rows| && forall i :: 0 <= i < at ==> !Decisive(rows[i], g)
      invariant lastId == if at == 0 then lastId0 else rows[at - 1].id
    {
      var e := rows[at];
      lastId := e.id;
      if e.generation < g {
        at := at + 1;
        continue;
      }
      if e.generation > g {
        return MovedOn(e.generation), at;
      }
      if e.state == Created {
        at := at + 1;
        continue;
      }
      if Terminal(e.state) {
        return Outcome(e.state, e.error), at;
      }
      return Garbled(e.state), at;
    }
    v := Continue(lastId);
  }

  /** In a history, the first decisive entry for generation g is its outcome; what comes later
      belongs to newer generations. */
  lemma DecisiveFromOutcomeOn(log: seq<Entry>, g: nat)
    requires Grown(log) && g >= 1
    ensures forall i :: 0 <= i < |log| ==> (Decisive(log[i], g) <==> i >= OutcomeIndex(g))
    ensures forall i :: 0 <= i < |log| && i > OutcomeIndex(g) ==> Decide(log[i], g) == MovedOn(i / 2 + 1)
    ensures |log| > OutcomeIndex(g) ==>
              Decide(log[OutcomeIndex(g)], g) == Outcome(log[OutcomeIndex(g)].state, log[OutcomeIndex(g)].error)
  {
    LogAlternates(log);
  }

  /** One read digested: which rows decide, told by where the rows lie in the log. It goes on exactly
      when the rows end before the outcome, and finds the outcome exactly when they cover it. */
  method Digest(rows: seq<Entry>, g: nat, lastId: nat, ghost log: seq<Entry>, ghost start: nat) returns (v: Verdict)
    requires Grown(log) && g >= 1 && rows != []
    requires start + |rows| <= |log| && rows == log[start..start + |rows|]
    ensures v.Continue? <==> start + |rows| <= OutcomeIndex(g)
    ensures v.Continue? ==> v.lastId == IdAt(log, start + |rows|)
    ensures v.Outcome? <==> start <= OutcomeIndex(g) < start + |rows|
    ensures v.Outcome? ==> v.state == log[OutcomeIndex(g)].state && v.error == log[OutcomeIndex(g)].error
    ensures v.MovedOn? <==> start > OutcomeIndex(g)
    ensures v.MovedOn? ==> v.generation == start / 2 + 1
  {
    DecisiveFromOutcomeOn(log, g);
    var at;
    v, at := ScanRows(rows, g, lastId);
    hide Decide, Decisive;
    assert forall j :: 0 <= j < |rows| ==> rows[j] == log[start + j];
    assert start > OutcomeIndex(g) ==> Decisive(rows[0], g);
    if at == |rows| {
      assert !Decisive(rows[at - 1], g);
    }
  }

  // ----- wait

  datatype WaitOutcome =
    | Result(state: State, error: string)
    | NoResult                // wait returned None
    | Expired                 // raised RpcEventExpired
    | Invalid(state: State)   // raised RpcEventError
    | Blocked                 // an unlimited XREAD has not been answered

  /** What a client holding generation g makes of the hash; NoResult stands for `created`. */
  function Look(s: Slot, g: nat): WaitOutcome {
    if s.meta.None? || s.meta.value.generation != g then Expired
    else if s.meta.value.state == Created then NoResult
    else if Terminal(s.meta.value.state) then Result(s.meta.value.state, s.meta.value.error)
    else Invalid(s.meta.value.state)
  }

  /** What a look at the hash means for the history. */
  ghost predicate Seen(h: History, g: nat, seen: WaitOutcome) {
    match seen
    case NoResult => Active(h) && Generation(h) == g
    case Expired => Generation(h) != g
    case Result(state, error) =>
      g >= 1 && |h.log| == 2 * g && h.log[|h.log| - 1].state == state && h.log[|h.log| - 1].error == error
    case Invalid(_) => false
    case Blocked => false
  }

  /** How an outcome of wait is justified by the slot's history when wait began and when it ended: a
      result is the logged outcome of this very generation; expiry means that the slot has moved on
      (or that the handle was never issued); who gives up or still blocks does so on an active event. */
  ghost predicate Justified(before: History, after: History, g: nat, outcome: WaitOutcome)
    requires g >= 1
  {
    match outcome
    case Result(state, error) =>
      Ended(after, g) && after.log[OutcomeIndex(g)].state == state && after.log[OutcomeIndex(g)].error == error
    case Expired => !Issued(before, g) || Recycled(after, g)
    case NoResult => Active(after) && Generation(after) == g
    case Blocked => Active(after) && Generation(after) == g
    case Invalid(_) => false
  }

  lemma SeenIsJustified(before: History, after: History, g: nat, seen: WaitOutcome)
    requires g >= 1 && before.log <= after.log && Seen(after, g, seen)
    ensures Justified(before, after, g, seen)
    ensures seen == NoResult ==> |after.log| == OutcomeIndex(g)
    ensures seen != Blocked
  {
  }

  lemma BlockedIsJustified(before: History, after: History, g: nat)
    requires g >= 1 && |after.log| == OutcomeIndex(g)
    ensures Justified(before, after, g, Blocked)
  {
  }

  lemma LookTells(s: Slot, h: History, g: nat)
    requires Represents(s, h) && g >= 1
    ensures Seen(h, g, Look(s, g))
  {
    HashTells(s, h);
    hide Represents;
  }

  /** Retention, as it is observed: from a completion on, until its retention is over or somebody releases
      the generation, every look at the hash gives that outcome. */
  lemma OutcomeIsSeenThroughoutRetention(h: History, done: Op, ops: seq<Op>, n: nat, s: Slot)
    requires done.Complete? && Active(h) && Generation(h) == done.generation && Terminal(done.state)
    requires n <= |ops| && ClockNondecreasing(ops)
    requires n > 0 ==> ops[n - 1].now < done.now + done.retention
    requires forall i :: 0 <= i < n ==> !(ops[i].Release? && ops[i].generation == done.generation)
    requires Represents(s, Run(Apply(h, done), ops[..n]))
    ensures Look(s, done.generation) == Result(done.state, done.error)
  {
    hide ClockNondecreasing, Grown, IsTail;
    RetentionWindow(h, done, ops, n);
  }

  /** Agreement, as it is observed: two waiters on one generation that get a result, overlapping or not, get
      the same; and a wait that begins after a result was given ends with the same one, or by expiry
      because the slot has moved on. */
  lemma WaitersAgree(before: History, after: History, before': History, after': History, g: nat,
                     first: WaitOutcome, second: WaitOutcome)
    requires g >= 1 && first.Result?
    requires Justified(before, after, g, first) && Justified(before', after', g, second)
    requires after.log <= after'.log || after'.log <= after.log
    ensures second.Result? ==> second == first
    ensures after.log <= before'.log <= after'.log ==> second == first || (second == Expired && Recycled(after', g))
  {
  }

  lemma StepAddsAtMostTwo(h: History, op: Op)
    ensures |h.log| <= |Apply(h, op).log| <= |h.log| + 2
  {
  }

  // ----- a connection to the store

  /** The parts of a schedule from one to another. */
  function Parts(schedule: Schedule, from: nat, upTo: nat): seq<PoolOp>
    requires from <= upTo
    decreases upTo
  {
    if from == upTo then [] else Parts(schedule, from, upTo - 1) + schedule(upTo - 1)
  }

  /** One XREAD as it went: the block time it was sent with, whether it had to wait, and what it returned. */
  datatype Read = Read(blockMs: nat, waited: bool, rows: seq<Entry>)

  /** Where a connection has got to. */
  datatype Mark = Mark(pool: Pool, step: nat, readings: nat, past: seq<PoolOp>, polls: seq<Read>)

  /** What one client has at hand: the store, on which others get in before each access and while a read
      blocks, and the monotonic clock. `step` parts of the schedule and `readings` of the clock are used up;
      `past` are the scripts of others that have run, `polls` the XREADs sent. */
  class Connection {
    const store: Store
    const schedule: Schedule
    const clock: nat -> int
    var step: nat
    var readings: nat
    ghost var past: seq<PoolOp>
    ghost var polls: seq<Read>

    ghost predicate Valid()
      reads this, store
    {
      store.Valid() && Plausible(schedule)
    }

    constructor (store: Store, schedule: Schedule, clock: nat -> int)
      requires store.Valid() && Plausible(schedule)
      ensures Valid() && this.store == store && this.schedule == schedule && this.clock == clock
      ensures step == 0 && readings == 0 && past == [] && polls == []
    {
      this.store, this.schedule, this.clock := store, schedule, clock;
      step, readings, past, polls := 0, 0, [], [];
    }

    ghost function Here(): Mark
      reads this, store
    {
      Mark(store.pool, step, readings, past, polls)
    }

    method Now() returns (now: int)
      modifies this`readings
      ensures now == clock(old(readings)) && readings == old(readings) + 1
    {
      now := clock(readings);
      readings := readings + 1;
    }

    method LetOthersIn()
      requires Valid()
      modifies this`step, this`past, store`slots, store`pool
      ensures Valid() && Grew(old(store.pool), store.pool)
      ensures step == old(step) + 1 && past == old(past) + schedule(old(step))
      ensures store.pool == PoolRun(old(store.pool), schedule(old(step)))
    {
      hide Mirrors, PoolRun, Grew, PoolLegal;
      store.Interfere(schedule(step));
      past := past + schedule(step);
      step := step + 1;
    }

    /** _snapshot. */
    method Snapshot(e: RpcEvent) returns (seen: WaitOutcome)
      requires Valid() && e.Valid()
      modifies this`step, this`past, store`slots, store`pool
      ensures Valid() && Grew(old(store.pool), store.pool)
      ensures step == old(step) + 1 && past == old(past) + schedule(old(step))
      ensures store.pool == PoolRun(old(store.pool), schedule(old(step)))
      ensures Seen(Of(store.pool, e.slot), e.generation, seen)
    {
      hide Mirrors, Represents, PoolRun, Look, Seen, Grew;
      LetOthersIn();
      seen := Look(store.SlotAt(e.slot), e.generation);
      MirrorsAt(store.slots, store.pool, e.slot);
      LookTells(store.SlotAt(e.slot), Of(store.pool, e.slot), e.generation);
    }

    /** XREAD with BLOCK: answered at once if something is stored after lastId, otherwise by the first
        script of the next part that appends; it comes back empty only when none of that part did.
        `pos` counts the log entries the caller has consumed, `start` is where the rows begin, and `ran`
        how many scripts ran while it blocked. */
    method XRead(slot: nat, lastId: nat, count: nat, blockMs: nat, ghost pos: nat)
      returns (rows: seq<Entry>, waited: bool, ghost start: nat, ghost ran: nat)
      requires Valid() && count >= 1
      requires pos <= |Of(store.pool, slot).log| && lastId == IdAt(Of(store.pool, slot).log, pos)
      modifies this`step, this`past, this`polls, store`slots, store`pool
      ensures Valid() && Grew(old(store.pool), store.pool)
      ensures polls == old(polls) + [Read(blockMs, waited, rows)]
      ensures step == old(step) + (if waited then 2 else 1)
      ensures ran <= |schedule(old(step) + 1)|
      ensures (!waited ==> ran == 0 && rows != []) && (rows == [] ==> ran == |schedule(old(step) + 1)|)
      ensures past == old(past) + (schedule(old(step)) + schedule(old(step) + 1)[..ran])
      ensures store.pool == PoolRun(old(store.pool), schedule(old(step)) + schedule(old(step) + 1)[..ran])
      ensures var log := Of(store.pool, slot).log;
              && pos <= start && start + |rows| <= |log| && rows == log[start..start + |rows|]
              && (rows == [] ==> |log| == pos)
              && (waited && rows != [] ==> start == pos)
      ensures waited ==> |Of(old(store.pool), slot).log| <= pos
    {
      hide Mirrors, Grown, HashAgrees, StreamAgrees, Rows, PoolRun, PoolStep, Apply, PoolLegal;
      ghost var before, during := schedule(step), schedule(step + 1);
      LetOthersIn();
      MirrorsAt(store.slots, store.pool, slot);
      rows := Rows(store.SlotAt(slot).stream, lastId, count);
      start := RowsAreWindow(store.SlotAt(slot).stream, store.SlotAt(slot).lastId, Of(store.pool, slot).log, pos, count);
      waited := rows == [];
      ran := 0;
      assert before + during[..0] == before;
      if waited {
        rows, start, ran := Block(slot, lastId, count, pos, old(store.pool), before);
      }
      polls := polls + [Read(blockMs, waited, rows)];
    }

    /** A read with nothing to return yet: the next part of the schedule runs until something is appended. */
    method Block(slot: nat, lastId: nat, count: nat, ghost pos: nat, ghost p0: Pool, ghost before: seq<PoolOp>)
      returns (rows: seq<Entry>, ghost start: nat, ghost ran: nat)
      requires Valid() && count >= 1 && store.pool == PoolRun(p0, before) && Grew(p0, store.pool)
      requires pos == |Of(store.pool, slot).log| && lastId == IdAt(Of(store.pool, slot).log, pos)
      modifies this`step, this`past, store`slots, store`pool
      ensures Valid() && Grew(p0, store.pool)
      ensures step == old(step) + 1
      ensures ran <= |schedule(old(step))| && (rows == [] ==> ran == |schedule(old(step))|)
      ensures past == old(past) + schedule(old(step))[..ran]
      ensures store.pool == PoolRun(p0, before + schedule(old(step))[..ran])
      ensures var log := Of(store.pool, slot).log;
              && pos <= start && start + |rows| <= |log| && rows == log[start..start + |rows|]
              && (rows == [] ==> |log| == pos)
              && (rows != [] ==> start == pos)
    {
      hide Mirrors, Grown, HashAgrees, StreamAgrees, Rows, PoolRun, PoolStep, Apply, PoolLegal;
      var during := schedule(step);
      var i := 0;
      rows, start := [], pos;
      assert before + during[..0] == before;
      while rows == [] && i < |during|
        invariant 0 <= i <= |during| && Valid() && step == old(step) && past == old(past)
        invariant Grew(p0, store.pool)
        invariant store.pool == PoolRun(p0, before + during[..i])
        invariant pos <= start && start + |rows| <= |Of(store.pool, slot).log|
        invariant pos <= |Of(store.pool, slot).log| && lastId == IdAt(Of(store.pool, slot).log, pos)
        invariant rows == Of(store.pool, slot).log[start..start + |rows|]
        invariant rows == [] ==> |Of(store.pool, slot).log| == pos
        invariant rows != [] ==> start == pos
      {
        ghost var p := store.pool;
        OneMoreScript(p0, before, during, i, slot);
        store.Other(during[i]);
        GrewOn(p0, p, store.pool, slot);
        i := i + 1;
        MirrorsAt(store.slots, store.pool, slot);
        rows := Rows(store.SlotAt(slot).stream, lastId, count);
        start := RowsAreWindow(store.SlotAt(slot).stream, store.SlotAt(slot).lastId, Of(store.pool, slot).log, pos, count);
      }
      ran := i;
      past := past + during[..ran];
      step := step + 1;
    }
  }

  lemma OneMoreScript(p: Pool, before: seq<PoolOp>, during: seq<PoolOp>, i: nat, slot: nat)
    requires i < |during| && PoolLegal(during)
    ensures var q := PoolRun(p, before + during[..i]);
            && PoolRun(p, before + during[..i + 1]) == PoolStep(q, during[i])
            && |Of(PoolStep(q, during[i]), slot).log| <= |Of(q, slot).log| + 2
            && |Of(q, during[i].slot).log| <= |Apply(Of(q, during[i].slot), during[i].op).log| <= |Of(q, during[i].slot).log| + 2
    ensures Legal(during[i].op)
  {
    hide Apply;
    var q := PoolRun(p, before + during[..i]);
    assert before + during[..i + 1] == (before + during[..i]) + [during[i]];
    PoolRunSplit(p, before + during[..i], [during[i]]);
    StepAddsAtMostTwo(Of(q, during[i].slot), during[i].op);
  }

  function Answer(v: Verdict): WaitOutcome
    requires !v.Continue?
  {
    match v
    case Outcome(state, error) => Result(state, error)
    case MovedOn(_) => Expired
    case Garbled(state) => Invalid(state)
  }

  lemma AnswerIsJustified(before: History, after: History, g: nat, v: Verdict)
    requires g >= 1 && (v.Outcome? || v.MovedOn?)
    requires v.Outcome? ==> Ended(after, g)
                            && v.state == after.log[OutcomeIndex(g)].state && v.error == after.log[OutcomeIndex(g)].error
    requires v.MovedOn? ==> Recycled(after, g)
    ensures Justified(before, after, g, Answer(v))
  {
  }

  lemma GrewReflexively(p: Pool)
    ensures Grew(p, p)
  {
  }

  lemma GrewOn(p: Pool, q: Pool, r: Pool, k: nat)
    requires Grew(p, q) && Grew(q, r)
    ensures Grew(p, r) && Of(q, k).log <= Of(r, k).log && Of(p, k).log <= Of(r, k).log
    ensures forall pos :: 0 <= pos <= |Of(q, k).log| ==> IdAt(Of(r, k).log, pos) == IdAt(Of(q, k).log, pos)
  {
    GrewTransitively(p, q, r);
  }

  const NS_PER_MS := 1_000_000

  /** max(1, ceil(remaining)) milliseconds, for a remaining time in nanoseconds. */
  function BlockMs(remaining: int): (ms: int)
    requires remaining > 0
    ensures ms >= 1 && (ms - 1) * NS_PER_MS < remaining <= ms * NS_PER_MS
  {
    (remaining + NS_PER_MS - 1) / NS_PER_MS
  }

  /** What one XREAD of wait leads to: nothing was stored, an answer, or another round. */
  datatype Round = Empty | Final(outcome: WaitOutcome) | Again(lastId: nat)

  method ReadOnce(conn: Connection, e: RpcEvent, lastId: nat, blockMs: nat, ghost h0: History, ghost pos: nat)
    returns (round: Round, ghost next: nat, ghost ran: nat)
    requires conn.Valid() && e.Valid()
    requires pos <= OutcomeIndex(e.generation) <= |Of(conn.store.pool, e.slot).log|
    requires lastId == IdAt(Of(conn.store.pool, e.slot).log, pos) && h0.log <= Of(conn.store.pool, e.slot).log
    modifies conn`step, conn`past, conn`polls, conn.store`slots, conn.store`pool
    ensures conn.Valid() && Grew(old(conn.store.pool), conn.store.pool)
    ensures |conn.polls| == |old(conn.polls)| + 1 && conn.polls[..|old(conn.polls)|] == old(conn.polls)
    ensures var read := conn.polls[|old(conn.polls)|];
            && read.blockMs == blockMs
            && conn.step == old(conn.step) + (if read.waited then 2 else 1)
            && (round == Empty <==> read.rows == []) && (round == Empty ==> read.waited)
            && (round.Again? ==> !read.waited)
            && (round.Final? && read.waited ==> round.outcome.Result?)
    ensures ran <= |conn.schedule(old(conn.step) + 1)|
    ensures (conn.step == old(conn.step) + 1 ==> ran == 0) && (round == Empty ==> ran == |conn.schedule(old(conn.step) + 1)|)
    ensures conn.past == old(conn.past) + (conn.schedule(old(conn.step)) + conn.schedule(old(conn.step) + 1)[..ran])
    ensures conn.store.pool == PoolRun(old(conn.store.pool), conn.schedule(old(conn.step)) + conn.schedule(old(conn.step) + 1)[..ran])
    ensures round == Empty ==> |Of(conn.store.pool, e.slot).log| == OutcomeIndex(e.generation)
    ensures round.Again? ==>
              && pos < next <= OutcomeIndex(e.generation) && next <= |Of(conn.store.pool, e.slot).log|
              && round.lastId == IdAt(Of(conn.store.pool, e.slot).log, next)
    ensures round.Final? ==> Justified(h0, Of(conn.store.pool, e.slot), e.generation, round.outcome)
    ensures round.Final? ==> round.outcome.Result? || round.outcome == Expired
  {
    hide Mirrors, Represents, Grew, Justified, PoolRun, PoolLegal;
    ghost var p := conn.store.pool;
    var rows, waited;
    ghost var start;
    rows, waited, start, ran := conn.XRead(e.slot, lastId, e.maxlen, blockMs, pos);
    GrewOn(p, p, conn.store.pool, e.slot) by { GrewReflexively(p); }
    next := pos;
    if rows == [] {
      round := Empty;
    } else {
      MirrorsAt(conn.store.slots, conn.store.pool, e.slot);
      var v := Digest(rows, e.generation, lastId, Of(conn.store.pool, e.slot).log, start);
      if v.Continue? {
        round := Again(v.lastId);
        next := start + |rows|;
      } else {
        round := Final(Answer(v));
        AnswerIsJustified(h0, Of(conn.store.pool, e.slot), e.generation, v);
      }
    }
  }

  /** Since `b`, whole parts of the schedule have run. */
  ghost predicate InStep(b: Mark, m: Mark, schedule: Schedule) {
    && b.step <= m.step
    && m.pool == PoolRun(b.pool, Parts(schedule, b.step, m.step))
    && m.past == b.past + Parts(schedule, b.step, m.step)
    && Grew(b.pool, m.pool)
  }

  /** Since `b`, the scripts recorded have run. */
  ghost predicate GotIn(b: Mark, m: Mark) {
    && b.step < m.step && b.past <= m.past
    && m.pool == PoolRun(b.pool, m.past[|b.past|..])
    && Grew(b.pool, m.pool)
  }

  lemma PartRan(b: Mark, m: Mark, m': Mark, schedule: Schedule)
    requires InStep(b, m, schedule)
    requires m'.step == m.step + 1 && m'.past == m.past + schedule(m.step)
    requires m'.pool == PoolRun(m.pool, schedule(m.step)) && Grew(m.pool, m'.pool)
    ensures InStep(b, m', schedule) && GotIn(b, m')
  {
    hide PoolRun, Grew;
    var done := Parts(schedule, b.step, m.step);
    PoolRunSplit(b.pool, done, schedule(m.step));
    GrewTransitively(b.pool, m.pool, m'.pool);
    assert Parts(schedule, b.step, m'.step) == done + schedule(m.step);
    hide Parts;
    Regroup(b.past, done, schedule(m.step));
    assert m'.past[|b.past|..] == done + schedule(m.step);
  }

  lemma ReadRan(b: Mark, m: Mark, m': Mark, schedule: Schedule, ran: nat)
    requires InStep(b, m, schedule) && ran <= |schedule(m.step + 1)| && m.step < m'.step
    requires m'.past == m.past + (schedule(m.step) + schedule(m.step + 1)[..ran])
    requires m'.pool == PoolRun(m.pool, schedule(m.step) + schedule(m.step + 1)[..ran]) && Grew(m.pool, m'.pool)
    ensures GotIn(b, m')
    ensures m'.step == m.step + 1 && ran == 0 ==> InStep(b, m', schedule)
    ensures m'.step == m.step + 2 && ran == |schedule(m.step + 1)| ==> InStep(b, m', schedule)
  {
    hide PoolRun, Grew;
    var done := Parts(schedule, b.step, m.step);
    var late := schedule(m.step + 1)[..ran];
    PoolRunSplit(b.pool, done, schedule(m.step) + late);
    GrewTransitively(b.pool, m.pool, m'.pool);
    assert Parts(schedule, b.step, m.step + 1) == done + schedule(m.step);
    assert Parts(schedule, b.step, m.step + 2) == (done + schedule(m.step)) + schedule(m.step + 1);
    hide Parts;
    Regroup(b.past, done, schedule(m.step) + late);
    Regroup(done, schedule(m.step), late);
    assert m'.past[|b.past|..] == done + (schedule(m.step) + late);
    assert ran == 0 ==> schedule(m.step) + late == schedule(m.step);
    assert ran == |schedule(m.step + 1)| ==> late == schedule(m.step + 1);
  }

  lemma NoneRan(b: Mark, schedule: Schedule)
    ensures InStep(b, b, schedule)
  {
    GrewReflexively(b.pool);
  }

  /** The reads of a wait and the readings of its clock, of which the first, `from`, fixes the deadline:
      before each read the clock is read, is still before the deadline, and the block time is what remains,
      in milliseconds, rounded up. Without a timeout the clock is not read and the block time is 0. */
  ghost predicate Paced(clock: nat -> int, from: nat, readings: nat, timeout: Option<int>, polls: seq<Read>) {
    match timeout
    case None => readings == from && forall i :: 0 <= i < |polls| ==> polls[i].blockMs == 0
    case Some(limit) =>
      && from + |polls| < readings
      && forall i :: 0 <= i < |polls| ==> PacedRead(polls[i], clock(from) + limit - clock(from + 1 + i))
  }

  /** A read sent with this much time left, in nanoseconds. */
  predicate PacedRead(poll: Read, remaining: int) {
    remaining > 0 && (poll.blockMs - 1) * NS_PER_MS < remaining <= poll.blockMs * NS_PER_MS
  }

  /** The last read has come back empty, all its time gone by. */
  ghost predicate EndsEmpty(polls: seq<Read>) {
    polls != [] && polls[|polls| - 1].rows == []
  }

  /** When a wait comes back with nothing: at once if that was asked for, else after a reading of the clock
      at or past the deadline, or after a read that blocked for all that remained and came back empty. */
  ghost predicate GaveUp(clock: nat -> int, from: nat, readings: nat, limit: int, polls: seq<Read>) {
    if limit == 0 then polls == []
    else
      || (readings == from + |polls| + 2 && clock(readings - 1) >= clock(from) + limit)
      || (readings == from + |polls| + 1 && EndsEmpty(polls))
  }

  lemma PacedMore(clock: nat -> int, from: nat, readings: nat, timeout: Option<int>, polls: seq<Read>, read: Read)
    requires Paced(clock, from, readings, timeout, polls)
    requires match timeout
             case None => read.blockMs == 0
             case Some(limit) =>
               && readings == from + |polls| + 1
               && clock(from) + limit - clock(readings) > 0
               && read.blockMs == BlockMs(clock(from) + limit - clock(readings))
    ensures Paced(clock, from, if timeout.None? then readings else readings + 1, timeout, polls + [read])
  {
    var all := polls + [read];
    if timeout.Some? {
      assert PacedRead(read, clock(from) + timeout.value - clock(from + 1 + |polls|));
      hide PacedRead;
      forall i | 0 <= i < |all| ensures PacedRead(all[i], clock(from) + timeout.value - clock(from + 1 + i)) {
        assert i < |polls| ==> all[i] == polls[i];
      }
    }
  }

  lemma PacedLonger(clock: nat -> int, from: nat, readings: nat, limit: int, polls: seq<Read>)
    requires Paced(clock, from, readings, Some(limit), polls)
    ensures Paced(clock, from, readings + 1, Some(limit), polls)
  {
  }

  /** Parts of the schedule that have run are in what has run later, and no log is shorter for it. */
  lemma {:induction false} EndedStays(p: Pool, schedule: Schedule, from: nat, mid: nat, upTo: nat, slot: nat, g: nat)
    requires from <= mid <= upTo && Plausible(schedule) && g >= 1
    requires WellFormed(Of(p, slot)) && Ended(Of(PoolRun(p, Parts(schedule, from, mid)), slot), g)
    ensures Ended(Of(PoolRun(p, Parts(schedule, from, upTo)), slot), g)
    decreases upTo - mid
  {
    if mid < upTo {
      hide WellFormed, Run, Apply;
      EndedStays(p, schedule, from, mid, upTo - 1, slot, g);
      var done := Parts(schedule, from, upTo - 1);
      var q := PoolRun(p, done);
      PartsLegal(schedule, from, upTo - 1);
      hide PoolRun, On;
      SlotsAreIndependent(p, done, slot);
      RunKeepsWellFormed(Of(p, slot), On(slot, done));
      PoolRunSplit(p, done, schedule(upTo - 1));
      SlotsAreIndependent(q, schedule(upTo - 1), slot);
      RunKeepsWellFormed(Of(q, slot), On(slot, schedule(upTo - 1)));
    }
  }

  lemma {:induction false} PartsLegal(schedule: Schedule, from: nat, upTo: nat)
    requires from <= upTo && Plausible(schedule)
    ensures PoolLegal(Parts(schedule, from, upTo))
    decreases upTo - from
  {
    if from < upTo {
      PartsLegal(schedule, from, upTo - 1);
      assert PoolLegal(schedule(upTo - 1));
    }
  }

  /** Who comes back with nothing, or still blocks, with at least three parts of the schedule gone by has
      waited through them in vain. */
  lemma WaitedThrough(before: History, p: Pool, schedule: Schedule, from: nat, upTo: nat, slot: nat, g: nat, outcome: WaitOutcome)
    requires g >= 1 && from + 3 <= upTo && Plausible(schedule) && WellFormed(Of(p, slot))
    requires outcome == NoResult || outcome == Blocked
    requires Justified(before, Of(PoolRun(p, Parts(schedule, from, upTo)), slot), g, outcome)
    ensures !Ended(Of(PoolRun(p, Parts(schedule, from, from + 3)), slot), g)
  {
    hide PoolRun, Parts, WellFormed, Plausible;
    if Ended(Of(PoolRun(p, Parts(schedule, from, from + 3)), slot), g) {
      EndedStays(p, schedule, from, from + 3, upTo, slot, g);
    }
  }

  function NewPolls(b: Mark, m: Mark): seq<Read>
    requires b.polls <= m.polls
  {
    m.polls[|b.polls|..]
  }

  /** How a wait that began at `b` and ended at `m` has dealt with its time. */
  ghost predicate OnTime(b: Mark, m: Mark, clock: nat -> int, timeout: Option<int>, g: nat, outcome: WaitOutcome) {
    && b.polls <= m.polls
    && var polls := NewPolls(b, m);
       // it keeps to its timeout, and gives up no sooner
       && Paced(clock, b.readings, m.readings, timeout, polls)
       && (outcome == Blocked ==> timeout.None? && EndsEmpty(polls))
       && (outcome == NoResult ==> timeout.Some? && GaveUp(clock, b.readings, m.readings, timeout.value, polls))
       // whose last read had to block, and was answered, is handed the outcome
       && (polls != [] && polls[|polls| - 1].waited && polls[|polls| - 1].rows != [] ==> outcome.Result?)
       // every read but the last is answered, and there is at most one per log entry up to the outcome
       && (forall i :: 0 <= i < |polls| - 1 ==> polls[i].rows != [])
       && |polls| <= 2 * g
  }

  /** What ends the generation while there is time is not missed: neither before the first look, nor before
      the first read, nor while that blocks. */
  ghost predicate NothingMissed(b: Mark, m: Mark, schedule: Schedule, clock: nat -> int, timeout: Option<int>, slot: nat, g: nat,
                                outcome: WaitOutcome)
    requires g >= 1
  {
    && timeout != Some(0)
    && (timeout.Some? ==> forall t :: b.readings < t < m.readings ==> clock(t) < clock(b.readings) + timeout.value)
    && Ended(Of(PoolRun(b.pool, Parts(schedule, b.step, b.step + 3)), slot), g) ==>
      outcome.Result? || outcome == Expired
  }

  /** The reads so far were all answered at once, and each has consumed an entry. */
  ghost predicate Polled(b: Mark, m: Mark, clock: nat -> int, timeout: Option<int>, pos: nat) {
    && b.polls <= m.polls && Paced(clock, b.readings, m.readings, timeout, NewPolls(b, m))
    && (timeout.Some? ==> m.readings == b.readings + 1 + |NewPolls(b, m)|)
    && |NewPolls(b, m)| <= pos
    && (forall i :: 0 <= i < |NewPolls(b, m)| ==> NewPolls(b, m)[i].rows != [] && !NewPolls(b, m)[i].waited)
    && (timeout == Some(0) ==> m.polls == b.polls)
  }

  lemma LookedOnTime(b: Mark, m: Mark, clock: nat -> int, timeout: Option<int>, pos: nat, g: nat, outcome: WaitOutcome)
    requires Polled(b, m, clock, timeout, pos) && pos < 2 * g
    requires outcome.Result? || outcome == Expired || (outcome == NoResult && timeout == Some(0))
    ensures OnTime(b, m, clock, timeout, g, outcome)
  {
    hide Paced;
  }

  lemma ExpiredOnTime(b: Mark, m: Mark, clock: nat -> int, limit: int, pos: nat, g: nat, outcome: WaitOutcome)
    requires m.readings > 0 && Polled(b, m.(readings := m.readings - 1), clock, Some(limit), pos) && pos < 2 * g
    requires limit != 0 && clock(m.readings - 1) >= clock(b.readings) + limit && outcome != Blocked
    ensures OnTime(b, m, clock, Some(limit), g, outcome)
    ensures exists t :: b.readings < t < m.readings && clock(t) >= clock(b.readings) + limit
  {
    PacedLonger(clock, b.readings, m.readings - 1, limit, NewPolls(b, m));
    hide Paced;
    assert b.readings < m.readings - 1 < m.readings;
  }

  lemma ReadOnTime(b: Mark, m: Mark, m': Mark, clock: nat -> int, timeout: Option<int>, pos: nat, pos': nat, g: nat,
                   read: Read, outcome: WaitOutcome)
    requires Polled(b, m, clock, timeout, pos) && pos < 2 * g && timeout != Some(0)
    requires m'.polls == m.polls + [read]
    requires m'.readings == if timeout.None? then m.readings else m.readings + 1
    requires match timeout
             case None => read.blockMs == 0
             case Some(limit) =>
               && clock(b.readings) + limit - clock(m.readings) > 0
               && read.blockMs == BlockMs(clock(b.readings) + limit - clock(m.readings))
    ensures read.rows != [] && read.waited && outcome.Result? ==> OnTime(b, m', clock, timeout, g, outcome)
    ensures read.rows != [] && !read.waited && (outcome.Result? || outcome == Expired) ==> OnTime(b, m', clock, timeout, g, outcome)
    ensures read.rows == [] && (outcome == Blocked ==> timeout.None?) && (outcome == NoResult ==> timeout.Some?) ==>
              OnTime(b, m', clock, timeout, g, outcome)
    ensures read.rows != [] && !read.waited && pos < pos' ==> Polled(b, m', clock, timeout, pos')
  {
    hide BlockMs;
    PacedMore(clock, b.readings, m.readings, timeout, NewPolls(b, m), read);
    hide Paced;
    assert NewPolls(b, m') == NewPolls(b, m) + [read];
  }

  /** wait. The reads it sends, the readings it takes and the scripts that get in are those that the
      connection records. */
  method Wait(conn: Connection, e: RpcEvent, timeout: Option<int>) returns (outcome: WaitOutcome)
    requires conn.Valid() && e.Valid()
    requires timeout.Some? ==> timeout.value >= 0
    modifies conn, conn.store`slots, conn.store`pool
    ensures conn.Valid() && GotIn(old(conn.Here()), conn.Here())
    ensures Justified(old(Of(conn.store.pool, e.slot)), Of(conn.store.pool, e.slot), e.generation, outcome)
    ensures OnTime(old(conn.Here()), conn.Here(), conn.clock, timeout, e.generation, outcome)
    ensures NothingMissed(old(conn.Here()), conn.Here(), conn.schedule, conn.clock, timeout, e.slot, e.generation, outcome)
  {
    hide Mirrors, PoolRun, Grew, Justified, Seen, Represents, Active, Generation, Parts, PoolLegal, WellFormed, Ended, Plausible;
    hide Polled, OnTime, InStep, GotIn;
    ghost var b := conn.Here();
    ghost var h0 := Of(b.pool, e.slot);
    MirrorsAt(conn.store.slots, conn.store.pool, e.slot);
    var g := e.generation;
    var deadline := None;
    if timeout.Some? {
      var began := conn.Now();
      deadline := Some(began + timeout.value);
    }
    var lastId := 0;
    ghost var pos := 0;
    NoneRan(b, conn.schedule);
    AtFirst(b, conn.Here(), conn.clock, timeout, conn.schedule);
    while true
      invariant conn.Valid() && InStep(b, conn.Here(), conn.schedule) && Polled(b, conn.Here(), conn.clock, timeout, pos)
      invariant pos <= OutcomeIndex(g) && pos <= |Of(conn.store.pool, e.slot).log|
      invariant lastId == IdAt(Of(conn.store.pool, e.slot).log, pos)
      decreases OutcomeIndex(g) - pos
    {
      ghost var m := conn.Here();
      outcome := LookAgain(conn, e, b, h0);
      Unmoved(b, m, conn.Here(), conn.clock, timeout, pos);
      IdsStay(m.pool, conn.store.pool, e.slot, pos);
      if outcome != NoResult || timeout == Some(0) {
        LookedOnTime(b, conn.Here(), conn.clock, timeout, pos, g, outcome);
        return;
      }

      var blockMs := 0;
      m := conn.Here();
      if deadline.Some? {
        var now := conn.Now();
        var remaining := deadline.value - now;
        if remaining <= 0 {
          m := conn.Here();
          Restep(b, m.(readings := m.readings - 1), m, conn.schedule);
          outcome := LookAgain(conn, e, b, h0);
          ExpiredOnTime(b, m, conn.clock, timeout.value, pos, g, outcome);
          OnTimeStays(b, m, conn.Here(), conn.clock, timeout, g, outcome);
          return;
        }
        blockMs := BlockMs(remaining);
      }

      Restep(b, m, conn.Here(), conn.schedule);
      var end;
      end, lastId, pos := ReadTurn(conn, e, timeout, blockMs, lastId, b, m, h0, pos);
      if end.Some? {
        outcome := end.value;
        return;
      }
    }
  }

  /** The rest of a turn of the loop, from its read on: what wait comes back with, or the next last ID. */
  method ReadTurn(conn: Connection, e: RpcEvent, timeout: Option<int>, blockMs: nat, lastId: nat,
                  ghost b: Mark, ghost m: Mark, ghost h0: History, ghost pos: nat)
    returns (end: Option<WaitOutcome>, next: nat, ghost pos': nat)
    requires conn.Valid() && e.Valid() && timeout != Some(0)
    requires InStep(b, conn.Here(), conn.schedule) && b.step < conn.step
    requires h0 == Of(b.pool, e.slot) && WellFormed(h0) && h0.log <= Of(conn.store.pool, e.slot).log
    requires Polled(b, m, conn.clock, timeout, pos) && conn.polls == m.polls
    requires conn.readings == if timeout.None? then m.readings else m.readings + 1
    requires match timeout
             case None => blockMs == 0
             case Some(limit) =>
               && conn.clock(b.readings) + limit - conn.clock(m.readings) > 0
               && blockMs == BlockMs(conn.clock(b.readings) + limit - conn.clock(m.readings))
    requires pos <= OutcomeIndex(e.generation) <= |Of(conn.store.pool, e.slot).log|
    requires lastId == IdAt(Of(conn.store.pool, e.slot).log, pos)
    modifies conn`step, conn`past, conn`polls, conn.store`slots, conn.store`pool
    ensures conn.Valid()
    ensures end.Some? ==>
              && GotIn(b, conn.Here())
              && Justified(h0, Of(conn.store.pool, e.slot), e.generation, end.value)
              && OnTime(b, conn.Here(), conn.clock, timeout, e.generation, end.value)
              && NothingMissed(b, conn.Here(), conn.schedule, conn.clock, timeout, e.slot, e.generation, end.value)
    ensures end.None? ==>
              && InStep(b, conn.Here(), conn.schedule) && Polled(b, conn.Here(), conn.clock, timeout, pos')
              && pos < pos' <= OutcomeIndex(e.generation) && pos' <= |Of(conn.store.pool, e.slot).log|
              && next == IdAt(Of(conn.store.pool, e.slot).log, pos')
  {
    hide Mirrors, PoolRun, Grew, Justified, Represents, Parts, PoolLegal, WellFormed, Ended, Plausible;
    hide Polled, OnTime, InStep, GotIn;
    var g := e.generation;
    ghost var m1 := conn.Here();
    var round;
    ghost var ran;
    round, pos', ran := ReadOnce(conn, e, lastId, blockMs, h0, pos);
    ghost var read := conn.polls[|m.polls|];
    assert conn.polls == m.polls + [read];
    ReadRan(b, m1, conn.Here(), conn.schedule, ran);
    next := lastId;
    m1 := conn.Here();
    match round
    case Empty =>
      if blockMs == 0 {
        BlockedIsJustified(h0, Of(conn.store.pool, e.slot), g);
        ReadOnTime(b, m, m1, conn.clock, timeout, pos, pos', g, read, Blocked);
        InVain(h0, b, m1, conn.schedule, e.slot, g, Blocked);
        end := Some(Blocked);
      } else {
        var outcome := LookAgain(conn, e, b, h0);
        ReadOnTime(b, m, m1, conn.clock, timeout, pos, pos', g, read, outcome);
        OnTimeStays(b, m1, conn.Here(), conn.clock, timeout, g, outcome);
        if outcome == NoResult { InVain(h0, b, conn.Here(), conn.schedule, e.slot, g, outcome); }
        end := Some(outcome);
      }
    case Final(answer) =>
      ReadOnTime(b, m, m1, conn.clock, timeout, pos, pos', g, read, answer);
      end := Some(answer);
    case Again(last) =>
      ReadOnTime(b, m, m1, conn.clock, timeout, pos, pos', g, read, Expired);
      next, end := last, None;
  }

  /** A snapshot within a wait that began at `b`. */
  method LookAgain(conn: Connection, e: RpcEvent, ghost b: Mark, ghost h0: History) returns (outcome: WaitOutcome)
    requires conn.Valid() && e.Valid() && InStep(b, conn.Here(), conn.schedule) && h0 == Of(b.pool, e.slot)
    modifies conn`step, conn`past, conn.store`slots, conn.store`pool
    ensures conn.Valid() && InStep(b, conn.Here(), conn.schedule) && GotIn(b, conn.Here())
    ensures b.step < conn.step == old(conn.step) + 1
    ensures Grew(old(conn.store.pool), conn.store.pool) && h0.log <= Of(conn.store.pool, e.slot).log
    ensures Justified(h0, Of(conn.store.pool, e.slot), e.generation, outcome)
    ensures outcome == NoResult ==> |Of(conn.store.pool, e.slot).log| == OutcomeIndex(e.generation)
    ensures outcome.Result? || outcome == Expired || outcome == NoResult
  {
    hide Mirrors, PoolRun, Seen, Justified, Represents, Parts, PoolLegal, Plausible, GotIn;
    ghost var m := conn.Here();
    outcome := conn.Snapshot(e);
    PartRan(b, m, conn.Here(), conn.schedule);
    SeenIsJustified(h0, Of(conn.store.pool, e.slot), e.generation, outcome);
  }

  lemma AtFirst(b: Mark, m: Mark, clock: nat -> int, timeout: Option<int>, schedule: Schedule)
    requires InStep(b, b, schedule) && m == b.(readings := if timeout.None? then b.readings else b.readings + 1)
    ensures InStep(b, m, schedule) && Polled(b, m, clock, timeout, 0)
  {
    assert NewPolls(b, m) == [];
  }

  lemma Restep(b: Mark, m: Mark, m': Mark, schedule: Schedule)
    requires InStep(b, m, schedule) && m' == m.(readings := m'.readings)
    ensures InStep(b, m', schedule)
  {
  }

  lemma Unmoved(b: Mark, m: Mark, m': Mark, clock: nat -> int, timeout: Option<int>, pos: nat)
    requires Polled(b, m, clock, timeout, pos) && m'.polls == m.polls && m'.readings == m.readings
    ensures Polled(b, m', clock, timeout, pos)
  {
  }

  lemma OnTimeStays(b: Mark, m: Mark, m': Mark, clock: nat -> int, timeout: Option<int>, g: nat, outcome: WaitOutcome)
    requires OnTime(b, m, clock, timeout, g, outcome) && m'.polls == m.polls && m'.readings == m.readings
    ensures OnTime(b, m', clock, timeout, g, outcome)
  {
  }

  lemma IdsStay(p: Pool, q: Pool, slot: nat, pos: nat)
    requires Grew(p, q) && pos <= |Of(p, slot).log|
    ensures pos <= |Of(q, slot).log| && IdAt(Of(q, slot).log, pos) == IdAt(Of(p, slot).log, pos)
  {
    assert Of(p, slot).log <= Of(q, slot).log;
  }

  lemma InVain(h0: History, b: Mark, m: Mark, schedule: Schedule, slot: nat, g: nat, outcome: WaitOutcome)
    requires g >= 1 && Plausible(schedule) && WellFormed(Of(b.pool, slot)) && InStep(b, m, schedule) && b.step + 3 <= m.step
    requires (outcome == NoResult || outcome == Blocked) && Justified(h0, Of(m.pool, slot), g, outcome)
    ensures !Ended(Of(PoolRun(b.pool, Parts(schedule, b.step, b.step + 3)), slot), g)
  {
    hide Justified, Plausible, WellFormed, Ended;
    WaitedThrough(h0, b.pool, schedule, b.step, m.step, slot, g, outcome);
  }

  // ----- waiting within the retention window

  lemma {:induction false} OnSplits(slot: nat, a: seq<PoolOp>, b: seq<PoolOp>)
    ensures On(slot, a + b) == On(slot, a) + On(slot, b)
    decreases |a|
  {
    if a == [] {
      assert a + b == b;
    } else {
      OnSplits(slot, a[1..], b);
      OnHead(slot, a);
      OnHead(slot, a + b);
      hide On;
      assert (a + b)[1..] == a[1..] + b;
      Regroup([a[0].op], On(slot, a[1..]), On(slot, b));
    }
  }

  lemma Regroup<T>(a: seq<T>, b: seq<T>, c: seq<T>)
    ensures a + (b + c) == (a + b) + c
  {
  }

  lemma OnHead(slot: nat, xs: seq<PoolOp>)
    requires xs != []
    ensures On(slot, xs) == if xs[0].slot == slot then [xs[0].op] + On(slot, xs[1..]) else On(slot, xs[1..])
  {
  }

  /** Scripts on one slot, after a completion, that all run before its retention is over and do not
      release the generation. */
  ghost predicate WithinRetention(done: Op, ops: seq<Op>)
    requires done.Complete?
  {
    && ClockNondecreasing(ops)
    && (ops != [] ==> ops[|ops| - 1].now < done.now + done.retention)
    && forall i :: 0 <= i < |ops| ==> !(ops[i].Release? && ops[i].generation == done.generation)
  }

  lemma RetainedIsReturned(before: History, h: History, done: Op, ops: seq<Op>, outcome: WaitOutcome)
    requires done.Complete? && done.generation >= 1 && Active(h) && Generation(h) == done.generation
    requires WithinRetention(done, ops) && Issued(before, done.generation)
    requires Justified(before, Run(Apply(h, done), ops), done.generation, outcome)
    ensures outcome == Result(done.state, done.error)
  {
    assert ops[..|ops|] == ops;
    hide ClockNondecreasing;
    RetentionWindow(h, done, ops, |ops|);
  }

  /** A wait that ends within the retention window returns the outcome: neither None nor expired. The
      completion may come before the wait (`ahead` being what ran in between) ... */
  lemma WaitAfterCompletion(p: Pool, slot: nat, done: Op, ahead: seq<PoolOp>, during: seq<PoolOp>, outcome: WaitOutcome)
    requires done.Complete? && done.generation >= 1 && Active(Of(p, slot)) && Generation(Of(p, slot)) == done.generation
    requires WithinRetention(done, On(slot, ahead + during))
    requires var start := PoolRun(PoolStep(p, PoolOp(slot, done)), ahead);
             Justified(Of(start, slot), Of(PoolRun(start, during), slot), done.generation, outcome)
    ensures outcome == Result(done.state, done.error)
  {
    hide WithinRetention, Justified;
    var q := PoolStep(p, PoolOp(slot, done));
    var h := Of(p, slot);
    assert Of(q, slot) == Apply(h, done);
    hide Apply, PoolStep;
    OnSplits(slot, ahead, during);
    PoolRunSplit(q, ahead, during);
    SlotsAreIndependent(q, ahead + during, slot);
    SlotsAreIndependent(q, ahead, slot);
    CompletionKeepsIssued(h, done, On(slot, ahead), On(slot, during));
    RetainedIsReturned(Run(Apply(h, done), On(slot, ahead)), h, done, On(slot, ahead) + On(slot, during), outcome);
  }

  /** ... or during it, somebody waiting on an event that was issued before. */
  lemma WaitAcrossCompletion(p: Pool, slot: nat, ahead: seq<PoolOp>, done: Op, after: seq<PoolOp>, outcome: WaitOutcome)
    requires done.Complete? && done.generation >= 1 && Issued(Of(p, slot), done.generation)
    requires var h := Of(PoolRun(p, ahead), slot); Active(h) && Generation(h) == done.generation
    requires WithinRetention(done, On(slot, after))
    requires Justified(Of(p, slot), Of(PoolRun(p, ahead + [PoolOp(slot, done)] + after), slot), done.generation, outcome)
    ensures outcome == Result(done.state, done.error)
  {
    hide WithinRetention, Justified, Issued;
    var h := Of(PoolRun(p, ahead), slot);
    var q := PoolStep(PoolRun(p, ahead), PoolOp(slot, done));
    assert Of(q, slot) == Apply(h, done);
    assert PoolRun(PoolRun(p, ahead), [PoolOp(slot, done)]) == q;
    hide Apply, PoolStep;
    PoolRunSplit(p, ahead + [PoolOp(slot, done)], after);
    PoolRunSplit(p, ahead, [PoolOp(slot, done)]);
    SlotsAreIndependent(q, after, slot);
    RetainedIsReturned(Of(p, slot), h, done, On(slot, after), outcome);
  }

  lemma CompletionKeepsIssued(h: History, done: Op, a: seq<Op>, b: seq<Op>)
    requires done.Complete? && done.generation >= 1 && Active(h) && Generation(h) == done.generation
    requires WithinRetention(done, a + b)
    ensures Issued(Run(Apply(h, done), a), done.generation)
  {
    assert forall i :: 0 <= i < |a| ==> (a + b)[i] == a[i];
    assert (a + b)[..|a|] == a;
    assert a != [] && b != [] ==> (a + b)[|a| - 1].now <= (a + b)[|a + b| - 1].now;
    hide Apply;
    RetentionWindow(h, done, a + b, |a|);
    assert Generation(Run(Apply(h, done), a)) == done.generation;
  }

  // ----- the other operations of a handle

  datatype SetOutcome = Done(id: nat) | RaisedExpired | RaisedAlreadySet(state: State)

  /** set: the outcome is logged exactly when the event is current and still active. */
  method Set(store: Store, e: RpcEvent, state: State, error: string, now: int, tick: nat) returns (r: SetOutcome)
    requires store.Valid() && e.Valid() && Terminal(state) && now >= 0
    modifies store`slots, store`pool
    ensures store.Valid()
    ensures var h, h' := old(Of(store.pool, e.slot)), Of(store.pool, e.slot);
            match r
            case Done(id) =>
              && Active(h) && Generation(h) == e.generation
              && h' == History(h.log + [Entry(id, e.generation, state, error)], now + e.retention)
            case RaisedExpired => Generation(h) != e.generation && h' == h
            case RaisedAlreadySet(was) =>
              && !Active(h) && Generation(h) == e.generation && h' == h
              && was == h.log[|h.log| - 1].state
    ensures forall k: nat :: k != e.slot ==> store.SlotAt(k) == old(store.SlotAt(k))
  {
    var reply := store.Complete(e.slot, e.generation, state, error, now, e.retention, e.maxlen, tick);
    match reply
    case NotCurrent(_) => r := RaisedExpired;
    case AlreadyTerminal(was) => r := RaisedAlreadySet(was);
    case Logged(id) => r := Done(id);
  }

  /** status: None stands for `expired`. */
  method Status(store: Store, e: RpcEvent) returns (status: Option<State>)
    requires store.Valid() && e.Valid()
    ensures status == None <==> Generation(Of(store.pool, e.slot)) != e.generation
    ensures status.Some? ==>
              var log := Of(store.pool, e.slot).log;
              && status.value == log[|log| - 1].state
              && (status.value == Created <==> !Ended(Of(store.pool, e.slot), e.generation))
              && (status.value == Created || Terminal(status.value))
  {
    hide Mirrors, Represents;
    MirrorsAt(store.slots, store.pool, e.slot);
    HashTells(store.SlotAt(e.slot), Of(store.pool, e.slot));
    var meta := store.SlotAt(e.slot).meta;
    if meta.None? || meta.value.generation != e.generation {
      status := None;
    } else {
      status := Some(meta.value.state);
    }
  }

  /** refresh_lease: None stands for a raised RpcEventExpired. */
  method RefreshLease(store: Store, e: RpcEvent, lease: int, now: int) returns (extended: Option<bool>)
    requires store.Valid() && e.Valid() && lease >= 1 && now >= 0
    modifies store`slots, store`pool
    ensures store.Valid()
    ensures var h, h' := old(Of(store.pool, e.slot)), Of(store.pool, e.slot);
            && (extended == None <==> Generation(h) != e.generation)
            && (extended == Some(true) <==> Generation(h) == e.generation && Active(h))
            && h' == if extended == Some(true) then History(h.log, now + lease) else h
    ensures forall k: nat :: k != e.slot ==> store.SlotAt(k) == old(store.SlotAt(k))
  {
    var code := store.RefreshLease(e.slot, e.generation, now, lease);
    extended := if code < 0 then None else Some(code == 1);
  }

  /** release: None stands for a raised RpcEventError. */
  method Release(store: Store, e: RpcEvent, now: int) returns (released: Option<bool>)
    requires store.Valid() && e.Valid() && now >= 0
    modifies store`slots, store`pool
    ensures store.Valid()
    ensures var h, h' := old(Of(store.pool, e.slot)), Of(store.pool, e.slot);
            && (released == None <==> Generation(h) == e.generation && Active(h))
            && (released == Some(true) <==> Generation(h) == e.generation && !Active(h))
            && h' == if released == Some(true) then History(h.log, now) else h
    ensures forall k: nat :: k != e.slot ==> store.SlotAt(k) == old(store.SlotAt(k))
  {
    var code := store.Release(e.slot, e.generation, now);
    released := if code < 0 then Some(false) else if code == 0 then None else Some(true);
  }
}

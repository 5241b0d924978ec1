/** The Redis side of the completion events: per slot a hash and a trimmed stream, changed only by
    five atomic scripts. The ghost pool holds each slot's untrimmed history, and Valid() ties the
    two together: the hash is the last log entry, the stream is the log's tail. */
module EventStore {
  import opened Wrappers
  import opened EventHistory
  import opened EventRuns

  datatype Meta = Meta(generation: nat, state: State, error: string, reusableAt: int, leaseUntil: int)

  /** `lastId` is the stream's last generated ID, which trimming does not take away. */
  datatype Slot = Slot(meta: Option<Meta>, stream: seq<Entry>, lastId: nat)

  const ABSENT := Slot(None, [], 0)

  function Newest(entries: seq<Entry>, maxlen: nat): seq<Entry> {
    if |entries| <= maxlen then entries else entries[|entries| - maxlen..]
  }

  predicate HashAgrees(meta: Option<Meta>, h: History) {
    match meta
    case None => h.log == []
    case Some(m) =>
      && h.log != []
      && m.generation == Generation(h)
      && m.state == h.log[|h.log| - 1].state
      && m.error == h.log[|h.log| - 1].error
      && m.reusableAt == (if Active(h) then 0 else h.deadline)
      && m.leaseUntil == (if Active(h) then h.deadline else 0)
  }

  predicate IsTail(stream: seq<Entry>, log: seq<Entry>) {
    && |stream| <= |log|
    && forall i {:trigger stream[i]} :: 0 <= i < |stream| ==> stream[i] == log[|log| - |stream| + i]
  }

  /** The stream is the log's tail and has not lost the last two entries. */
  predicate StreamAgrees(stream: seq<Entry>, lastId: nat, log: seq<Entry>) {
    && lastId == LastId(log)
    && IsTail(stream, log)
    && (|stream| >= 2 || |stream| == |log|)
  }

  ghost predicate Represents(s: Slot, h: History) {
    && WellFormed(h)
    && HashAgrees(s.meta, h)
    && StreamAgrees(s.stream, s.lastId, h.log)
  }

  lemma AppendKeepsTail(stream: seq<Entry>, log: seq<Entry>, e: Entry, maxlen: nat)
    requires IsTail(stream, log)
    ensures IsTail(Newest(stream + [e], maxlen), log + [e])
  {
    var cut := if |stream| + 1 <= maxlen then 0 else |stream| + 1 - maxlen;
    var kept := Newest(stream + [e], maxlen);
    assert |kept| == |stream| + 1 - cut;
    forall i | 0 <= i < |kept| ensures kept[i] == (log + [e])[|log| + 1 - |kept| + i] {
      assert kept[i] == (stream + [e])[cut + i];
      if cut + i < |stream| {
        assert stream[cut + i] == log[|log| - |stream| + cut + i];
      }
    }
  }

  lemma AppendKeepsStream(stream: seq<Entry>, lastId: nat, log: seq<Entry>, e: Entry, maxlen: nat)
    requires StreamAgrees(stream, lastId, log) && maxlen >= 2
    ensures StreamAgrees(Newest(stream + [e], maxlen), e.id, log + [e])
  {
    hide IsTail;
    AppendKeepsTail(stream, log, e, maxlen);
  }

  /** Writing the hash and appending the same fact to the stream keeps the slot in step with its history. */
  lemma AppendRepresents(s: Slot, h: History, m: Meta, e: Entry, deadline: int, maxlen: nat)
    requires Represents(s, h) && maxlen >= 2
    requires Follows(h.log, e)
    requires m.generation == e.generation && m.state == e.state && m.error == e.error
    requires if Active(h) then m.leaseUntil == 0 && m.reusableAt == deadline
             else m.leaseUntil == deadline && m.reusableAt == 0 && deadline > 0
    ensures Represents(Slot(Some(m), Newest(s.stream + [e], maxlen), e.id), History(h.log + [e], deadline))
  {
    hide Grown, StreamAgrees, Newest;
    AppendGrows(h.log, e);
    AppendKeepsStream(s.stream, s.lastId, h.log, e, maxlen);
  }

  /** The next two entries and hash values that the scripts write. */
  function NewEntry(s: Slot, generation: nat, state: State, error: string, tick: nat): Entry {
    Entry(NextId(s.lastId, tick), generation, state, error)
  }

  function WithEntry(s: Slot, m: Meta, e: Entry, maxlen: nat): Slot {
    Slot(Some(m), Newest(s.stream + [e], maxlen), e.id)
  }

  lemma ClaimRepresents(s: Slot, h: History, now: int, lease: int, maxlen: nat, tick: nat)
    requires Represents(s, h) && !Active(h) && now >= 0 && lease >= 1 && maxlen >= 2
    ensures var g := Generation(h) + 1;
            Represents(WithEntry(s, Meta(g, Created, "", 0, now + lease), NewEntry(s, g, Created, "", tick), maxlen),
                       Begin(h, now, lease, tick))
  {
    hide Grown, IsTail, Newest;
    var g := Generation(h) + 1;
    AppendRepresents(s, h, Meta(g, Created, "", 0, now + lease), NewEntry(s, g, Created, "", tick), now + lease, maxlen);
  }

  lemma EndRepresents(s: Slot, h: History, state: State, error: string, reusableAt: int, maxlen: nat, tick: nat)
    requires Represents(s, h) && Active(h) && Terminal(state) && maxlen >= 2
    ensures var g := Generation(h);
            Represents(WithEntry(s, Meta(g, state, error, reusableAt, 0), NewEntry(s, g, state, error, tick), maxlen),
                       Finish(h, state, error, reusableAt, tick))
  {
    hide Grown, IsTail, Newest;
    var g := Generation(h);
    AppendRepresents(s, h, Meta(g, state, error, reusableAt, 0), NewEntry(s, g, state, error, tick), reusableAt, maxlen);
  }

  lemma RefreshRepresents(s: Slot, h: History, leaseUntil: int)
    requires Represents(s, h) && Active(h) && leaseUntil > 0
    ensures Represents(s.(meta := Some(s.meta.value.(leaseUntil := leaseUntil))), h.(deadline := leaseUntil))
  {
    hide Grown, IsTail;
  }

  lemma ReleaseRepresents(s: Slot, h: History, reusableAt: int)
    requires Represents(s, h) && !Active(h) && h.log != []
    ensures Represents(s.(meta := Some(s.meta.value.(reusableAt := reusableAt))), h.(deadline := reusableAt))
  {
    hide Grown, IsTail;
  }

  /** What a script reads from the hash, in terms of the history. */
  lemma HashTells(s: Slot, h: History)
    requires Represents(s, h)
    ensures s.meta.None? <==> h.log == []
    ensures s.meta.Some? ==>
              && s.meta.value.generation == Generation(h) > 0
              && s.meta.value.state == h.log[|h.log| - 1].state
              && (s.meta.value.state == Created <==> Active(h))
              && (!Active(h) ==> Terminal(s.meta.value.state))
              && s.meta.value.reusableAt == (if Active(h) then 0 else h.deadline)
              && s.meta.value.leaseUntil == (if Active(h) then h.deadline else 0)
              && (Active(h) ==> h.deadline > 0)
    ensures s.lastId == LastId(h.log)
  {
    hide Grown, IsTail;
    if h.log != [] { LastEntry(h); }
  }

  function SlotIn(slots: map<nat, Slot>, k: nat): Slot {
    if k in slots then slots[k] else ABSENT
  }

  ghost predicate Mirrors(slots: map<nat, Slot>, pool: Pool) {
    forall k: nat :: Represents(SlotIn(slots, k), Of(pool, k))
  }

  lemma MirrorsStep(slots: map<nat, Slot>, pool: Pool, slots': map<nat, Slot>, k: nat, h: History)
    requires Mirrors(slots, pool) && Represents(SlotIn(slots', k), h)
    requires forall j: nat :: j != k ==> SlotIn(slots', j) == SlotIn(slots, j)
    ensures Mirrors(slots', pool[k := h])
  {
    hide Represents;
    forall j: nat ensures Represents(SlotIn(slots', j), Of(pool[k := h], j)) {
      if j != k {
        assert Represents(SlotIn(slots, j), Of(pool, j));
      }
    }
  }

  /** Logs only grow. */
  ghost predicate Grew(p: Pool, q: Pool) {
    forall k: nat :: Of(p, k).log <= Of(q, k).log
  }

  lemma StepGrew(p: Pool, x: PoolOp)
    requires WellFormed(Of(p, x.slot)) && Legal(x.op)
    ensures Grew(p, PoolStep(p, x))
    ensures Of(p, x.slot).log <= Of(PoolStep(p, x), x.slot).log
  {
    hide Apply;
    ApplyKeepsWellFormed(Of(p, x.slot), x.op);
  }

  lemma GrewTransitively(p: Pool, q: Pool, r: Pool)
    requires Grew(p, q) && Grew(q, r)
    ensures Grew(p, r)
  {
    forall k: nat ensures Of(p, k).log <= Of(r, k).log {
      assert Of(p, k).log <= Of(q, k).log <= Of(r, k).log;
    }
  }

  lemma MirrorsAt(slots: map<nat, Slot>, pool: Pool, k: nat)
    requires Mirrors(slots, pool)
    ensures Represents(SlotIn(slots, k), Of(pool, k)) && WellFormed(Of(pool, k))
  {
  }

  lemma AppendTwice(stream: seq<Entry>, a: Entry, b: Entry, maxlen: nat)
    requires maxlen >= 1
    ensures Newest(Newest(stream + [a], maxlen) + [b], maxlen) == Newest(stream + [a, b], maxlen)
  {
    assert stream + [a] + [b] == stream + [a, b];
  }

  /** In every reachable state the hash says `created` exactly while it holds a lease, and names the
      generation and state of the stream's last entry. */
  lemma HashAndStreamAgree(s: Slot, h: History)
    requires Represents(s, h) && s.meta.Some?
    ensures s.stream != []
    ensures var last := s.stream[|s.stream| - 1];
            && s.meta.value.generation == last.generation
            && s.meta.value.state == last.state
            && s.meta.value.error == last.error
    ensures s.meta.value.state == Created <==> s.meta.value.leaseUntil > 0
    ensures s.meta.value.state == Created <==> |h.log| == 2 * s.meta.value.generation - 1
    ensures s.meta.value.state != Created <==> |h.log| == 2 * s.meta.value.generation
  {
    hide Grown;
    LastEntry(h);
    assert s.stream[|s.stream| - 1] == h.log[|h.log| - 1];
  }

  /** With a stream bound of 1, which the clients refuse, a recycled slot's stream would no longer
      hold the previous generation's outcome. */
  lemma OneEntryIsTooFew(h: History, claim: Op)
    requires WellFormed(h) && claim.TryClaim? && Claimable(h, claim.now) && h.log != []
    ensures var log := Apply(h, claim).log;
            Newest(log, 1) == [log[|log| - 1]] && log[|log| - 1].generation == Generation(h) + 1
    ensures forall maxlen :: maxlen >= 2 ==> h.log[|h.log| - 1] in Newest(Apply(h, claim).log, maxlen)
  {
    var log := Apply(h, claim).log;
    forall maxlen: nat | maxlen >= 2 ensures h.log[|h.log| - 1] in Newest(log, maxlen) {
      var kept := Newest(log, maxlen);
      assert kept[|kept| - 2] == log[|log| - 2];
    }
  }

  datatype CompleteReply = Logged(id: nat) | NotCurrent(generation: Option<nat>) | AlreadyTerminal(state: State)

  lemma TwoAppended(s: Slot, h: History, s': Slot, h': History, now: int, lease: int, maxlen: nat, tick: nat)
    requires maxlen >= 2
    requires |h'.log| == |h.log| + 1 && h.log <= h'.log && s'.lastId == LastId(h'.log)
    requires s'.stream == Newest(s.stream + [h'.log[|h.log|]], maxlen)
    ensures var b := NewEntry(s', Generation(h') + 1, Created, "", tick);
            Newest(s'.stream + [b], maxlen) == Newest(s.stream + Begin(h', now, lease, tick).log[|h.log|..], maxlen)
  {
    var b := NewEntry(s', Generation(h') + 1, Created, "", tick);
    AppendTwice(s.stream, h'.log[|h.log|], b, maxlen);
    assert Begin(h', now, lease, tick).log[|h.log|..] == [h'.log[|h.log|], b];
  }

  /** The pool's counter after one create of a pool of the given size. */
  function Advance(counter: int, size: nat): nat
    requires counter >= -1
  {
    if counter + 1 < size then counter + 1 else 0
  }

  function CounterAfter(counter: int, sizes: seq<nat>): (c: int)
    requires counter >= -1
    ensures c >= -1
    decreases |sizes|
  {
    if sizes == [] then counter else Advance(CounterAfter(counter, sizes[..|sizes| - 1]), sizes[|sizes| - 1])
  }

  lemma CounterOneMore(counter: int, sizes: seq<nat>, i: nat)
    requires counter >= -1 && i < |sizes|
    ensures CounterAfter(counter, sizes[..i + 1]) == Advance(CounterAfter(counter, sizes[..i]), sizes[i])
  {
    assert sizes[..i + 1][..i] == sizes[..i];
  }

  lemma {:induction false} CounterAppends(counter: int, a: seq<nat>, b: seq<nat>)
    requires counter >= -1
    ensures CounterAfter(counter, a + b) == CounterAfter(CounterAfter(counter, a), b)
    decreases |b|
  {
    if b == [] {
      assert a + b == a;
    } else {
      assert (a + b)[..|a + b| - 1] == a + b[..|b| - 1];
      CounterAppends(counter, a, b[..|b| - 1]);
    }
  }

  ghost predicate Positive(sizes: seq<nat>) {
    forall i :: 0 <= i < |sizes| ==> sizes[i] > 0
  }

  class Store {
    var counter: int             // the pool's `next` key; -1 while it is absent
    var slots: map<nat, Slot>
    ghost var pool: Pool

    function SlotAt(k: nat): Slot
      reads this`slots
    {
      SlotIn(slots, k)
    }

    ghost predicate Valid()
      reads this
    {
      counter >= -1 && Mirrors(slots, pool)
    }

    constructor ()
      ensures Valid() && counter == -1 && slots == map[] && pool == map[]
    {
      counter, slots, pool := -1, map[], map[];
    }

    /** _NEXT_SLOT: the counter runs cyclically through 0, ..., size - 1, whatever sizes others use. */
    method NextSlot(size: nat) returns (n: nat)
      requires Valid() && size > 0
      modifies this`counter
      ensures Valid() && counter == n == Advance(old(counter), size) < size
      ensures n == if old(counter) == -1 || old(counter) >= size - 1 then 0 else old(counter) + 1
    {
      var next := counter + 1;
      if next >= size { next := 0; }
      counter := next;
      n := next;
    }

    method Notify(k: nat, generation: nat, state: State, error: string, maxlen: nat, tick: nat) returns (id: nat)
      modifies this`slots
      ensures id == NextId(old(SlotAt(k)).lastId, tick)
      ensures slots == old(slots)[k := old(SlotAt(k)).(
                stream := Newest(old(SlotAt(k)).stream + [Entry(id, generation, state, error)], maxlen),
                lastId := id)]
    {
      var s := SlotAt(k);
      id := NextId(s.lastId, tick);
      slots := slots[k := s.(stream := Newest(s.stream + [Entry(id, generation, state, error)], maxlen), lastId := id)];
    }

    method WriteMeta(k: nat, meta: Meta)
      modifies this`slots
      ensures slots == old(slots)[k := old(SlotAt(k)).(meta := Some(meta))]
    {
      slots := slots[k := SlotAt(k).(meta := Some(meta))];
    }

    /** The scripts' local function `claim`. */
    method ClaimSlot(k: nat, generation: nat, now: int, lease: int, maxlen: nat, tick: nat) returns (granted: nat)
      modifies this`slots
      ensures granted == generation
      ensures slots == old(slots)[k := WithEntry(old(SlotAt(k)),
                                                 Meta(generation, Created, "", 0, now + lease),
                                                 NewEntry(old(SlotAt(k)), generation, Created, "", tick),
                                                 maxlen)]
    {
      WriteMeta(k, Meta(generation, Created, "", 0, now + lease));
      var _ := Notify(k, generation, Created, "", maxlen, tick);
      granted := generation;
    }

    method EndGeneration(k: nat, m: Meta, state: State, error: string, reusableAt: int, maxlen: nat, tick: nat)
      returns (id: nat)
      modifies this`slots
      ensures id == NextId(old(SlotAt(k)).lastId, tick)
      ensures slots == old(slots)[k := WithEntry(old(SlotAt(k)),
                                                 Meta(m.generation, state, error, reusableAt, 0),
                                                 NewEntry(old(SlotAt(k)), m.generation, state, error, tick),
                                                 maxlen)]
    {
      WriteMeta(k, m.(state := state, error := error, reusableAt := reusableAt, leaseUntil := 0));
      id := Notify(k, m.generation, state, error, maxlen, tick);
    }

    /** The entries that the last script appended to slot k. */
    ghost function Added(before: History, k: nat): seq<Entry>
      reads this`pool
      requires before.log <= Of(pool, k).log
    {
      Of(pool, k).log[|before.log|..]
    }

    /** _TRY_CLAIM. */
    method TryClaim(k: nat, now: int, lease: int, retention: int, maxlen: nat, tick: nat) returns (generation: nat)
      requires Valid() && Legal(Op.TryClaim(now, lease, retention, maxlen, tick))
      modifies this`slots, this`pool
      ensures Valid()
      ensures pool == PoolStep(old(pool), PoolOp(k, Op.TryClaim(now, lease, retention, maxlen, tick)))
      ensures generation == Granted(old(Of(pool, k)), Op.TryClaim(now, lease, retention, maxlen, tick))
      ensures forall j: nat :: j != k ==> SlotAt(j) == old(SlotAt(j))
      ensures old(Of(pool, k)).log <= Of(pool, k).log
      ensures Of(pool, k).log == old(Of(pool, k)).log ==> SlotAt(k) == old(SlotAt(k))
      ensures Of(pool, k).log != old(Of(pool, k)).log ==>
                SlotAt(k).stream == Newest(old(SlotAt(k)).stream + Added(old(Of(pool, k)), k), maxlen)
    {
      ghost var op := Op.TryClaim(now, lease, retention, maxlen, tick);
      hide Represents, Newest;
      ghost var s, h := SlotAt(k), Of(pool, k);
      HashTells(s, h);
      var meta := SlotAt(k).meta;
      if meta.None? {
        generation := ClaimSlot(k, 1, now, lease, maxlen, tick);
        ClaimRepresents(s, h, now, lease, maxlen, tick);
      } else {
        var gen, state := meta.value.generation, meta.value.state;
        generation := 0;
        if state == Created {
          var leaseUntil := meta.value.leaseUntil;
          if leaseUntil > 0 && leaseUntil <= now {
            var _ := EndGeneration(k, meta.value, Failed, LEASE_EXPIRED, now + retention, maxlen, tick);
            EndRepresents(s, h, Failed, LEASE_EXPIRED, now + retention, maxlen, tick);
            ghost var s', h' := SlotAt(k), Finish(h, Failed, LEASE_EXPIRED, now + retention, tick);
            if retention == 0 {
              generation := ClaimSlot(k, gen + 1, now, lease, maxlen, tick);
              ClaimRepresents(s', h', now, lease, maxlen, tick);
              TwoAppended(s, h, s', h', now, lease, maxlen, tick);
            }
          }
        } else if Terminal(state) {
          if meta.value.reusableAt <= now {
            generation := ClaimSlot(k, gen + 1, now, lease, maxlen, tick);
            ClaimRepresents(s, h, now, lease, maxlen, tick);
          }
        }
      }
      MirrorsStep(old(slots), pool, slots, k, Apply(h, op));
      pool := PoolStep(pool, PoolOp(k, op));
    }

    /** _COMPLETE. */
    method Complete(k: nat, expected: nat, state: State, error: string, now: int, retention: int, maxlen: nat, tick: nat)
      returns (reply: CompleteReply)
      requires Valid() && Legal(Op.Complete(expected, state, error, now, retention, maxlen, tick))
      modifies this`slots, this`pool
      ensures Valid()
      ensures pool == PoolStep(old(pool), PoolOp(k, Op.Complete(expected, state, error, now, retention, maxlen, tick)))
      ensures forall j: nat :: j != k ==> SlotAt(j) == old(SlotAt(j))
      ensures var h := old(Of(pool, k));
              && (reply.NotCurrent? <==> Generation(h) != expected)
              && (reply.NotCurrent? ==> reply.generation == if h.log == [] then None else Some(Generation(h)))
              && (reply.AlreadyTerminal? <==> Generation(h) == expected && !Active(h))
              && (reply.AlreadyTerminal? ==> reply.state == h.log[|h.log| - 1].state)
              && (reply.Logged? ==> reply.id == LastId(Of(pool, k).log))
      ensures old(Of(pool, k)).log <= Of(pool, k).log
      ensures !reply.Logged? ==> SlotAt(k) == old(SlotAt(k))
      ensures reply.Logged? ==> SlotAt(k).stream == Newest(old(SlotAt(k)).stream + Added(old(Of(pool, k)), k), maxlen)
    {
      ghost var op := Op.Complete(expected, state, error, now, retention, maxlen, tick);
      hide Represents, Newest;
      ghost var s, h := SlotAt(k), Of(pool, k);
      HashTells(s, h);
      var meta := SlotAt(k).meta;
      if meta.None? || meta.value.generation != expected {
        reply := NotCurrent(if meta.None? then None else Some(meta.value.generation));
      } else if meta.value.state != Created {
        reply := AlreadyTerminal(meta.value.state);
      } else {
        var id := EndGeneration(k, meta.value, state, error, now + retention, maxlen, tick);
        EndRepresents(s, h, state, error, now + retention, maxlen, tick);
        reply := Logged(id);
      }
      MirrorsStep(old(slots), pool, slots, k, Apply(h, op));
      pool := PoolStep(pool, PoolOp(k, op));
    }

    /** _REFRESH_LEASE. */
    method RefreshLease(k: nat, expected: nat, now: int, lease: int) returns (code: int)
      requires Valid() && Legal(Op.Refresh(expected, now, lease))
      modifies this`slots, this`pool
      ensures Valid()
      ensures pool == PoolStep(old(pool), PoolOp(k, Op.Refresh(expected, now, lease)))
      ensures forall j: nat :: j != k ==> SlotAt(j) == old(SlotAt(j))
      ensures SlotAt(k).stream == old(SlotAt(k)).stream
      ensures code == if old(Generation(Of(pool, k))) != expected then -1
                      else if old(Active(Of(pool, k))) then 1 else 0
    {
      hide Represents, Newest;
      ghost var s, h := SlotAt(k), Of(pool, k);
      HashTells(s, h);
      var meta := SlotAt(k).meta;
      if meta.None? || meta.value.generation != expected {
        code := -1;
      } else if meta.value.state != Created {
        code := 0;
      } else {
        WriteMeta(k, meta.value.(leaseUntil := now + lease));
        RefreshRepresents(s, h, now + lease);
        code := 1;
      }
      MirrorsStep(old(slots), pool, slots, k, Apply(h, Op.Refresh(expected, now, lease)));
      pool := PoolStep(pool, PoolOp(k, Op.Refresh(expected, now, lease)));
    }

    /** _RELEASE. */
    method Release(k: nat, expected: nat, now: int) returns (code: int)
      requires Valid() && Legal(Op.Release(expected, now))
      modifies this`slots, this`pool
      ensures Valid()
      ensures pool == PoolStep(old(pool), PoolOp(k, Op.Release(expected, now)))
      ensures forall j: nat :: j != k ==> SlotAt(j) == old(SlotAt(j))
      ensures SlotAt(k).stream == old(SlotAt(k)).stream
      ensures code == if old(Generation(Of(pool, k))) != expected then -1
                      else if old(Active(Of(pool, k))) then 0 else 1
    {
      hide Represents, Newest;
      ghost var s, h := SlotAt(k), Of(pool, k);
      HashTells(s, h);
      var meta := SlotAt(k).meta;
      if meta.None? || meta.value.generation != expected {
        code := -1;
      } else if meta.value.state == Created {
        code := 0;
      } else {
        WriteMeta(k, meta.value.(reusableAt := now));
        ReleaseRepresents(s, h, now);
        code := 1;
      }
      MirrorsStep(old(slots), pool, slots, k, Apply(h, Op.Release(expected, now)));
      pool := PoolStep(pool, PoolOp(k, Op.Release(expected, now)));
    }

    /** One script of some other client. */
    method Other(x: PoolOp)
      requires Valid() && Legal(x.op)
      modifies this`slots, this`pool
      ensures Valid() && pool == PoolStep(old(pool), x)
      ensures Grew(old(pool), pool)
    {
      hide Apply, Granted, Active, Generation, Mirrors, Newest;
      MirrorsAt(slots, pool, x.slot);
      StepGrew(pool, x);
      hide Grew;
      match x.op
      case TryClaim(now, lease, retention, maxlen, tick) =>
        var _ := TryClaim(x.slot, now, lease, retention, maxlen, tick);
      case Complete(g, state, error, now, retention, maxlen, tick) =>
        var _ := Complete(x.slot, g, state, error, now, retention, maxlen, tick);
      case Refresh(g, now, lease) =>
        var _ := RefreshLease(x.slot, g, now, lease);
      case Release(g, now) =>
        var _ := Release(x.slot, g, now);
    }

    /** The next-slot scripts that other clients run between two store accesses of one client. */
    method OtherCreates(sizes: seq<nat>)
      requires Valid() && Positive(sizes)
      modifies this`counter
      ensures Valid() && counter == CounterAfter(old(counter), sizes)
    {
      hide Mirrors;
      for i := 0 to |sizes|
        invariant Valid() && counter == CounterAfter(old(counter), sizes[..i])
      {
        CounterOneMore(old(counter), sizes, i);
        var _ := NextSlot(sizes[i]);
      }
      assert sizes[..|sizes|] == sizes;
    }

    /** What the other clients do to the slots between two store accesses of one client. */
    method Interfere(xs: seq<PoolOp>)
      requires Valid() && PoolLegal(xs)
      modifies this`slots, this`pool
      ensures Valid() && pool == PoolRun(old(pool), xs)
      ensures Grew(old(pool), pool)
    {
      var i := 0;
      while i < |xs|
        invariant 0 <= i <= |xs| && Valid()
        invariant PoolRun(pool, xs[i..]) == PoolRun(old(pool), xs)
        invariant Grew(old(pool), pool)
      {
        assert xs[i..][1..] == xs[i + 1..];
        ghost var p := pool;
        Other(xs[i]);
        GrewTransitively(old(pool), p, pool);
        i := i + 1;
      }
    }
  }
}

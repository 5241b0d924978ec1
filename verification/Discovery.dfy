/** The filesystem registry: records under (service, instance), kept alive by heartbeats, listed in
    instance order, resolved in turn, and pruned by whoever lists a stale one. */
module Discovery {
  import opened Arithmetic

  /** `rest` stands for the fields that discovery only carries. */
  datatype Record = Record(service: string, instance: string, heartbeatAt: real, rest: string)

  /** What a registry file holds. Files are written by `register` only, so a readable record is found
      under its own service and instance. */
  datatype Content = Unreadable | Written(record: Record)

  type Key = (string, string)

  type Files = map<Key, Content>

  // ----- the order of names

  predicate AtMost(a: string, b: string)
    decreases |a|
  {
    a == [] || (b != [] && (a[0] < b[0] || (a[0] == b[0] && AtMost(a[1..], b[1..]))))
  }

  lemma {:induction false} AtMostIsTotal(a: string, b: string)
    ensures AtMost(a, b) || AtMost(b, a)
    ensures AtMost(a, b) && AtMost(b, a) ==> a == b
    decreases |a|
  {
    if a != [] && b != [] && a[0] == b[0] {
      AtMostIsTotal(a[1..], b[1..]);
      assert a == [a[0]] + a[1..] && b == [b[0]] + b[1..];
    }
  }

  lemma {:induction false} AtMostIsTransitive(a: string, b: string, c: string)
    requires AtMost(a, b) && AtMost(b, c)
    ensures AtMost(a, c)
    decreases |a|
  {
    if a != [] && b != [] && c != [] && a[0] == b[0] == c[0] {
      AtMostIsTransitive(a[1..], b[1..], c[1..]);
    }
  }

  /** Character by character: the first difference decides, and a proper prefix comes first. */
  lemma {:induction false} OrderIsLexicographic(a: string, b: string)
    ensures AtMost(a, b) && a != b
            <==> || (|a| < |b| && a == b[..|a|])
                 || exists k :: 0 <= k < |a| && k < |b| && a[..k] == b[..k] && a[k] < b[k]
    decreases |a|
  {
    if a != [] && b != [] && a[0] == b[0] {
      OrderIsLexicographic(a[1..], b[1..]);
      assert a == [a[0]] + a[1..] && b == [b[0]] + b[1..];
      if |a[1..]| < |b[1..]| && a[1..] == b[1..][..|a[1..]|] {
        assert b[..|a|] == [b[0]] + b[1..][..|a[1..]|];
      }
      if |a| < |b| && a == b[..|a|] {
        assert a[1..] == b[1..][..|a[1..]|];
      }
      if k :| 0 <= k < |a[1..]| && k < |b[1..]| && a[1..][..k] == b[1..][..k] && a[1..][k] < b[1..][k] {
        assert a[..k + 1] == [a[0]] + a[1..][..k] && b[..k + 1] == [b[0]] + b[1..][..k];
        assert a[k + 1] < b[k + 1];
      }
      if k :| 0 <= k < |a| && k < |b| && a[..k] == b[..k] && a[k] < b[k] {
        assert a[1..][..k - 1] == a[..k][1..] && b[1..][..k - 1] == b[..k][1..];
        assert a[1..][k - 1] < b[1..][k - 1];
      }
    } else if a != [] && b != [] {
      forall k | 0 < k < |a| && k < |b| ensures a[..k] != b[..k] {
        assert a[..k][0] != b[..k][0];
      }
      assert a[..0] == b[..0];
    }
  }

  predicate Before(a: string, b: string) {
    AtMost(a, b) && a != b
  }

  ghost predicate Ascending(names: seq<string>) {
    forall i, j :: 0 <= i < j < |names| ==> Before(names[i], names[j])
  }

  /** Sorted names without repetition are determined by their set. */
  lemma {:induction false} AscendingIsUnique(a: seq<string>, b: seq<string>)
    requires Ascending(a) && Ascending(b)
    requires forall x :: x in a <==> x in b
    ensures a == b
    decreases |a|
  {
    assert |b| > 0 ==> b[0] in b;
    if a != [] {
      assert a[0] in b;
      assert b[0] in a;
      var i :| 0 <= i < |b| && b[i] == a[0];
      var j :| 0 <= j < |a| && a[j] == b[0];
      AtMostIsTotal(a[0], b[0]);
      assert a[0] == b[0];
      forall x ensures x in a[1..] <==> x in b[1..] {
        if x in a[1..] {
          assert x in b && x != a[0];
        }
        if x in b[1..] {
          assert x in a && x != b[0];
        }
      }
      AscendingIsUnique(a[1..], b[1..]);
      assert a == [a[0]] + a[1..] && b == [b[0]] + b[1..];
    }
  }

  // ----- listings

  predicate Healthy(files: Files, service: string, cutoff: real, instance: string) {
    && (service, instance) in files
    && files[(service, instance)].Written?
    && files[(service, instance)].record.heartbeatAt >= cutoff
  }

  predicate Stale(c: Content, cutoff: real) {
    c.Written? && c.record.heartbeatAt < cutoff
  }

  ghost predicate Kept(files: Files) {
    forall k :: k in files && files[k].Written? ==> files[k].record.service == k.0 && files[k].record.instance == k.1
  }

  function Instances(records: seq<Record>): seq<string> {
    seq(|records|, i requires 0 <= i < |records| => records[i].instance)
  }

  /** The answer of list_instances: the healthy records of a service, each once, in instance order. */
  ghost predicate IsListing(files: Files, service: string, cutoff: real, records: seq<Record>) {
    && Ascending(Instances(records))
    && (forall x :: x in Instances(records) <==> Healthy(files, service, cutoff, x))
    && (forall i :: 0 <= i < |records| ==>
          (service, records[i].instance) in files && files[(service, records[i].instance)] == Written(records[i]))
  }

  /** The answer is determined by the healthy records alone. */
  lemma ListingIsUnique(f: Files, g: Files, service: string, cutoff: real, a: seq<Record>, b: seq<Record>)
    requires IsListing(f, service, cutoff, a) && IsListing(g, service, cutoff, b)
    requires forall x :: Healthy(f, service, cutoff, x) <==> Healthy(g, service, cutoff, x)
    requires forall x :: Healthy(f, service, cutoff, x) ==> f[(service, x)] == g[(service, x)]
    ensures a == b
  {
    AscendingIsUnique(Instances(a), Instances(b));
    forall i | 0 <= i < |a| ensures a[i] == b[i] {
      assert Instances(a)[i] == Instances(b)[i];
      assert a[i].instance in Instances(a);
    }
  }

  /** What pruning by a listing of one service leaves. */
  function Pruned(files: Files, service: string, cutoff: real): Files {
    map k | k in files && !(k.0 == service && Stale(files[k], cutoff)) :: files[k]
  }

  // ----- the answers as functions of the registry

  lemma {:induction false} LeastExists(names: set<string>) returns (m: string)
    requires names != {}
    ensures m in names && forall x :: x in names ==> AtMost(m, x)
    decreases |names|
  {
    var y :| y in names;
    AtMostIsTotal(y, y);
    if names == {y} {
      m := y;
    } else {
      var rest := names - {y};
      m := LeastExists(rest);
      AtMostIsTotal(m, y);
      if !AtMost(m, y) {
        forall x | x in names ensures AtMost(y, x) {
          if x != y { AtMostIsTransitive(y, m, x); }
        }
        m := y;
      }
    }
  }

  ghost function Sorted(names: set<string>): (r: seq<string>)
    ensures Ascending(r)
    ensures forall x :: x in r <==> x in names
    decreases |names|
  {
    if names == {} then []
    else
      assert exists m :: m in names && forall x :: x in names ==> AtMost(m, x) by {
        var m := LeastExists(names);
      }
      var m :| m in names && forall x :: x in names ==> AtMost(m, x);
      var rest := Sorted(names - {m});
      assert forall i :: 0 <= i < |rest| ==> rest[i] in names - {m};
      [m] + rest
  }

  ghost function HealthySet(files: Files, service: string, cutoff: real): set<string> {
    set k | k in files && k.0 == service && Healthy(files, service, cutoff, k.1) :: k.1
  }

  lemma HealthySetIsHealthy(files: Files, service: string, cutoff: real)
    ensures forall x :: x in HealthySet(files, service, cutoff) <==> Healthy(files, service, cutoff, x)
  {
    forall x ensures x in HealthySet(files, service, cutoff) <==> Healthy(files, service, cutoff, x) {
      if Healthy(files, service, cutoff, x) {
        assert (service, x).1 in HealthySet(files, service, cutoff);
      }
    }
  }

  ghost function RecordsOf(files: Files, service: string, names: seq<string>): seq<Record>
    requires forall i :: 0 <= i < |names| ==> (service, names[i]) in files && files[(service, names[i])].Written?
  {
    seq(|names|, i requires 0 <= i < |names| => files[(service, names[i])].record)
  }

  ghost function Listing(files: Files, service: string, cutoff: real): seq<Record> {
    var names := Sorted(HealthySet(files, service, cutoff));
    HealthySetIsHealthy(files, service, cutoff);
    assert forall i :: 0 <= i < |names| ==> names[i] in names;
    RecordsOf(files, service, names)
  }

  lemma ListingIsListing(files: Files, service: string, cutoff: real)
    requires Kept(files)
    ensures IsListing(files, service, cutoff, Listing(files, service, cutoff))
  {
    var names := Sorted(HealthySet(files, service, cutoff));
    HealthySetIsHealthy(files, service, cutoff);
    assert forall i :: 0 <= i < |names| ==> names[i] in names;
    assert Instances(Listing(files, service, cutoff)) == names;
  }

  /** Whatever order the files are met in: an ascending list of exactly the healthy records is the listing. */
  lemma ListingIsDetermined(files: Files, service: string, cutoff: real, records: seq<Record>)
    requires Kept(files) && IsListing(files, service, cutoff, records)
    ensures records == Listing(files, service, cutoff)
  {
    ListingIsListing(files, service, cutoff);
    ListingIsUnique(files, files, service, cutoff, records, Listing(files, service, cutoff));
  }

  /** The listing, record by record: exactly those under the service whose heartbeat is not before the cutoff. */
  lemma ListedExactly(files: Files, service: string, cutoff: real)
    requires Kept(files)
    ensures var records := Listing(files, service, cutoff);
            && (forall r :: r in records <==>
                  && (service, r.instance) in files && files[(service, r.instance)] == Written(r)
                  && cutoff <= r.heartbeatAt)
            && (forall i, j :: 0 <= i < j < |records| ==> Before(records[i].instance, records[j].instance))
    ensures forall k :: k in Pruned(files, service, cutoff) <==>
              k in files && !(k.0 == service && files[k].Written? && files[k].record.heartbeatAt < cutoff)
    ensures forall k :: k in Pruned(files, service, cutoff) ==> Pruned(files, service, cutoff)[k] == files[k]
  {
    hide Listing;
    ListingIsListing(files, service, cutoff);
    var records := Listing(files, service, cutoff);
    forall r ensures r in records <==> (service, r.instance) in files && files[(service, r.instance)] == Written(r) && cutoff <= r.heartbeatAt {
      if r in records {
        var i :| 0 <= i < |records| && records[i] == r;
        assert Instances(records)[i] == r.instance;
        assert Healthy(files, service, cutoff, r.instance);
      }
      if (service, r.instance) in files && files[(service, r.instance)] == Written(r) && cutoff <= r.heartbeatAt {
        assert Healthy(files, service, cutoff, r.instance);
        var i :| 0 <= i < |records| && Instances(records)[i] == r.instance;
        assert records[i] == r;
      }
    }
    forall i, j | 0 <= i < j < |records| ensures Before(records[i].instance, records[j].instance) {
      assert Before(Instances(records)[i], Instances(records)[j]);
    }
  }

  // ----- operations on a registry that prunes, and on one that never does

  predicate NameStart(c: char) {
    'A' <= c <= 'Z' || 'a' <= c <= 'z' || '0' <= c <= '9'
  }

  predicate ValidName(s: string) {
    && 1 <= |s| <= 128 && NameStart(s[0])
    && forall i :: 0 < i < |s| ==> NameStart(s[i]) || s[i] == '_' || s[i] == '.' || s[i] == '-'
  }

  /** By ASCII code: 0 to 9, A to Z, a to z. */
  predicate AsciiAlphanumeric(c: char) {
    48 <= c as int <= 57 || 65 <= c as int <= 90 || 97 <= c as int <= 122
  }

  /** Valid names: up to 128 ASCII letters, digits, and, but not in front, hyphens, dots and underscores. */
  lemma NamesExactly(s: string)
    ensures ValidName(s)
            <==> && s != "" && |s| <= 128 && AsciiAlphanumeric(s[0])
                 && forall i :: 0 <= i < |s| ==> AsciiAlphanumeric(s[i]) || s[i] as int == 45 || s[i] as int == 46 || s[i] as int == 95
  {
    forall i | 0 <= i < |s| ensures NameStart(s[i]) <==> AsciiAlphanumeric(s[i]) {}
    forall i | 0 <= i < |s| ensures s[i] == '_' || s[i] == '.' || s[i] == '-' <==> s[i] as int == 45 || s[i] as int == 46 || s[i] as int == 95 {
      assert '_' as int == 95 && '.' as int == 46 && '-' as int == 45;
    }
    hide NameStart, AsciiAlphanumeric;
  }

  /** `turns` counts the successful resolutions of each service by one discovery object. */
  datatype Registry = Registry(files: Files, turns: map<string, nat>)

  datatype Op =
    | Register(record: Record)
    | Unregister(service: string, instance: string)
    | List(service: string, now: real)
    | Resolve(service: string, now: real)
    | Services(clock: string -> real, from: real, to: real)   // each directory is listed at a time of its own

  datatype Answer = Done | InvalidName | Listed(records: seq<Record>) | Resolved(record: Record) | NotFound | Named(services: seq<string>)

  function Turn(turns: map<string, nat>, service: string): nat {
    if service in turns then turns[service] else 0
  }

  function PrunedAll(files: Files, clock: string -> real, timeout: real): Files {
    map k | k in files && !(ValidName(k.0) && Stale(files[k], clock(k.0) - timeout)) :: files[k]
  }

  ghost function Living(files: Files, clock: string -> real, timeout: real): set<string> {
    set k | k in files && ValidName(k.0) && Healthy(files, k.0, clock(k.0) - timeout, k.1) :: k.0
  }

  ghost function Serve(r: Registry, op: Op, timeout: real, prunes: bool): (Registry, Answer) {
    match op
    case Register(record) =>
      if ValidName(record.service) && ValidName(record.instance) then
        (r.(files := r.files[(record.service, record.instance) := Written(record)]), Done)
      else (r, InvalidName)
    case Unregister(service, instance) =>
      if ValidName(service) && ValidName(instance) then (r.(files := r.files - {(service, instance)}), Done)
      else (r, InvalidName)
    case List(service, now) =>
      if !ValidName(service) then (r, InvalidName)
      else
        (r.(files := if prunes then Pruned(r.files, service, now - timeout) else r.files),
         Listed(Listing(r.files, service, now - timeout)))
    case Resolve(service, now) =>
      if !ValidName(service) then (r, InvalidName)
      else
        var files := if prunes then Pruned(r.files, service, now - timeout) else r.files;
        var records := Listing(r.files, service, now - timeout);
        if records == [] then (r.(files := files), NotFound)
        else
          (Registry(files, r.turns[service := Turn(r.turns, service) + 1]),
           Resolved(records[Turn(r.turns, service) % |records|]))
    case Services(clock, _, _) =>
      (r.(files := if prunes then PrunedAll(r.files, clock, timeout) else r.files),
       Named(Sorted(Living(r.files, clock, timeout))))
  }

  /** A record registered with a fresh heartbeat is in the next listing of its service. */
  lemma RegisteredIsListed(r: Registry, record: Record, now: real, timeout: real, prunes: bool)
    requires Kept(r.files) && ValidName(record.service) && ValidName(record.instance) && now - timeout <= record.heartbeatAt
    ensures var (r', a) := Serve(r, Register(record), timeout, prunes);
            var (_, b) := Serve(r', List(record.service, now), timeout, prunes);
            a == Done && b.Listed? && record in b.records
  {
    hide Listing, ValidName, Pruned;
    ListedExactly(r.files[(record.service, record.instance) := Written(record)], record.service, now - timeout);
  }

  /** An unregistered instance is in no listing and is not resolved, until it is registered again. */
  lemma UnregisteredIsGone(r: Registry, service: string, instance: string, now: real, timeout: real, prunes: bool)
    requires Kept(r.files) && ValidName(service) && ValidName(instance)
    ensures var (r', a) := Serve(r, Unregister(service, instance), timeout, prunes);
            && a == Done
            && var (_, b) := Serve(r', List(service, now), timeout, prunes);
               var (_, c) := Serve(r', Resolve(service, now), timeout, prunes);
               && b.Listed? && (forall record :: record in b.records ==> record.instance != instance)
               && (c == NotFound || (c.Resolved? && c.record in b.records))
  {
    hide Listing, ValidName, Pruned;
    ListedExactly(r.files - {(service, instance)}, service, now - timeout);
  }

  ghost function Answers(r: Registry, ops: seq<Op>, timeout: real, prunes: bool): seq<Answer>
    decreases |ops|
  {
    if ops == [] then []
    else
      var (r', a) := Serve(r, ops[0], timeout, prunes);
      [a] + Answers(r', ops[1..], timeout, prunes)
  }

  /** The clock readings of a run do not decrease; t is the latest one before it. */
  ghost predicate ClockNondecreasing(ops: seq<Op>, t: real)
    decreases |ops|
  {
    ops == []
    || match ops[0]
       case List(_, now) => t <= now && ClockNondecreasing(ops[1..], now)
       case Resolve(_, now) => t <= now && ClockNondecreasing(ops[1..], now)
       case Services(clock, from, to) =>
         t <= from && (forall service :: from <= clock(service) <= to) && ClockNondecreasing(ops[1..], to)
       case _ => ClockNondecreasing(ops[1..], t)
  }

  /** The pruned registry lacks nothing but records that are stale by now. */
  ghost predicate Lacks(p: Files, n: Files, cutoff: real) {
    && (forall k :: k in p ==> k in n && p[k] == n[k])
    && (forall k :: k in n && k !in p ==> Stale(n[k], cutoff))
  }

  lemma SameListing(p: Files, n: Files, cutoff: real, service: string, cutoff': real)
    requires Lacks(p, n, cutoff) && cutoff <= cutoff'
    ensures Listing(p, service, cutoff') == Listing(n, service, cutoff')
  {
    HealthySetIsHealthy(p, service, cutoff');
    HealthySetIsHealthy(n, service, cutoff');
    forall x ensures Healthy(p, service, cutoff', x) <==> Healthy(n, service, cutoff', x) {
      if (service, x) in n && (service, x) !in p {
        assert Stale(n[(service, x)], cutoff);
      }
    }
    assert HealthySet(p, service, cutoff') == HealthySet(n, service, cutoff');
    var names := Sorted(HealthySet(p, service, cutoff'));
    assert forall i :: 0 <= i < |names| ==> names[i] in names;
    assert Listing(p, service, cutoff') == Listing(n, service, cutoff');
  }

  lemma SameLiving(p: Files, n: Files, cutoff: real, clock: string -> real, timeout: real)
    requires Lacks(p, n, cutoff)
    requires forall service :: cutoff <= clock(service) - timeout
    ensures Living(p, clock, timeout) == Living(n, clock, timeout)
  {
    forall k | k in n && Healthy(n, k.0, clock(k.0) - timeout, k.1)
      ensures k in p && p[k] == n[k]
    {
      assert cutoff <= clock(k.0) - timeout;
    }
    forall x ensures x in Living(p, clock, timeout) <==> x in Living(n, clock, timeout) {
      if x in Living(n, clock, timeout) {
        var k :| k in n && ValidName(k.0) && Healthy(n, k.0, clock(k.0) - timeout, k.1) && k.0 == x;
        assert k in p && Healthy(p, k.0, clock(k.0) - timeout, k.1);
      }
      if x in Living(p, clock, timeout) {
        var k :| k in p && ValidName(k.0) && Healthy(p, k.0, clock(k.0) - timeout, k.1) && k.0 == x;
        assert k in n && Healthy(n, k.0, clock(k.0) - timeout, k.1);
      }
    }
  }

  /** Where the clock stands after an operation. */
  function After(op: Op, t: real): real {
    match op
    case List(_, now) => now
    case Resolve(_, now) => now
    case Services(_, _, to) => to
    case _ => t
  }

  lemma PruningLacks(p: Files, n: Files, service: string, cutoff: real, cutoff': real)
    requires Lacks(p, n, cutoff) && cutoff <= cutoff'
    ensures Lacks(Pruned(p, service, cutoff'), n, cutoff')
  {
  }

  lemma PruningAllLacks(p: Files, n: Files, clock: string -> real, timeout: real, cutoff: real, cutoff': real)
    requires Lacks(p, n, cutoff) && cutoff <= cutoff'
    requires forall service :: clock(service) - timeout <= cutoff'
    ensures Lacks(PrunedAll(p, clock, timeout), n, cutoff')
  {
    hide ValidName;
  }

  lemma WritingLacks(p: Files, n: Files, k: Key, c: Content, cutoff: real)
    requires Lacks(p, n, cutoff)
    ensures Lacks(p[k := c], n[k := c], cutoff) && Lacks(p - {k}, n - {k}, cutoff)
  {
  }

  lemma ServeAlike(p: Registry, n: Registry, op: Op, timeout: real, t: real)
    requires Lacks(p.files, n.files, t - timeout) && p.turns == n.turns
    requires ClockNondecreasing([op], t)
    ensures var (p', a) := Serve(p, op, timeout, true);
            var (n', b) := Serve(n, op, timeout, false);
            && a == b && p'.turns == n'.turns && Lacks(p'.files, n'.files, After(op, t) - timeout)
  {
    hide Listing, Living, Sorted, ValidName, Lacks, Pruned, PrunedAll, Stale;
    LacksLater(p.files, n.files, t - timeout, After(op, t) - timeout) by { ClockAfter(op, t); }
    match op
    case Register(record) =>
      WritingLacks(p.files, n.files, (record.service, record.instance), Written(record), t - timeout);
    case Unregister(service, instance) =>
      WritingLacks(p.files, n.files, (service, instance), Unreadable, t - timeout);
    case List(service, now) =>
      SameListing(p.files, n.files, t - timeout, service, now - timeout);
      PruningLacks(p.files, n.files, service, t - timeout, now - timeout);
    case Resolve(service, now) =>
      SameListing(p.files, n.files, t - timeout, service, now - timeout);
      PruningLacks(p.files, n.files, service, t - timeout, now - timeout);
    case Services(clock, from, to) =>
      ClockWithin(clock, from, to, t);
      SameLiving(p.files, n.files, t - timeout, clock, timeout);
      PruningAllLacks(p.files, n.files, clock, timeout, t - timeout, to - timeout);
  }

  lemma ClockAfter(op: Op, t: real)
    requires ClockNondecreasing([op], t)
    ensures t <= After(op, t)
  {
    if op.Services? {
      assert op.from <= op.clock("") <= op.to;
    }
  }

  lemma ClockWithin(clock: string -> real, from: real, to: real, t: real)
    requires ClockNondecreasing([Services(clock, from, to)], t)
    ensures forall service :: t <= clock(service) <= to
    ensures t <= to
  {
    ClockAfter(Services(clock, from, to), t);
  }

  lemma LacksLater(p: Files, n: Files, cutoff: real, cutoff': real)
    requires Lacks(p, n, cutoff) && cutoff <= cutoff'
    ensures Lacks(p, n, cutoff')
  {
  }

  lemma ClockHead(ops: seq<Op>, t: real)
    requires ops != [] && ClockNondecreasing(ops, t)
    ensures ClockNondecreasing([ops[0]], t) && ClockNondecreasing(ops[1..], After(ops[0], t))
  {
    assert [ops[0]][1..] == [];
  }

  /** Pruning is transparent: under one heartbeat timeout and a clock that does not go back, a registry
      that prunes answers every sequence of operations exactly as one that never deletes a stale record. */
  lemma {:induction false} PruningIsTransparent(p: Registry, n: Registry, ops: seq<Op>, timeout: real, t: real)
    requires Lacks(p.files, n.files, t - timeout) && p.turns == n.turns
    requires ClockNondecreasing(ops, t)
    ensures Answers(p, ops, timeout, true) == Answers(n, ops, timeout, false)
    decreases |ops|
  {
    if ops != [] {
      ClockHead(ops, t);
      ServeAlike(p, n, ops[0], timeout, t);
      hide Serve, Lacks;
      PruningIsTransparent(Serve(p, ops[0], timeout, true).0, Serve(n, ops[0], timeout, false).0, ops[1..], timeout, After(ops[0], t));
    }
  }

  // ----- turns

  /** How many of the k resolutions from turn c on fall to the i-th of n instances. */
  function Picks(c: nat, n: nat, k: nat, i: nat): nat
    requires n > 0
    decreases k
  {
    if k == 0 then 0 else Picks(c, n, k - 1, i) + (if (c + k - 1) % n == i then 1 else 0)
  }

  /** The instance whose turn comes k resolutions after that of `first`. */
  function Seat(first: nat, rest: nat, n: nat): nat
    requires first < n && rest < n
  {
    if first + rest < n then first + rest else first + rest - n
  }

  lemma SeatMoves(c: nat, n: nat, laps: nat, rest: nat)
    requires n > 0 && rest < n
    ensures (c + (laps * n + rest)) % n == Seat(c % n, rest, n)
  {
    var q, r := c / n, c % n;
    if r + rest < n {
      assert c + (laps * n + rest) == (q + laps) * n + (r + rest);
      ModOf(c + (laps * n + rest), q + laps, r + rest, n);
    } else {
      assert c + (laps * n + rest) == (q + laps + 1) * n + (r + rest - n);
      ModOf(c + (laps * n + rest), q + laps + 1, r + rest - n, n);
    }
  }

  /** Instance i is among the `rest` ones whose turn comes first. */
  predicate InRest(first: nat, rest: nat, n: nat, i: nat)
    requires first < n && rest < n && i < n
  {
    if i >= first then i - first < rest else i + n - first < rest
  }

  function Share(first: nat, laps: nat, rest: nat, n: nat, i: nat): nat
    requires first < n && rest < n && i < n
  {
    laps + (if InRest(first, rest, n, i) then 1 else 0)
  }

  lemma ShareGrows(first: nat, laps: nat, rest: nat, n: nat, i: nat)
    requires first < n && rest < n && i < n
    ensures Share(first, laps, rest, n, i) + (if Seat(first, rest, n) == i then 1 else 0)
            == if rest + 1 < n then Share(first, laps, rest + 1, n, i) else Share(first, laps + 1, 0, n, i)
  {
  }

  /** Fairness: k resolutions make whole laps and a rest; each instance is picked once a lap, and once
      more exactly if its seat lies in the rest. Hence any n in a row pick every instance once, and any k
      pick each floor(k / n) or that plus one times, wherever the turn stands. */
  lemma {:induction false} RoundRobinIsFair(c: nat, n: nat, k: nat) returns (laps: nat, rest: nat)
    requires n > 0
    ensures k == laps * n + rest && rest < n
    ensures forall i :: 0 <= i < n ==> Picks(c, n, k, i) == Share(c % n, laps, rest, n, i)
    decreases k
  {
    if k == 0 {
      laps, rest := 0, 0;
    } else {
      var laps', rest' := RoundRobinIsFair(c, n, k - 1);
      SeatMoves(c, n, laps', rest');
      laps, rest := if rest' + 1 < n then laps' else laps' + 1, if rest' + 1 < n then rest' + 1 else 0;
      LapCount(k - 1, laps', rest', n);
      var first := c % n;
      assert (c + k - 1) % n == Seat(first, rest', n);
      forall i | 0 <= i < n ensures Picks(c, n, k, i) == Share(first, laps, rest, n, i) {
        hide Share, Seat;
        ShareGrows(first, laps', rest', n, i);
      }
    }
  }

  lemma LapCount(k: nat, laps: nat, rest: nat, n: nat)
    requires rest < n && k == laps * n + rest
    ensures k + 1 == if rest + 1 < n then laps * n + (rest + 1) else (laps + 1) * n + 0
  {
  }

  ghost predicate Stable(r: Registry, service: string, nows: seq<real>, timeout: real, prunes: bool, records: seq<Record>)
    decreases |nows|
  {
    nows == []
    || (&& Listing(r.files, service, nows[0] - timeout) == records
        && Stable(Serve(r, Resolve(service, nows[0]), timeout, prunes).0, service, nows[1..], timeout, prunes, records))
  }

  function Resolves(service: string, nows: seq<real>): seq<Op>
    decreases |nows|
  {
    if nows == [] then [] else [Resolve(service, nows[0])] + Resolves(service, nows[1..])
  }

  lemma AnswersOnce(r: Registry, op: Op, ops: seq<Op>, timeout: real, prunes: bool)
    ensures Answers(r, [op] + ops, timeout, prunes)
            == [Serve(r, op, timeout, prunes).1] + Answers(Serve(r, op, timeout, prunes).0, ops, timeout, prunes)
  {
    hide Serve;
    assert ([op] + ops)[1..] == ops;
  }

  lemma ResolveOnce(r: Registry, service: string, now: real, timeout: real, prunes: bool)
    requires ValidName(service) && Listing(r.files, service, now - timeout) != []
    ensures var (r', a) := Serve(r, Resolve(service, now), timeout, prunes);
            var records := Listing(r.files, service, now - timeout);
            && a == Resolved(records[Turn(r.turns, service) % |records|])
            && Turn(r'.turns, service) == Turn(r.turns, service) + 1
  {
    hide Listing, ValidName, Pruned;
  }

  /** The answers go through the records one by one, from turn c on. */
  ghost predicate TakesTurns(answers: seq<Answer>, records: seq<Record>, c: nat)
    requires records != []
  {
    forall j :: 0 <= j < |answers| ==> answers[j] == Resolved(records[(c + j) % |records|])
  }

  lemma TakesTurnsFrom(answers: seq<Answer>, records: seq<Record>, c: nat)
    requires records != [] && TakesTurns(answers, records, c + 1)
    ensures TakesTurns([Resolved(records[c % |records|])] + answers, records, c)
  {
    var all := [Resolved(records[c % |records|])] + answers;
    forall j | 0 <= j < |all| ensures all[j] == Resolved(records[(c + j) % |records|]) {
      if j > 0 {
        assert all[j] == answers[j - 1];
        assert c + j == c + 1 + (j - 1);
      }
    }
  }

  /** As long as the listing is the same at every call, resolutions go through it in turn. */
  lemma {:induction false} ResolvesTakeTurns(r: Registry, service: string, nows: seq<real>, timeout: real, prunes: bool, records: seq<Record>)
    requires ValidName(service) && records != [] && Stable(r, service, nows, timeout, prunes, records)
    ensures |Answers(r, Resolves(service, nows), timeout, prunes)| == |nows|
    ensures TakesTurns(Answers(r, Resolves(service, nows), timeout, prunes), records, Turn(r.turns, service))
    decreases |nows|
  {
    hide Listing, ValidName, Serve, Turn;
    assert nows == [] ==> Answers(r, [], timeout, prunes) == [];
    hide Answers;
    if nows != [] {
      hide TakesTurns;
      var r' := Serve(r, Resolve(service, nows[0]), timeout, prunes).0;
      ResolveOnce(r, service, nows[0], timeout, prunes);
      AnswersOnce(r, Resolve(service, nows[0]), Resolves(service, nows[1..]), timeout, prunes);
      ResolvesTakeTurns(r', service, nows[1..], timeout, prunes, records);
      TakesTurnsFrom(Answers(r', Resolves(service, nows[1..]), timeout, prunes), records, Turn(r.turns, service));
    }
  }

  function TimesPicked(answers: seq<Answer>, record: Record): nat
    decreases |answers|
  {
    if answers == [] then 0
    else
      TimesPicked(answers[..|answers| - 1], record) + (if answers[|answers| - 1] == Resolved(record) then 1 else 0)
  }

  lemma {:induction false} TurnsArePicks(answers: seq<Answer>, records: seq<Record>, c: nat, i: nat)
    requires records != [] && TakesTurns(answers, records, c) && i < |records|
    requires forall a, b :: 0 <= a < b < |records| ==> records[a] != records[b]
    ensures TimesPicked(answers, records[i]) == Picks(c, |records|, |answers|, i)
    decreases |answers|
  {
    if answers != [] {
      TurnsArePicks(answers[..|answers| - 1], records, c, i);
      var last := (c + (|answers| - 1)) % |records|;
      assert answers[|answers| - 1] == Resolved(records[last]);
      assert last == (c + |answers| - 1) % |records|;
    }
  }

  lemma ListedOnce(files: Files, service: string, cutoff: real)
    requires Kept(files)
    ensures var records := Listing(files, service, cutoff);
            forall a, b :: 0 <= a < b < |records| ==> records[a] != records[b]
  {
    hide Listing;
    ListingIsListing(files, service, cutoff);
    var records := Listing(files, service, cutoff);
    forall a, b | 0 <= a < b < |records| ensures records[a] != records[b] {
      assert Before(Instances(records)[a], Instances(records)[b]);
    }
  }

  /** Fairness of resolve itself: while the listing of n instances stays the same, k resolutions return
      each instance laps or laps + 1 times, where k is `laps` times n plus `rest`, and laps + 1 times
      exactly the `rest` instances whose turn comes first. */
  lemma ResolvingIsFair(r: Registry, service: string, nows: seq<real>, timeout: real, prunes: bool, records: seq<Record>)
    returns (laps: nat, rest: nat)
    requires ValidName(service) && Kept(r.files)
    requires records != [] && Stable(r, service, nows, timeout, prunes, records)
    ensures |nows| == laps * |records| + rest && rest < |records|
    ensures forall i :: 0 <= i < |records| ==>
              TimesPicked(Answers(r, Resolves(service, nows), timeout, prunes), records[i])
              == Share(Turn(r.turns, service) % |records|, laps, rest, |records|, i)
  {
    hide Listing, ValidName, Answers, TakesTurns, Share, Turn, Kept, Serve;
    laps, rest := RoundRobinIsFair(Turn(r.turns, service), |records|, |nows|);
    ResolvesTakeTurns(r, service, nows, timeout, prunes, records);
    if nows == [] {
      var answers := Answers(r, Resolves(service, nows), timeout, prunes);
      assert answers == [];
      forall i | 0 <= i < |records|
        ensures TimesPicked(answers, records[i]) == Picks(Turn(r.turns, service), |records|, 0, i)
      {}
    } else {
      ListedOnce(r.files, service, nows[0] - timeout);
      forall i | 0 <= i < |records|
        ensures TimesPicked(Answers(r, Resolves(service, nows), timeout, prunes), records[i])
                == Picks(Turn(r.turns, service), |records|, |nows|, i)
      {
        TurnsArePicks(Answers(r, Resolves(service, nows), timeout, prunes), records, Turn(r.turns, service), i);
      }
    }
  }
}

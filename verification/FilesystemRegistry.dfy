/** The discovery object over the registry directory: `files` is the directory, shared with every other
    process, and `roundRobin` the object's own counters. */
module FilesystemRegistry {
  import opened Wrappers
  import opened Discovery

  // ----- sorting by a name

  ghost predicate Distinct(names: seq<string>) {
    forall i, j :: 0 <= i < j < |names| ==> names[i] != names[j]
  }

  function Names<T>(s: seq<T>, key: T -> string): seq<string> {
    seq(|s|, i requires 0 <= i < |s| => key(s[i]))
  }

  function Insert<T>(x: T, s: seq<T>, key: T -> string): seq<T>
    decreases |s|
  {
    if s == [] || AtMost(key(x), key(s[0])) then [x] + s else [s[0]] + Insert(x, s[1..], key)
  }

  function SortBy<T>(s: seq<T>, key: T -> string): seq<T>
    decreases |s|
  {
    if s == [] then [] else Insert(s[0], SortBy(s[1..], key), key)
  }

  lemma {:induction false} InsertAdds<T>(x: T, s: seq<T>, key: T -> string)
    ensures forall y :: y in Insert(x, s, key) <==> y == x || y in s
    decreases |s|
  {
    if s != [] && !AtMost(key(x), key(s[0])) {
      InsertAdds(x, s[1..], key);
      assert s == [s[0]] + s[1..];
    }
  }

  lemma NameIn<T>(s: seq<T>, key: T -> string, name: string)
    ensures name in Names(s, key) <==> exists y :: y in s && key(y) == name
  {
    if name in Names(s, key) {
      var i :| 0 <= i < |s| && Names(s, key)[i] == name;
      assert s[i] in s;
    }
    if y :| y in s && key(y) == name {
      var i :| 0 <= i < |s| && s[i] == y;
      assert Names(s, key)[i] == name;
    }
  }

  lemma AscendingCons(name: string, names: seq<string>)
    requires Ascending(names) && forall other :: other in names ==> Before(name, other)
    ensures Ascending([name] + names)
  {
  }

  lemma BeforeAll(name: string, names: seq<string>)
    requires Ascending(names) && names != [] && Before(name, names[0])
    ensures forall other :: other in names ==> Before(name, other)
  {
    forall other | other in names ensures Before(name, other) {
      var i :| 0 <= i < |names| && names[i] == other;
      if i > 0 {
        assert Before(names[0], names[i]);
        AtMostIsTransitive(name, names[0], other);
        AtMostIsTotal(name, names[0]);
      }
    }
  }

  lemma NamesHead<T>(s: seq<T>, key: T -> string)
    requires s != []
    ensures Names(s, key) == [key(s[0])] + Names(s[1..], key)
    ensures Ascending(Names(s, key)) ==> Ascending(Names(s[1..], key))
    ensures Ascending(Names(s, key)) ==> forall name :: name in Names(s[1..], key) ==> Before(key(s[0]), name)
    ensures Distinct(Names(s, key)) ==> Distinct(Names(s[1..], key)) && key(s[0]) !in Names(s[1..], key)
  {
    var names, rest := Names(s, key), Names(s[1..], key);
    assert names == [key(s[0])] + rest;
    assert names[0] == key(s[0]);
    assert forall i :: 0 <= i < |rest| ==> rest[i] == names[i + 1];
  }

  lemma {:induction false} InsertKeepsOrder<T>(x: T, s: seq<T>, key: T -> string)
    requires Ascending(Names(s, key)) && key(x) !in Names(s, key)
    ensures Ascending(Names(Insert(x, s, key), key))
    decreases |s|
  {
    var names := Names(s, key);
    if s == [] {
    } else if AtMost(key(x), key(s[0])) {
      assert names[0] in names;
      BeforeAll(key(x), names);
      AscendingCons(key(x), names);
      assert Names([x] + s, key) == [key(x)] + names;
    } else {
      NamesHead(s, key);
      InsertKeepsOrder(x, s[1..], key);
      var after := Insert(x, s[1..], key);
      forall other | other in Names(after, key) ensures Before(key(s[0]), other) {
        NameIn(after, key, other);
        InsertAdds(x, s[1..], key);
        AtMostIsTotal(key(s[0]), key(x));
        NameIn(s[1..], key, other);
      }
      AscendingCons(key(s[0]), Names(after, key));
      assert Names([s[0]] + after, key) == [key(s[0])] + Names(after, key);
    }
  }

  /** Sorting keeps the elements, and orders elements of different names strictly. */
  lemma {:induction false} SortByOrders<T>(s: seq<T>, key: T -> string)
    requires Distinct(Names(s, key))
    ensures Ascending(Names(SortBy(s, key), key))
    ensures forall y :: y in SortBy(s, key) <==> y in s
    decreases |s|
  {
    if s != [] {
      NamesHead(s, key);
      SortByOrders(s[1..], key);
      var rest := SortBy(s[1..], key);
      NameIn(rest, key, key(s[0]));
      NameIn(s[1..], key, key(s[0]));
      assert key(s[0]) !in Names(rest, key);
      InsertKeepsOrder(s[0], rest, key);
      InsertAdds(s[0], rest, key);
    }
  }

  // ----- one pass over a directory

  /** The file names of a directory, in whatever order the filesystem gives them. */
  ghost predicate Enumerates(paths: seq<string>, files: Files, service: string) {
    && Distinct(paths)
    && forall instance :: instance in paths <==> (service, instance) in files
  }

  ghost predicate Fresh(files: Files, service: string, cutoff: real, record: Record) {
    Healthy(files, service, cutoff, record.instance) && files[(service, record.instance)].record == record
  }

  /** What the loop has gathered from the names seen so far. */
  ghost predicate Gathered(files: Files, service: string, cutoff: real, seen: seq<string>, healthy: seq<Record>) {
    && Distinct(Instances(healthy))
    && forall record :: record in healthy <==> record.instance in seen && Fresh(files, service, cutoff, record)
  }

  function PrunedSeen(files: Files, service: string, cutoff: real, seen: seq<string>): Files {
    map k | k in files && !(k.0 == service && k.1 in seen && Stale(files[k], cutoff)) :: files[k]
  }

  lemma NothingGathered(files: Files, service: string, cutoff: real)
    ensures Gathered(files, service, cutoff, [], []) && PrunedSeen(files, service, cutoff, []) == files
  {
  }

  lemma GatherOne(files: Files, service: string, cutoff: real, seen: seq<string>, name: string, healthy: seq<Record>)
    requires Kept(files) && Gathered(files, service, cutoff, seen, healthy) && name !in seen
    ensures Healthy(files, service, cutoff, name) ==>
              Gathered(files, service, cutoff, seen + [name], healthy + [files[(service, name)].record])
    ensures !Healthy(files, service, cutoff, name) ==> Gathered(files, service, cutoff, seen + [name], healthy)
  {
    if Healthy(files, service, cutoff, name) {
      var record := files[(service, name)].record;
      var all := healthy + [record];
      forall i, j | 0 <= i < j < |all| ensures Instances(all)[i] != Instances(all)[j] {
        if j < |healthy| {
          assert Instances(healthy)[i] != Instances(healthy)[j];
        } else {
          assert healthy[i] in healthy;
        }
      }
    }
  }

  lemma PruneOne(files: Files, service: string, cutoff: real, seen: seq<string>, name: string)
    requires (service, name) in files && name !in seen
    ensures var before := PrunedSeen(files, service, cutoff, seen);
            && (service, name) in before && before[(service, name)] == files[(service, name)]
            && PrunedSeen(files, service, cutoff, seen + [name])
               == if Stale(files[(service, name)], cutoff) then before - {(service, name)} else before
  {
  }

  /** After every name has been seen, the gathered records sorted by instance are the listing. */
  lemma GatheredIsListing(files: Files, service: string, cutoff: real, paths: seq<string>, healthy: seq<Record>)
    requires Kept(files) && Enumerates(paths, files, service) && Gathered(files, service, cutoff, paths, healthy)
    ensures SortBy(healthy, (r: Record) => r.instance) == Listing(files, service, cutoff)
    ensures PrunedSeen(files, service, cutoff, paths) == Pruned(files, service, cutoff)
  {
    hide Listing, SortBy, Stale, Ascending;
    var key := (r: Record) => r.instance;
    var sorted := SortBy(healthy, key);
    assert Instances(healthy) == Names(healthy, key);
    SortByOrders(healthy, key);
    assert Instances(sorted) == Names(sorted, key);
    forall i | 0 <= i < |sorted|
      ensures (service, sorted[i].instance) in files && files[(service, sorted[i].instance)] == Written(sorted[i])
    {
      assert sorted[i] in sorted;
      assert Fresh(files, service, cutoff, sorted[i]);
    }
    forall x ensures x in Instances(sorted) <==> Healthy(files, service, cutoff, x) {
      NameIn(sorted, key, x);
      if Healthy(files, service, cutoff, x) {
        assert Fresh(files, service, cutoff, files[(service, x)].record);
      }
    }
    ListingIsDetermined(files, service, cutoff, sorted);
  }

  // ----- a pass over every directory

  function PrunedDirs(files: Files, clock: string -> real, timeout: real, dirs: seq<string>): Files {
    map k | k in files && !(k.0 in dirs && ValidName(k.0) && Stale(files[k], clock(k.0) - timeout)) :: files[k]
  }

  /** The services found alive in the directories seen so far. */
  ghost predicate Alive(files: Files, clock: string -> real, timeout: real, dirs: seq<string>, services: seq<string>) {
    && Distinct(services)
    && forall d :: d in services <==> d in dirs && ValidName(d) && Listing(files, d, clock(d) - timeout) != []
  }

  lemma NoneAlive(files: Files, clock: string -> real, timeout: real)
    ensures Alive(files, clock, timeout, [], []) && PrunedDirs(files, clock, timeout, []) == files
  {
  }

  lemma AliveOne(files: Files, clock: string -> real, timeout: real, dirs: seq<string>, services: seq<string>, d: string)
    requires Alive(files, clock, timeout, dirs, services) && d !in dirs
    ensures var found := ValidName(d) && Listing(files, d, clock(d) - timeout) != [];
            Alive(files, clock, timeout, dirs + [d], if found then services + [d] else services)
  {
    hide Listing, ValidName;
  }

  /** Pruning other directories leaves a directory as it was. */
  lemma PruneDir(files: Files, clock: string -> real, timeout: real, dirs: seq<string>, d: string, paths: seq<string>)
    requires Kept(files) && d !in dirs && Enumerates(paths, files, d)
    ensures var now := PrunedDirs(files, clock, timeout, dirs);
            && Kept(now)
            && Enumerates(paths, now, d)
            && Listing(now, d, clock(d) - timeout) == Listing(files, d, clock(d) - timeout)
            && PrunedDirs(files, clock, timeout, dirs + [d])
               == if ValidName(d) then Pruned(now, d, clock(d) - timeout) else now
  {
    hide ValidName, Stale, Listing;
    var now := PrunedDirs(files, clock, timeout, dirs);
    var cutoff := clock(d) - timeout;
    forall x ensures Healthy(now, d, cutoff, x) <==> Healthy(files, d, cutoff, x) {
      assert (d, x) in now <==> (d, x) in files;
    }
    SameHealthy(now, files, d, cutoff);
  }

  lemma SameHealthy(f: Files, g: Files, service: string, cutoff: real)
    requires Kept(f) && Kept(g)
    requires forall x :: Healthy(f, service, cutoff, x) <==> Healthy(g, service, cutoff, x)
    requires forall x :: Healthy(f, service, cutoff, x) && Healthy(g, service, cutoff, x) ==> f[(service, x)] == g[(service, x)]
    ensures Listing(f, service, cutoff) == Listing(g, service, cutoff)
  {
    hide Listing;
    ListingIsListing(f, service, cutoff);
    ListingIsListing(g, service, cutoff);
    ListingIsUnique(f, g, service, cutoff, Listing(f, service, cutoff), Listing(g, service, cutoff));
  }

  lemma ListedIffHealthy(files: Files, service: string, cutoff: real)
    requires Kept(files)
    ensures Listing(files, service, cutoff) != [] <==> exists x :: Healthy(files, service, cutoff, x)
  {
    hide Listing, Healthy, Ascending;
    ListingIsListing(files, service, cutoff);
    var records := Listing(files, service, cutoff);
    if records != [] {
      assert Instances(records)[0] in Instances(records);
    }
  }

  /** After every directory has been seen, the services found, sorted, are the answer. */
  lemma AliveIsLiving(files: Files, clock: string -> real, timeout: real, dirs: seq<string>, services: seq<string>)
    requires Kept(files) && Alive(files, clock, timeout, dirs, services)
    requires forall k :: k in files ==> k.0 in dirs
    ensures SortBy(services, (s: string) => s) == Sorted(Living(files, clock, timeout))
    ensures PrunedDirs(files, clock, timeout, dirs) == PrunedAll(files, clock, timeout)
  {
    hide Listing, Sorted, SortBy, ValidName, Stale, Ascending;
    var key := (s: string) => s;
    var sorted := SortBy(services, key);
    assert Names(services, key) == services;
    SortByOrders(services, key);
    assert Names(sorted, key) == sorted;
    var living := Living(files, clock, timeout);
    forall d ensures d in services <==> d in living {
      ListedIffHealthy(files, d, clock(d) - timeout);
      if d in services {
        var x :| Healthy(files, d, clock(d) - timeout, x);
        assert (d, x) in files && (d, x).0 in living;
      }
      if d in living {
        var k :| k in files && ValidName(k.0) && Healthy(files, k.0, clock(k.0) - timeout, k.1) && k.0 == d;
        assert Healthy(files, d, clock(d) - timeout, k.1);
      }
    }
    AscendingIsUnique(sorted, Sorted(living));
  }

  lemma LivingExactly(files: Files, clock: string -> real, timeout: real)
    ensures var services := Sorted(Living(files, clock, timeout));
            && Ascending(services)
            && forall d :: d in services <==>
                 ValidName(d) && exists k :: k in files && k.0 == d && files[k].Written?
                                             && clock(d) - timeout <= files[k].record.heartbeatAt
  {
    hide Sorted, ValidName, Ascending;
    var living := Living(files, clock, timeout);
    forall d ensures d in living <==> ValidName(d) && exists k :: k in files && k.0 == d && files[k].Written?
                                                                   && clock(d) - timeout <= files[k].record.heartbeatAt {
      if ValidName(d) {
        if k :| k in files && k.0 == d && files[k].Written? && clock(d) - timeout <= files[k].record.heartbeatAt {
          assert (k.0, k.1) == k && Healthy(files, k.0, clock(k.0) - timeout, k.1);
        }
      }
      if d in living {
        var k :| k in files && ValidName(k.0) && Healthy(files, k.0, clock(k.0) - timeout, k.1) && k.0 == d;
        assert (k.0, k.1) == k;
      }
    }
  }

  lemma ServesList(r: Registry, service: string, now: real, timeout: real, prunes: bool)
    requires ValidName(service)
    ensures Serve(r, List(service, now), timeout, prunes)
            == (r.(files := if prunes then Pruned(r.files, service, now - timeout) else r.files),
                Listed(Listing(r.files, service, now - timeout)))
  {
  }

  lemma ServesServices(r: Registry, clock: string -> real, from: real, to: real, timeout: real, prunes: bool)
    ensures Serve(r, Services(clock, from, to), timeout, prunes)
            == (r.(files := if prunes then PrunedAll(r.files, clock, timeout) else r.files),
                Named(Sorted(Living(r.files, clock, timeout))))
  {
  }

  class FilesystemDiscovery {
    var files: Files
    var roundRobin: map<string, nat>
    const timeout: real
    const prunes: bool

    constructor (files: Files, timeout: real, prunes: bool)
      ensures this.files == files && roundRobin == map[] && this.timeout == timeout && this.prunes == prunes
    {
      this.files, roundRobin := files, map[];
      this.timeout, this.prunes := timeout, prunes;
    }

    ghost function State(): Registry
      reads this
    {
      Registry(files, roundRobin)
    }

    function ReadRecord(k: Key): Option<Record>
      reads `files
    {
      if k in files && files[k].Written? then Some(files[k].record) else None
    }

    method Register(record: Record) returns (answer: Answer)
      requires Kept(files)
      modifies `files
      ensures Kept(files) && (State(), answer) == Serve(old(State()), Op.Register(record), timeout, prunes)
      ensures answer == if ValidName(record.service) && ValidName(record.instance) then Done else InvalidName
      ensures files == if answer == Done then old(files)[(record.service, record.instance) := Written(record)] else old(files)
    {
      if !(ValidName(record.service) && ValidName(record.instance)) { return InvalidName; }
      files := files[(record.service, record.instance) := Written(record)];
      answer := Done;
    }

    method Unregister(service: string, instance: string) returns (answer: Answer)
      requires Kept(files)
      modifies `files
      ensures Kept(files) && (State(), answer) == Serve(old(State()), Op.Unregister(service, instance), timeout, prunes)
      ensures answer == if ValidName(service) && ValidName(instance) then Done else InvalidName
      ensures answer == Done ==> (service, instance) !in files
      ensures forall k :: (answer == Done ==> k != (service, instance)) ==>
                (k in files <==> k in old(files)) && (k in files ==> files[k] == old(files)[k])
    {
      if !(ValidName(service) && ValidName(instance)) { return InvalidName; }
      files := files - {(service, instance)};
      answer := Done;
    }

    /** Reads the record again: a file that has become unreadable goes too, a refreshed one stays. */
    method PruneIfStillStale(k: Key, service: string, cutoff: real)
      modifies `files
      ensures files == if k in old(files) && old(files)[k].Written?
                          && (old(files)[k].record.service != service || !Stale(old(files)[k], cutoff))
                       then old(files) else old(files) - {k}
    {
      var current := ReadRecord(k);
      if current.None? || (current.value.service == service && current.value.heartbeatAt < cutoff) {
        files := files - {k};
      }
    }

    method ListInstances(service: string, now: real, paths: seq<string>) returns (answer: Answer)
      requires Kept(files) && Enumerates(paths, files, service)
      modifies `files
      ensures Kept(files) && (State(), answer) == Serve(old(State()), List(service, now), timeout, prunes)
      ensures if ValidName(service) then answer.Listed? else answer == InvalidName && files == old(files)
      ensures answer.Listed? ==>
                && (forall r :: r in answer.records <==>
                      && (service, r.instance) in old(files) && old(files)[(service, r.instance)] == Written(r)
                      && now - timeout <= r.heartbeatAt)
                && (forall i, j :: 0 <= i < j < |answer.records| ==> Before(answer.records[i].instance, answer.records[j].instance))
      // a stale record of this service is deleted if the object prunes, everything else stays
      ensures answer.Listed? ==> forall k ::
                && (k in files <==>
                      && k in old(files)
                      && !(prunes && k.0 == service && old(files)[k].Written? && old(files)[k].record.heartbeatAt < now - timeout))
                && (k in files ==> files[k] == old(files)[k])
    {
      hide Listing, SortBy, ValidName, Gathered;
      if !ValidName(service) { return InvalidName; }
      var cutoff := now - timeout;
      var healthy: seq<Record> := [];
      NothingGathered(files, service, cutoff);
      assert paths[..0] == [];
      for i := 0 to |paths|
        invariant Gathered(old(files), service, cutoff, paths[..i], healthy)
        invariant files == if prunes then PrunedSeen(old(files), service, cutoff, paths[..i]) else old(files)
      {
        var name := paths[i];
        assert name in paths && paths[..i + 1] == paths[..i] + [name] && name !in paths[..i];
        GatherOne(old(files), service, cutoff, paths[..i], name, healthy);
        PruneOne(old(files), service, cutoff, paths[..i], name);
        var record := ReadRecord((service, name));
        if record.Some? && record.value.service == service {
          if record.value.heartbeatAt >= cutoff {
            healthy := healthy + [record.value];
          } else if prunes {
            PruneIfStillStale((service, name), service, cutoff);
          }
        }
      }
      assert paths[..|paths|] == paths;
      GatheredIsListing(old(files), service, cutoff, paths, healthy);
      ListedExactly(old(files), service, cutoff);
      answer := Listed(SortBy(healthy, (r: Record) => r.instance));
    }

    method Resolve(service: string, now: real, paths: seq<string>) returns (answer: Answer)
      requires Kept(files) && Enumerates(paths, files, service)
      modifies this
      ensures Kept(files) && (State(), answer) == Serve(old(State()), Op.Resolve(service, now), timeout, prunes)
      ensures answer == InvalidName <==> !ValidName(service)
      ensures answer.InvalidName? || answer.NotFound? || answer.Resolved?
      ensures answer.Resolved? ==>
                && answer.record.service == service
                && (service, answer.record.instance) in old(files)
                && old(files)[(service, answer.record.instance)] == Written(answer.record)
                && now - timeout <= answer.record.heartbeatAt
      ensures answer.NotFound? ==> forall k :: k in old(files) && k.0 == service && old(files)[k].Written? ==>
                                               old(files)[k].record.heartbeatAt < now - timeout
      // each instance found moves the service's counter by one
      ensures roundRobin == if answer.Resolved? then
                              old(roundRobin)[service := (if service in old(roundRobin) then old(roundRobin)[service] else 0) + 1]
                            else old(roundRobin)
    {
      hide Listing, ValidName, Pruned;
      var instances := ListInstances(service, now, paths);
      if instances.InvalidName? { return InvalidName; }
      if instances.records == [] { return NotFound; }
      var turn := Turn(roundRobin, service);
      var index := turn % |instances.records|;
      roundRobin := roundRobin[service := turn + 1];
      answer := Resolved(instances.records[index]);
    }

    /** `directories` are the directories found, `clock` when each is listed and `paths` what it holds. */
    method ListServices(directories: seq<string>, clock: string -> real, paths: string -> seq<string>, from: real, to: real)
      returns (answer: Answer)
      requires Kept(files) && Distinct(directories) && (forall k :: k in files ==> k.0 in directories)
      requires forall d :: d in directories ==> Enumerates(paths(d), files, d)
      modifies `files
      ensures Kept(files) && (State(), answer) == Serve(old(State()), Services(clock, from, to), timeout, prunes)
      ensures answer.Named? && Ascending(answer.services)
      ensures forall d :: d in answer.services <==>
                ValidName(d) && exists k :: k in old(files) && k.0 == d && old(files)[k].Written?
                                            && clock(d) - timeout <= old(files)[k].record.heartbeatAt
    {
      hide Listing, Sorted, SortBy, ValidName, Pruned, PrunedDirs, PrunedAll, Alive, Kept, Living, Enumerates, Serve;
      var services: seq<string> := [];
      NoneAlive(files, clock, timeout);
      assert directories[..0] == [];
      for i := 0 to |directories|
        invariant Kept(files)
        invariant Alive(old(files), clock, timeout, directories[..i], services)
        invariant files == if prunes then PrunedDirs(old(files), clock, timeout, directories[..i]) else old(files)
      {
        var d := directories[i];
        assert d in directories && directories[..i + 1] == directories[..i] + [d] && d !in directories[..i];
        AliveOne(old(files), clock, timeout, directories[..i], services, d);
        PruneDir(old(files), clock, timeout, directories[..i], d, paths(d));
        if ValidName(d) {
          ServesList(State(), d, clock(d), timeout, prunes);
          var instances := ListInstances(d, clock(d), paths(d));
          if instances.records != [] {
            services := services + [d];
          }
        }
      }
      assert directories[..|directories|] == directories;
      AliveIsLiving(old(files), clock, timeout, directories, services);
      ServesServices(old(State()), clock, from, to, timeout, prunes);
      LivingExactly(old(files), clock, timeout);
      answer := Named(SortBy(services, (s: string) => s));
    }
  }
}

/** The generation-tagged cache of managed instances: what one refresh leaves in it. */
module ProviderCaches {
  import opened RegistrySpec

  /** What building a provider for an instance found out; file and key checks are not part of this model. */
  datatype Probe = Ready | KeyringNotIsolated | ConfigInvalid

  datatype Summary = Summary(
    name: string, enabled: bool, managed: bool, readOnly: bool, available: bool, errorCode: string)

  datatype Problem = CollidesWithStatic | KeyringProblem | ConfigProblem | StaticProblem(text: string)

  /** The cache as one value: entries, live providers, per-id problems, which ids are managed, and the tag. */
  datatype Cache = Cache(
    instances: map<string, Summary>, providers: set<string>, problems: map<string, Problem>,
    managedIDs: set<string>, generation: nat)

  function Enabled(row: ManagedInstance): bool {
    row.state == "paired_read_only" || row.state == "paired_write_enabled"
  }

  function ErrorCode(probe: Probe): string {
    match probe
    case Ready => ""
    case KeyringNotIsolated => "CONTROL_KEYRING_NOT_ISOLATED"
    case ConfigInvalid => "INSTANCE_CONFIG_INVALID"
  }

  function SummaryOf(row: ManagedInstance, probe: Probe): Summary {
    Summary(row.identity.name, Enabled(row), true, row.readOnly, probe == Ready, ErrorCode(probe))
  }

  /** The entry shows the row, whatever building its provider found out. */
  predicate Shows(entry: Summary, row: ManagedInstance) {
    entry == Summary(row.identity.name, Enabled(row), true, row.readOnly, entry.available, entry.errorCode)
  }

  /** The managed part of the cache is exactly the given rows that no static id hides. */
  ghost predicate Caches(c: Cache, rows: map<string, ManagedInstance>, staticIDs: set<string>) {
    && c.managedIDs == rows.Keys - staticIDs
    && (forall id :: id in c.managedIDs ==>
          && id in c.instances && Shows(c.instances[id], rows[id])
          && (id in c.providers <==> c.instances[id].available))
  }

  /** Everything the cache says about ids that are not managed. */
  ghost predicate SameUnmanaged(a: Cache, b: Cache) {
    forall id :: id !in a.managedIDs && id !in b.managedIDs ==>
      && (id in a.instances <==> id in b.instances)
      && (id in a.instances && id in b.instances ==> a.instances[id] == b.instances[id])
      && (id in a.providers <==> id in b.providers)
  }

  /** What one refresh with a generation and the rows it read may do to the cache. */
  ghost predicate Refills(a: Cache, b: Cache, generation: nat, rows: map<string, ManagedInstance>,
                          staticIDs: set<string>)
  {
    if generation == a.generation then b == a
    else b.generation == generation && Caches(b, rows, staticIDs) && SameUnmanaged(a, b)
  }

  /** Midway through a refill: the rows in done have been placed, over what clearing left. */
  ghost predicate Placed(c: Cache, cleared: Cache, rows: map<string, ManagedInstance>, probe: string -> Probe,
                         staticIDs: set<string>, done: set<string>)
  {
    && done <= rows.Keys && c.managedIDs == done - staticIDs
    && (forall id :: id !in c.managedIDs ==>
          && (id in c.instances <==> id in cleared.instances)
          && (id in c.instances ==> c.instances[id] == cleared.instances[id])
          && (id in c.providers <==> id in cleared.providers))
    && (forall id :: id in c.managedIDs ==>
          && id in c.instances && c.instances[id] == SummaryOf(rows[id], probe(id))
          && (id in c.providers <==> probe(id) == Ready)
          && (id in c.problems <==> probe(id) != Ready))
    && (forall id :: id in staticIDs && id in done ==>
          id in c.problems && c.problems[id] == CollidesWithStatic)
  }

  class ProviderCache {
    var instances: map<string, Summary>
    var providers: set<string>
    var providerErrs: map<string, Problem>
    var managedIDs: set<string>
    var registryGen: nat
    const staticIDs: set<string>

    ghost function Contents(): Cache
      reads this
    {
      Cache(instances, providers, providerErrs, managedIDs, registryGen)
    }

    ghost predicate Valid()
      reads this
    {
      && managedIDs !! staticIDs
      && instances.Keys == staticIDs + managedIDs
      && providers <= staticIDs + managedIDs
      && providerErrs.Keys <= staticIDs + managedIDs
    }

    constructor (static_: map<string, Summary>, live: set<string>, problems: map<string, Problem>)
      requires live <= static_.Keys && problems.Keys <= static_.Keys
      ensures Valid() && staticIDs == static_.Keys
      ensures Contents() == Cache(static_, live, problems, {}, 0)
    {
      instances, providers, providerErrs, managedIDs, registryGen := static_, live, problems, {}, 0;
      staticIDs := static_.Keys;
    }

    /** The first loop of the refill: forget every managed entry. */
    method Clear()
      modifies this
      ensures managedIDs == {} && registryGen == old(registryGen)
      ensures instances == old(instances) - old(managedIDs)
      ensures providers == old(providers) - old(managedIDs)
      ensures providerErrs == old(providerErrs) - old(managedIDs)
    {
      var rest := managedIDs;
      while rest != {}
        invariant rest <= managedIDs == old(managedIDs) && registryGen == old(registryGen)
        invariant instances == old(instances) - (managedIDs - rest)
        invariant providers == old(providers) - (managedIDs - rest)
        invariant providerErrs == old(providerErrs) - (managedIDs - rest)
        decreases rest
      {
        var id :| id in rest;
        instances, providers, providerErrs := instances - {id}, providers - {id}, providerErrs - {id};
        rest := rest - {id};
      }
      managedIDs := {};
    }

    /** One round of the second loop, for an id that no static instance hides. */
    method Install(id: string, row: ManagedInstance, probe: Probe)
      requires Valid() && id !in staticIDs && id !in managedIDs
      modifies this
      ensures Valid() && registryGen == old(registryGen) && managedIDs == old(managedIDs) + {id}
      ensures instances == old(instances)[id := SummaryOf(row, probe)]
      ensures providers == if probe == Ready then old(providers) + {id} else old(providers)
      ensures forall other :: other != id ==> (other in providerErrs <==> other in old(providerErrs))
      ensures forall other :: other in providerErrs && other != id ==> providerErrs[other] == old(providerErrs)[other]
      ensures id in providerErrs <==> probe != Ready
    {
      var summary := Summary(row.identity.name, Enabled(row), true, row.readOnly, false, "");
      managedIDs := managedIDs + {id};
      match probe {
        case KeyringNotIsolated =>
          providerErrs := providerErrs[id := KeyringProblem];
          summary := summary.(errorCode := "CONTROL_KEYRING_NOT_ISOLATED");
        case ConfigInvalid =>
          providerErrs := providerErrs[id := ConfigProblem];
          summary := summary.(errorCode := "INSTANCE_CONFIG_INVALID");
        case Ready =>
          providers := providers + {id};
          summary := summary.(available := true);
      }
      instances := instances[id := summary];
      assert instances.Keys == old(instances).Keys + {id};
    }

    /** One row: an id that a static instance has is reported, any other is installed. */
    method Place(id: string, row: ManagedInstance, probe: string -> Probe, ghost cleared: Cache,
                 ghost rows: map<string, ManagedInstance>, ghost done: set<string>)
      requires Valid() && id in rows && rows[id] == row && id !in done
      requires Placed(Contents(), cleared, rows, probe, staticIDs, done)
      modifies this
      ensures Valid() && registryGen == old(registryGen)
      ensures Placed(Contents(), cleared, rows, probe, staticIDs, done + {id})
    {
      if id in staticIDs {
        providerErrs := providerErrs[id := CollidesWithStatic];
      } else {
        Install(id, row, probe(id));
      }
    }

    /** The second loop of the refill. */
    method Refill(rows: map<string, ManagedInstance>, probe: string -> Probe)
      requires Valid() && managedIDs == {}
      modifies this
      ensures Valid() && registryGen == old(registryGen)
      ensures Placed(Contents(), old(Contents()), rows, probe, staticIDs, rows.Keys)
    {
      ghost var cleared := Contents();
      ghost var done: set<string> := {};
      var rest := rows.Keys;
      while rest != {}
        invariant done == rows.Keys - rest && rest <= rows.Keys
        invariant Valid() && registryGen == old(registryGen)
        invariant Placed(Contents(), cleared, rows, probe, staticIDs, done)
        decreases rest
      {
        var id :| id in rest;
        Place(id, rows[id], probe, cleared, rows, done);
        done, rest := done + {id}, rest - {id};
      }
      assert done == rows.Keys;
    }

    /** The tail of refreshManagedInstances, under the cache's mutex: nothing when the tag already
        matches, and otherwise a refill from the rows that were read. */
    method Apply(generation: nat, rows: map<string, ManagedInstance>, probe: string -> Probe)
      requires Valid()
      modifies this
      ensures Valid()
      ensures Refills(old(Contents()), Contents(), generation, rows, staticIDs)
      ensures generation != old(registryGen) ==>
        && (forall id :: id in managedIDs ==>
              && instances[id] ==
                   Summary(rows[id].identity.name,
                           rows[id].state == "paired_read_only" || rows[id].state == "paired_write_enabled",
                           true, rows[id].readOnly, probe(id) == Ready, ErrorCode(probe(id)))
              && (id in providerErrs <==> probe(id) != Ready))
        && (forall id :: id in staticIDs && id in rows ==>
              id in providerErrs && providerErrs[id] == CollidesWithStatic)
    {
      if generation == registryGen {
        return;
      }
      Clear();
      Refill(rows, probe);
      registryGen := generation;
    }
  }
}

/** Refreshers and registry writers interleaving: a refresher reads the generation, later the rows,
    and later still refills the cache; writers commit in between. */
module RefreshProtocol {
  import opened RegistrySpec
  import opened ProviderCaches

  datatype Refresher =
    | Idle
    | HasGeneration(generation: nat)
    | HasRows(generation: nat, rows: map<string, ManagedInstance>)

  datatype System = System(tables: Tables, cache: Cache, refreshers: seq<Refresher>, staticIDs: set<string>)

  ghost predicate Init(s: System) {
    && Inv(s.tables) && s.tables.generation >= 1
    && s.cache.generation == 0 && s.cache.managedIDs == {}
    && (forall i :: 0 <= i < |s.refreshers| ==> s.refreshers[i].Idle?)
  }

  ghost predicate WriterCommits(s: System, s': System) {
    s' == s.(tables := s'.tables) && Commits(s.tables, s'.tables)
  }

  ghost predicate ReadsGeneration(s: System, s': System, i: nat) {
    && i < |s.refreshers| && s.refreshers[i].Idle?
    && s' == s.(refreshers := s.refreshers[i := HasGeneration(s.tables.generation)])
  }

  ghost predicate ReadsRows(s: System, s': System, i: nat) {
    && i < |s.refreshers| && s.refreshers[i].HasGeneration?
    && s' == s.(refreshers := s.refreshers[i := HasRows(s.refreshers[i].generation, s.tables.managed)])
  }

  ghost predicate RefillsCache(s: System, s': System, i: nat) {
    && i < |s.refreshers| && s.refreshers[i].HasRows?
    && s' == s.(cache := s'.cache, refreshers := s.refreshers[i := Idle])
    && Refills(s.cache, s'.cache, s.refreshers[i].generation, s.refreshers[i].rows, s.staticIDs)
  }

  /** A read or a static export failed: the refresh returns its error and changes nothing. */
  ghost predicate GivesUp(s: System, s': System, i: nat) {
    && i < |s.refreshers|
    && s' == s.(refreshers := s.refreshers[i := Idle])
  }

  ghost predicate Next(s: System, s': System) {
    || WriterCommits(s, s')
    || exists i: nat ::
         ReadsGeneration(s, s', i) || ReadsRows(s, s', i) || RefillsCache(s, s', i) || GivesUp(s, s', i)
  }

  ghost predicate IsRun(run: seq<System>) {
    run != [] && Init(run[0]) && forall k :: 0 <= k < |run| - 1 ==> Next(run[k], run[k + 1])
  }

  /** What a refresher carries is no newer than the registry, and current if it is as new. */
  ghost predicate CarriesCurrent(r: Refresher, t: Tables) {
    match r
    case Idle => true
    case HasGeneration(g) => g <= t.generation
    case HasRows(g, rows) => g <= t.generation && (g == t.generation ==> rows == t.managed)
  }

  /** A tag equal to the registry's generation certifies the cached entries. */
  ghost predicate TagCertifies(s: System) {
    s.cache.generation == s.tables.generation ==> Caches(s.cache, s.tables.managed, s.staticIDs)
  }

  ghost predicate Good(s: System) {
    && Inv(s.tables) && s.tables.generation >= 1
    && (forall i :: 0 <= i < |s.refreshers| ==> CarriesCurrent(s.refreshers[i], s.tables))
    && s.cache.generation <= s.tables.generation
    && TagCertifies(s)
  }

  lemma StepStaysGood(s: System, s': System)
    requires Good(s) && Next(s, s')
    ensures Good(s')
  {
    if WriterCommits(s, s') {
      forall i | 0 <= i < |s'.refreshers|
        ensures CarriesCurrent(s'.refreshers[i], s'.tables)
      {
        assert CarriesCurrent(s.refreshers[i], s.tables);
      }
    } else {
      var i: nat :|
        ReadsGeneration(s, s', i) || ReadsRows(s, s', i) || RefillsCache(s, s', i) || GivesUp(s, s', i);
      assert CarriesCurrent(s.refreshers[i], s.tables);
    }
  }

  /** In every reachable state, whenever the cached tag equals the registry's generation, the cached
      managed entries are exactly the registry's current rows that no static id hides. */
  lemma {:induction false} TagAlwaysCertifies(run: seq<System>, k: nat)
    requires IsRun(run) && k < |run|
    ensures Good(run[k])
  {
    if k > 0 {
      TagAlwaysCertifies(run, k - 1);
      assert Next(run[k - 1], run[k - 1 + 1]);
      StepStaysGood(run[k - 1], run[k]);
    }
  }

  /** An undisturbed refresh leaves the cache certified. */
  lemma UndisturbedRefreshCatchesUp(s: System, s': System, i: nat)
    requires Good(s) && RefillsCache(s, s', i) && s.refreshers[i].generation == s.tables.generation
    ensures s'.cache.generation == s'.tables.generation
    ensures Caches(s'.cache, s'.tables.managed, s'.staticIDs)
  {
    assert Next(s, s');
    StepStaysGood(s, s');
  }

  /** Static entries come through every run untouched. */
  lemma {:induction false} StaticEntriesUntouched(run: seq<System>, k: nat, id: string)
    requires IsRun(run) && k < |run| && id in run[0].staticIDs
    ensures run[k].staticIDs == run[0].staticIDs && id !in run[k].cache.managedIDs
    ensures id in run[k].cache.instances <==> id in run[0].cache.instances
    ensures id in run[0].cache.instances ==> run[k].cache.instances[id] == run[0].cache.instances[id]
    ensures id in run[k].cache.providers <==> id in run[0].cache.providers
  {
    if k > 0 {
      StaticEntriesUntouched(run, k - 1, id);
      assert Next(run[k - 1], run[k - 1 + 1]);
    }
  }

  /** Reading the rows before the generation would not do: one commit in between leaves a cache whose
      tag is current and whose entries are not. */
  lemma RowsFirstWouldMislead(before: Tables, after: Tables, a: Cache, b: Cache, staticIDs: set<string>, m: string)
    requires Commits(before, after) && after != before && a.generation != after.generation
    requires m in after.managed && m !in before.managed && m !in staticIDs
    requires Refills(a, b, after.generation, before.managed, staticIDs)
    ensures b.generation == after.generation && !Caches(b, after.managed, staticIDs)
  {
  }
}

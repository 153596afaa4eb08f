/** The stored procedures of test_data.sql that maintain advisory_account_data, on tables updated in place. */
module AdvisoryDb {
  import opened Common
  import opened Keys
  import opened Tables
  import opened AdvisoryCache
  import opened AdvisoryRuns
  import opened SystemCounters

  datatype DbError = NegativeLimit | IntegerOutOfRange

  const MAX_INT := 0x7fff_ffff

  /** A row of current_counts or to_update_advisories. */
  datatype CountPair = CountPair(installable: int, applicable: int)

  // ----- The parts of the WITH statement of on_system_update, each over the table before the statement -----

  function ToUpdateAdvisories(cache: Cache, sa: AdvisoryTable, key: AccKey, change: int): map<AccKey, CountPair> {
    map k | k in cache && Links(sa, key, k) ::
      CountPair(cache[k].installable +
                (if sa[LinkKey(key.acc, key.id, k.id)] == INSTALLABLE_STATUS then change else 0),
                cache[k].applicable + change)
  }

  function UpdatedRows(cache: Cache, toUpdate: map<AccKey, CountPair>): Cache {
    map k | k in toUpdate && k in cache && (toUpdate[k].installable > 0 || toUpdate[k].applicable > 0) ::
      cache[k].(installable := toUpdate[k].installable, applicable := toUpdate[k].applicable)
  }

  function DeletedRows(toUpdate: map<AccKey, CountPair>): set<AccKey> {
    set k | k in toUpdate && toUpdate[k].installable <= 0 && toUpdate[k].applicable <= 0
  }

  function InsertedRows(sa: AdvisoryTable, key: AccKey, change: int, toUpdate: map<AccKey,
                        CountPair>): map<AccKey, CountPair> {
    map k | k in ListedBy(sa, key) && Links(sa, key, k) && change > 0 && k !in toUpdate ::
      CountPair(if sa[LinkKey(key.acc, key.id, k.id)] == INSTALLABLE_STATUS then 1 else 0, 1)
  }

  /** INSERT .. ON CONFLICT DO UPDATE, adding to the counts of a row that is already there. */
  function InsertOrAdd(cache: Cache, inserts: map<AccKey, CountPair>): Cache {
    cache + map k | k in inserts ::
      if k in cache then
        cache[k].(installable := cache[k].installable + inserts[k].installable,
                  applicable := cache[k].applicable + inserts[k].applicable)
      else Row(inserts[k].installable, inserts[k].applicable, None)
  }

  /** The table after the three data-modifying parts. */
  function AfterStatement(cache: Cache, sa: AdvisoryTable, key: AccKey, change: int): Cache {
    var toUpdate := ToUpdateAdvisories(cache, sa, key, change);
    InsertOrAdd((cache + UpdatedRows(cache, toUpdate)) - DeletedRows(toUpdate),
                InsertedRows(sa, key, change, toUpdate))
  }

  lemma StatementTargets(cache: Cache, sa: AdvisoryTable, key: AccKey, change: int, k: AccKey)
    ensures var toUpdate := ToUpdateAdvisories(cache, sa, key, change);
            && (k in toUpdate <==> k in cache && Links(sa, key, k))
            && (k in InsertedRows(sa, key, change, toUpdate) <==> change > 0 && k !in cache && Links(sa, key, k))
  {
  }

  lemma AfterStatementAt(cache: Cache, sa: AdvisoryTable, key: AccKey, change: int, k: AccKey)
    requires change == 1 || change == -1
    ensures Lookup(AfterStatement(cache, sa, key, change), k) == RowAfter(cache, sa, key, change, k)
  {
    var toUpdate := ToUpdateAdvisories(cache, sa, key, change);
    StatementTargets(cache, sa, key, change, k);
    var kept := (cache + UpdatedRows(cache, toUpdate)) - DeletedRows(toUpdate);
    if !Links(sa, key, k) {
      assert Lookup(kept, k) == Lookup(cache, k);
    } else if k in cache {
      assert Lookup(kept, k) == RowAfter(cache, sa, key, change, k);
    } else {
      assert k !in kept;
    }
  }

  /** The statement has the row-wise effect of the trigger. */
  lemma StatementIsTrigger(cache: Cache, sa: AdvisoryTable, key: AccKey, change: int)
    requires change == 1 || change == -1
    ensures AfterStatement(cache, sa, key, change) == AfterTrigger(cache, sa, key, change)
  {
    forall k
      ensures Lookup(AfterStatement(cache, sa, key, change), k) == Lookup(AfterTrigger(cache, sa, key, change), k)
    {
      AfterTriggerAt(cache, sa, key, change, k);
      AfterStatementAt(cache, sa, key, change, k);
    }
    SameMap(AfterStatement(cache, sa, key, change), AfterTrigger(cache, sa, key, change));
  }

  class ContentTables {
    var systems: SystemTable
    var advisories: AdvisoryTable
    var repos: set<LinkKey>
    var packages: set<LinkKey>
    var packages2: set<LinkKey>
    var metadata: Metadata
    var cache: Cache

    ghost predicate CacheIsExact()
      reads this
    {
      Exact(cache, advisories, Counted(systems))
    }

    /** on_system_update, fired after the row of `key` went from `old_` to `new_`. */
    method OnSystemUpdate(key: AccKey, old_: System, new_: System)
      modifies this`cache
      ensures cache == AfterUpdate(old(cache), advisories, key, old_, new_)
    {
      NoChangeIsIdentity(cache, advisories, key);
      if !new_.Evaluated() {
        return;
      }
      var wasCounted := !old_.stale;
      var shouldCount := !new_.stale;
      var change: int;
      if wasCounted && !shouldCount {
        change := -1;
      } else if !wasCounted && shouldCount {
        change := 1;
      } else {
        return;
      }
      StatementIsTrigger(cache, advisories, key, change);
      var toUpdate := ToUpdateAdvisories(cache, advisories, key, change);
      var updates := UpdatedRows(cache, toUpdate);
      var deletes := DeletedRows(toUpdate);
      var inserts := InsertedRows(advisories, key, change, toUpdate);
      cache := (cache + updates) - deletes;
      cache := InsertOrAdd(cache, inserts);
    }

    /** An UPDATE of one row of system_platform, with its trigger. */
    method UpdateSystem(key: AccKey, row: System)
      modifies this`systems, this`cache
      ensures systems == SystemsStep(old(systems), Update(key, row))
      ensures cache == CacheStep(old(systems), old(cache), advisories, Update(key, row))
      ensures old(CacheIsExact()) && key in old(systems) ==>
              (CacheIsExact() <==> TriggerApplies(old(cache), advisories, key, old(systems)[key], row))
    {
      if key in systems {
        if Exact(cache, advisories, Counted(systems)) {
          UpdateKeepsExactIff(cache, advisories, systems, key, row);
        }
        var before := systems[key];
        systems := systems[key := row];
        OnSystemUpdate(key, before, row);
      }
    }

    /** The CTE current_counts: the filtered join, grouped by advisory and account. */
    method CurrentCounts(scope: Scope) returns (counts: map<AccKey, CountPair>)
      ensures forall k :: k in counts <==> scope.Covers(k) && Affected(advisories, Counted(systems), k) != {}
      ensures forall k | k in counts ::
                counts[k] == CountPair(|AffectedInstallable(advisories, Counted(systems), k)|,
                                       |Affected(advisories, Counted(systems), k)|)
    {
      var counted := Counted(systems);
      var joined := set l | l in advisories && SystemOf(l) in counted && scope.Covers(ItemOf(l));
      var groups := set l | l in joined :: ItemOf(l);
      counts := map k | k in groups ::
        CountPair(|set l | l in joined && ItemOf(l) == k && advisories[l] == INSTALLABLE_STATUS|,
                  |set l | l in joined && ItemOf(l) == k|);
      forall k ensures k in groups <==> scope.Covers(k) && Affected(advisories, counted, k) != {} {
        RefreshedGroup(joined, counted, scope, k);
      }
      forall k | k in groups
        ensures counts[k] == CountPair(|AffectedInstallable(advisories, counted, k)|,
                                       |Affected(advisories, counted, k)|)
      {
        RefreshedGroup(joined, counted, scope, k);
      }
    }

    /** The group of `k` in the filtered join holds one row for each affected system. */
    lemma RefreshedGroup(joined: set<LinkKey>, counted: set<AccKey>, scope: Scope, k: AccKey)
      requires joined == set l | l in advisories && SystemOf(l) in counted && scope.Covers(ItemOf(l))
      ensures scope.Covers(k) ==>
                && |set l | l in joined && ItemOf(l) == k| == |Affected(advisories, counted, k)|
                && |set l | l in joined && ItemOf(l) == k && advisories[l] == INSTALLABLE_STATUS| ==
                   |AffectedInstallable(advisories, counted, k)|
      ensures (exists l :: l in joined && ItemOf(l) == k) <==> scope.Covers(k) && Affected(advisories, counted, k) != {}
    {
      if scope.Covers(k) {
        GroupRowsCountSystems(advisories, counted, k);
        assert (set l | l in joined && ItemOf(l) == k) == GroupRows(advisories, counted, k);
        assert (set l | l in joined && ItemOf(l) == k && advisories[l] == INSTALLABLE_STATUS) ==
               GroupRowsInstallable(advisories, counted, k);
        if s :| s in Affected(advisories, counted, k) {
          var l := LinkKey(s.acc, s.id, k.id);
          assert l in joined && ItemOf(l) == k;
        }
        if l :| l in joined && ItemOf(l) == k {
          assert SystemOf(l) in Affected(advisories, counted, k);
        }
      }
    }

    /** refresh_advisory_caches_multi */
    method RefreshAdvisoryCachesMulti(advisoryIds: Option<set<int>>, account: Option<int>)
      modifies this`cache
      ensures cache == Refreshed(old(cache), advisories, Counted(systems), Scope(advisoryIds, account))
      ensures forall k | Scope(advisoryIds, account).Covers(k) :: ExactAt(cache, advisories, Counted(systems), k)
    {
      var scope := Scope(advisoryIds, account);
      ghost var counted := Counted(systems);
      var currentCounts := CurrentCounts(scope);
      var upserts := map k | k in currentCounts ::
        if k in cache then  // ON CONFLICT DO UPDATE
          cache[k].(installable := currentCounts[k].installable, applicable := currentCounts[k].applicable)
        else Row(currentCounts[k].installable, currentCounts[k].applicable, None);
      var deletes := set k | k in cache && k !in currentCounts && scope.Covers(k);
      cache := (cache + upserts) - deletes;
      forall k
        ensures Lookup(cache, k) == Lookup(Refreshed(old(cache), advisories, counted, scope), k)
        ensures scope.Covers(k) ==> ExactAt(Refreshed(old(cache), advisories, counted, scope), advisories, counted, k)
      {
        RefreshedAt(old(cache), advisories, counted, scope, k);
        RefreshMakesScopeExact(old(cache), advisories, counted, scope, k);
      }
      SameMap(cache, Refreshed(old(cache), advisories, counted, scope));
    }

    /** refresh_advisory_caches */
    method RefreshAdvisoryCaches(advisoryId: Option<int>, account: Option<int>)
      modifies this`cache
      ensures cache == Refreshed(old(cache), advisories, Counted(systems),
                                 Scope(if advisoryId.Some? then Some({advisoryId.value}) else None, account))
    {
      if advisoryId.Some? {
        RefreshAdvisoryCachesMulti(Some({advisoryId.value}), account);
      } else {
        RefreshAdvisoryCachesMulti(None, account);
      }
    }

    /** The CTE system_advisories_count: two left joins, grouped by system; installable counters first. */
    method SystemAdvisoriesCount(systemId: Option<int>, account: Option<int>)
      returns (counts: map<AccKey, (Counters, Counters)>)
      ensures counts.Keys == Refreshable(systems, systemId, account)
      ensures AreCounters(counts, advisories, metadata)
    {
      var scope := Refreshable(systems, systemId, account);
      var rows := CounterRows(scope, advisories, metadata);
      var groups := set r | r in rows :: r.asp;
      counts := map s | s in groups ::
        (GroupCounters(rows, advisories, metadata, s, true), GroupCounters(rows, advisories, metadata, s, false));
      forall s ensures s in groups <==> s in scope {
        EverySystemIsGrouped(scope, advisories, metadata, s);
      }
      forall s | s in scope
        ensures counts[s] == (CountersFor(InstallableLinks(advisories, s), metadata),
                              CountersFor(ApplicableLinks(advisories, s), metadata))
      {
        GroupsAreCounters(scope, advisories, metadata, s);
      }
    }

    /** refresh_system_caches; the UPDATE fires the trigger for every row, which then sees no change. */
    method RefreshSystemCaches(systemId: Option<int>, account: Option<int>) returns (rowCount: int)
      modifies this`systems, this`cache
      ensures systems == WithCounters(old(systems), advisories, metadata, systemId, account)
      ensures rowCount == |Refreshable(old(systems), systemId, account)|
      ensures cache == old(cache)
      ensures Counted(systems) == Counted(old(systems))
    {
      var counts := SystemAdvisoriesCount(systemId, account);
      var before, updated := systems, counts.Keys;
      var after := WithGroups(before, counts);
      GroupsGiveCounters(before, advisories, metadata, systemId, account, counts);
      CountersKeepCounted(before, advisories, metadata, systemId, account);
      systems := after;
      rowCount := |updated|;
      ghost var sa, meta := advisories, metadata;
      FireWithoutChange(before, after, updated);
      assert advisories == sa && metadata == meta && systems == after;
    }

    /** Row triggers of an UPDATE that leaves `stale` alone. */
    method FireWithoutChange(before: SystemTable, after: SystemTable, updated: set<AccKey>)
      requires SameStale(before, after) && updated <= before.Keys
      modifies this`cache
      ensures cache == old(cache)
    {
      var pending := updated;
      while pending != {}
        invariant pending <= updated
        invariant cache == old(cache)
        decreases pending
      {
        var s :| s in pending;
        NoChangeIsIdentity(cache, advisories, s);
        OnSystemUpdate(s, before[s], after[s]);
        pending := pending - {s};
      }
    }

    /** refresh_all_cached_counts */
    method RefreshAllCachedCounts()
      modifies this`systems, this`cache
      ensures systems == WithCounters(old(systems), advisories, metadata, None, None)
      ensures cache == Refreshed(old(cache), advisories, Counted(systems), EVERYTHING)
      ensures CacheIsExact()
      ensures forall account ::
                && Sums.Sum(ApplicableByAdvisory(cache, account)) == Sums.Sum(ApplicableBySystem(systems, account))
                && Sums.Sum(InstallableByAdvisory(cache, account)) == Sums.Sum(InstallableBySystem(systems, account))
    {
      var _ := RefreshSystemCaches(None, None);
      RefreshAdvisoryCaches(None, None);
      forall account
        ensures && Sums.Sum(ApplicableByAdvisory(cache, account)) == Sums.Sum(ApplicableBySystem(systems, account))
                && Sums.Sum(InstallableByAdvisory(cache, account)) == Sums.Sum(InstallableBySystem(systems, account))
      {
        RefreshAllBalances(old(systems), old(cache), advisories, metadata, account);
      }
      ExactIffRefreshIsIdentity(cache, advisories, Counted(systems));
      forall k ensures ExactAt(cache, advisories, Counted(systems), k) {
        RefreshMakesScopeExact(old(cache), advisories, Counted(systems), EVERYTHING, k);
      }
    }

    /** mark_stale_systems; `limit` None is LIMIT NULL. The triggers run in an order of their own choice. */
    method MarkStaleSystems(limit: Option<int>, now: int) returns (r: Result<int, DbError>)
      modifies this`systems, this`cache
      ensures r.Err? <==> limit.Some? && limit.value < 0
      ensures r.Err? ==> r.error == NegativeLimit && systems == old(systems) && cache == old(cache)
      ensures r.Ok? ==>
                var n := if limit.Some? then limit.value else |Overdue(old(systems), now)|;
                var batch := FirstN(Overdue(old(systems), now), n);
                && r.value == |batch|
                && systems == MarkStale(old(systems), batch)
                && cache == UncountAll(old(cache), advisories, batch * Counted(old(systems)))
      ensures old(CacheIsExact()) ==> CacheIsExact()
    {
      if limit.Some? && limit.value < 0 {
        return Err(NegativeLimit);
      }
      var overdue := Overdue(systems, now);
      var n := if limit.Some? then limit.value else |overdue|;
      var ids := SelectFirst(overdue, n);
      var before := systems;
      systems := map s | s in before :: if s in ids then before[s].(stale := true) else before[s];
      FireForEach(before, ids);
      r := Ok(|ids|);
      if Exact(old(cache), advisories, Counted(before)) {
        BatchKeepsExact(old(cache), advisories, Counted(before), ids * Counted(before));
        CountedAfterMark(before, ids);
        assert Counted(before) - ids * Counted(before) == Counted(before) - ids;
      }
    }

    /** The row triggers of one UPDATE, fired after all its rows have changed. */
    method FireForEach(before: SystemTable, ids: set<AccKey>)
      requires ids <= before.Keys && systems == MarkStale(before, ids)
      requires forall s | s in ids :: !before[s].stale
      modifies this`cache
      ensures cache == UncountAll(old(cache), advisories, ids * Counted(before))
    {
      var pending := ids;
      ghost var counted := Counted(before);
      UncountNothing(cache, advisories);
      assert (ids - pending) * counted == {};
      while pending != {}
        invariant pending <= ids
        invariant cache == UncountAll(old(cache), advisories, (ids - pending) * counted)
        decreases pending
      {
        var s :| s in pending;
        FireOne(old(cache), s, (ids - pending) * counted, before[s]);
        OnSystemUpdate(s, before[s], systems[s]);
        assert (ids - (pending - {s})) * counted ==
               (ids - pending) * counted + (if s in counted then {s} else {});
        pending := pending - {s};
      }
      assert (ids - pending) * counted == ids * counted;
    }

    /** One trigger of the batch uncounts its system if it was counted. */
    lemma FireOne(start: Cache, s: AccKey, done: set<AccKey>, row: System)
      requires s !in done && !row.stale
      ensures AfterUpdate(UncountAll(start, advisories, done), advisories, s, row, row.(stale := true)) ==
              UncountAll(start, advisories, done + if row.IsCounted() then {s} else {})
    {
      var cache := UncountAll(start, advisories, done);
      if row.IsCounted() {
        TriggerIsSingletonBatch(cache, advisories, s);
        BatchesCompose(start, advisories, done, {s});
      } else {
        NoChangeIsIdentity(cache, advisories, s);
        assert done + {} == done;
      }
    }

    /** No row of any other table refers to system `s`. */
    ghost predicate Unreferenced(s: AccKey)
      reads this
    {
      && (forall l | l in advisories :: SystemOf(l) != s)
      && (forall l | l in repos :: SystemOf(l) != s)
      && (forall l | l in packages :: SystemOf(l) != s)
      && (forall l | l in packages2 :: SystemOf(l) != s)
    }

    /** The body of delete_system once the row is found. */
    method RemoveSystem(s: AccKey)
      requires s in systems
      modifies this
      ensures systems == old(systems) - {s}
      ensures Unreferenced(s)
      ensures advisories == WithoutSystem(old(advisories), s)
      ensures repos == WithoutLinks(old(repos), s)
      ensures packages == WithoutLinks(old(packages), s)
      ensures packages2 == WithoutLinks(old(packages2), s)
      ensures forall l :: Lookup(advisories, l) ==
                          if l.acc == s.acc && l.system == s.id then None else Lookup(old(advisories), l)
      ensures forall l :: l in repos <==> l in old(repos) && !(l.acc == s.acc && l.system == s.id)
      ensures forall l :: l in packages <==> l in old(packages) && !(l.acc == s.acc && l.system == s.id)
      ensures forall l :: l in packages2 <==> l in old(packages2) && !(l.acc == s.acc && l.system == s.id)
      ensures cache == AfterUpdate(old(cache), old(advisories), s, old(systems)[s], old(systems)[s].(stale := true))
      ensures metadata == old(metadata)
      ensures old(CacheIsExact()) ==> CacheIsExact()
    {
      if Exact(cache, advisories, Counted(systems)) {
        DeleteKeepsExact(systems, cache, advisories, s);
      }
      var stale := systems[s].(stale := true);
      var before := systems[s];
      systems := systems[s := stale];
      OnSystemUpdate(s, before, stale);
      advisories := WithoutSystem(advisories, s);
      repos := WithoutLinks(repos, s);
      packages := WithoutLinks(packages, s);
      packages2 := WithoutLinks(packages2, s);
      systems := systems - {s};
      assert systems == old(systems) - {s};
    }

    /**
     delete_system. The inventory id is unique only within an account and the SELECT has no ORDER BY,
     so any matching row may be the one that goes. Its id is read into an INT.
     */
    method DeleteSystem(inventoryId: string) returns (r: Result<seq<string>, DbError>)
      modifies this
      ensures r == Ok([]) <==> forall s | s in old(systems) :: old(systems)[s].inventoryId != inventoryId
      ensures r.Err? || r == Ok([]) ==>
                && systems == old(systems) && advisories == old(advisories) && repos == old(repos)
                && packages == old(packages) && packages2 == old(packages2) && cache == old(cache)
      ensures r.Err? ==>
                && r.error == IntegerOutOfRange
                && exists s :: s in old(systems) && old(systems)[s].inventoryId == inventoryId &&
                               !(-MAX_INT - 1 <= s.id <= MAX_INT)
      ensures r.Ok? && r.value != [] ==>
                && r.value == [inventoryId]
                && exists s :: && s in old(systems) && old(systems)[s].inventoryId == inventoryId
                               && systems == old(systems) - {s}
                               && Unreferenced(s)
                               && advisories == WithoutSystem(old(advisories), s)
                               && repos == WithoutLinks(old(repos), s)
                               && packages == WithoutLinks(old(packages), s)
                               && packages2 == WithoutLinks(old(packages2), s)
                               && (forall l :: Lookup(advisories, l) ==
                                               if l.acc == s.acc && l.system == s.id then None
                                               else Lookup(old(advisories), l))
                               && (forall l :: l in repos <==>
                                               l in old(repos) && !(l.acc == s.acc && l.system == s.id))
                               && (forall l :: l in packages <==>
                                               l in old(packages) && !(l.acc == s.acc && l.system == s.id))
                               && (forall l :: l in packages2 <==>
                                               l in old(packages2) && !(l.acc == s.acc && l.system == s.id))
                               && cache == AfterUpdate(old(cache), old(advisories), s, old(systems)[s],
                                                       old(systems)[s].(stale := true))
      ensures metadata == old(metadata)
      ensures old(CacheIsExact()) ==> CacheIsExact()
    {
      var matches := set s | s in systems && systems[s].inventoryId == inventoryId;
      if matches == {} {
        assert forall s | s in systems :: systems[s].inventoryId == inventoryId ==> s in matches;
        return Ok([]);
      }
      var s :| s in matches;
      if !(-MAX_INT - 1 <= s.id <= MAX_INT) {
        return Err(IntegerOutOfRange);
      }
      RemoveSystem(s);
      r := Ok([inventoryId]);
    }
  }
}

/**
 The per-system advisory counters written by refresh_system_caches, and the double-counting law
 that ties them to the per-advisory counters of advisory_account_data.
 */
module SystemCounters {
  import opened Common
  import opened Keys
  import opened Sums
  import opened Tables
  import opened AdvisoryCache
  import opened AdvisoryRuns

  /** advisory_metadata: advisory id to advisory_type_id. */
  type Metadata = map<int, int>

  const ENHANCEMENT := 1
  const BUGFIX := 2
  const SECURITY := 3

  function ApplicableLinks(sa: AdvisoryTable, s: AccKey): set<LinkKey> {
    set l | l in sa && SystemOf(l) == s
  }

  function InstallableLinks(sa: AdvisoryTable, s: AccKey): set<LinkKey> {
    set l | l in sa && SystemOf(l) == s && sa[l] == INSTALLABLE_STATUS
  }

  function OfType(ls: set<LinkKey>, meta: Metadata, advisoryType: int): set<LinkKey> {
    set l | l in ls && l.item in meta && meta[l.item] == advisoryType
  }

  function CountersFor(ls: set<LinkKey>, meta: Metadata): Counters {
    Counters(|ls|, |OfType(ls, meta, ENHANCEMENT)|, |OfType(ls, meta, BUGFIX)|, |OfType(ls, meta, SECURITY)|)
  }

  predicate InScope(s: AccKey, systemId: Option<int>, account: Option<int>) {
    (systemId.Some? ==> s.id == systemId.value) && (account.Some? ==> s.acc == account.value)
  }

  /** The rows that refresh_system_caches updates. */
  function Refreshable(systems: SystemTable, systemId: Option<int>, account: Option<int>): set<AccKey> {
    set s | s in systems && InScope(s, systemId, account)
  }

  function WithCounters(systems: SystemTable, sa: AdvisoryTable, meta: Metadata, systemId: Option<int>,
                        account: Option<int>): SystemTable {
    map s | s in systems ::
      if InScope(s, systemId, account) then
        systems[s].(installable := CountersFor(InstallableLinks(sa, s), meta),
                    applicable := CountersFor(ApplicableLinks(sa, s), meta))
      else systems[s]
  }

  /**
   The counters in terms of the tables: a system in scope gets the number of its advisories, and of
   those whose metadata has type 1, 2 and 3, once for those with status 0 and once for all; nothing
   else on its row changes, and no other row does.
   */
  lemma CountersFromTables(systems: SystemTable, sa: AdvisoryTable, meta: Metadata, systemId: Option<int>,
                           account: Option<int>, s: AccKey)
    requires s in systems
    ensures var all := set l | l in sa && l.acc == s.acc && l.system == s.id;
            var installable := set l | l in all && sa[l] == 0;
            var after := WithCounters(systems, sa, meta, systemId, account);
            && after.Keys == systems.Keys
            && after[s] ==
               if (systemId.Some? && s.id != systemId.value) || (account.Some? && s.acc != account.value) then
                 systems[s]
               else
                 systems[s].(
                 installable := Counters(|installable|,
                                         |set l | l in installable && l.item in meta && meta[l.item] == 1|,
                                         |set l | l in installable && l.item in meta && meta[l.item] == 2|,
                                         |set l | l in installable && l.item in meta && meta[l.item] == 3|),
                 applicable := Counters(|all|,
                                        |set l | l in all && l.item in meta && meta[l.item] == 1|,
                                        |set l | l in all && l.item in meta && meta[l.item] == 2|,
                                        |set l | l in all && l.item in meta && meta[l.item] == 3|))
  {
    var all := set l | l in sa && l.acc == s.acc && l.system == s.id;
    assert all == ApplicableLinks(sa, s);
    assert (set l | l in all && sa[l] == 0) == InstallableLinks(sa, s);
  }

  // ----- The CTE system_advisories_count -----

  /** A row of `system_platform LEFT JOIN system_advisories LEFT JOIN advisory_metadata`; None is an unmatched side. */
  datatype CounterRow = CounterRow(asp: AccKey, sa: Option<LinkKey>, am: Option<int>)

  function AdvisoryJoin(scope: set<AccKey>, sa: AdvisoryTable): set<(AccKey, Option<LinkKey>)> {
    (set s, l | s in scope && l in sa && SystemOf(l) == s :: (s, Some(l))) +
    (set s | s in scope && forall l | l in sa :: SystemOf(l) != s :: (s, None))
  }

  function MetadataJoin(rows: set<(AccKey, Option<LinkKey>)>, meta: Metadata): set<CounterRow> {
    (set r, a | r in rows && a in meta && r.1 != None && r.1.value.item == a :: CounterRow(r.0, r.1, Some(a))) +
    (set r | r in rows && (r.1 == None || r.1.value.item !in meta) :: CounterRow(r.0, r.1, None))
  }

  function CounterRows(scope: set<AccKey>, sa: AdvisoryTable, meta: Metadata): set<CounterRow> {
    MetadataJoin(AdvisoryJoin(scope, sa), meta)
  }

  /** `COUNT(advisory_id) FILTER (WHERE ...)`, with or without `status_id = 0` and with or without a type. */
  function Passing(rows: set<CounterRow>, sa: AdvisoryTable, meta: Metadata, s: AccKey, installable: bool,
                   advisoryType: Option<int>): set<CounterRow> {
    set r | && r in rows && r.asp == s && r.sa.Some?
            && (installable ==> r.sa.value in sa && sa[r.sa.value] == INSTALLABLE_STATUS)
            && (advisoryType.Some? ==> r.am.Some? && r.am.value in meta && meta[r.am.value] == advisoryType.value)
  }

  function GroupCounters(rows: set<CounterRow>, sa: AdvisoryTable, meta: Metadata, s: AccKey,
                         installable: bool): Counters {
    Counters(|Passing(rows, sa, meta, s, installable, None)|,
             |Passing(rows, sa, meta, s, installable, Some(ENHANCEMENT))|,
             |Passing(rows, sa, meta, s, installable, Some(BUGFIX))|,
             |Passing(rows, sa, meta, s, installable, Some(SECURITY))|)
  }

  /** The left joins keep every system in scope, those without an advisory included. */
  lemma EverySystemIsGrouped(scope: set<AccKey>, sa: AdvisoryTable, meta: Metadata, s: AccKey)
    ensures (exists r :: r in CounterRows(scope, sa, meta) && r.asp == s) <==> s in scope
  {
    if s in scope {
      var link: Option<LinkKey> := None;
      if l :| l in sa && SystemOf(l) == s {
        link := Some(l);
      }
      assert (s, link) in AdvisoryJoin(scope, sa);
      var am := if link.Some? && link.value.item in meta then Some(link.value.item) else None;
      assert CounterRow(s, link, am) in CounterRows(scope, sa, meta);
    }
  }

  function LinksPassing(sa: AdvisoryTable, meta: Metadata, s: AccKey, installable: bool,
                        advisoryType: Option<int>): set<LinkKey> {
    var ls := if installable then InstallableLinks(sa, s) else ApplicableLinks(sa, s);
    if advisoryType.None? then ls else OfType(ls, meta, advisoryType.value)
  }

  /** A metadata id is a key, so the second join repeats no link of a system. */
  lemma PassingCountsLinks(scope: set<AccKey>, sa: AdvisoryTable, meta: Metadata, s: AccKey, installable: bool,
                           advisoryType: Option<int>)
    requires s in scope
    ensures |Passing(CounterRows(scope, sa, meta), sa, meta, s, installable, advisoryType)| ==
            |LinksPassing(sa, meta, s, installable, advisoryType)|
  {
    var rows := Passing(CounterRows(scope, sa, meta), sa, meta, s, installable, advisoryType);
    var links := LinksPassing(sa, meta, s, installable, advisoryType);
    var rowOf := (l: LinkKey) => CounterRow(SystemOf(l), Some(l), if l.item in meta then Some(l.item) else None);
    forall l | l in links ensures rowOf(l) in rows {
      assert (s, Some(l)) in AdvisoryJoin(scope, sa);
    }
    forall r | r in rows ensures exists l :: l in links && rowOf(l) == r {
      assert r.sa.value in links && rowOf(r.sa.value) == r;
    }
    Bijection(links, rows, rowOf);
  }

  /** The grouped join has one group for each system in scope, with its counters. */
  lemma GroupsAreCounters(scope: set<AccKey>, sa: AdvisoryTable, meta: Metadata, s: AccKey)
    requires s in scope
    ensures var rows := CounterRows(scope, sa, meta);
            && GroupCounters(rows, sa, meta, s, true) == CountersFor(InstallableLinks(sa, s), meta)
            && GroupCounters(rows, sa, meta, s, false) == CountersFor(ApplicableLinks(sa, s), meta)
  {
    forall installable, advisoryType
      ensures |Passing(CounterRows(scope, sa, meta), sa, meta, s, installable, advisoryType)| ==
              |LinksPassing(sa, meta, s, installable, advisoryType)|
    {
      PassingCountsLinks(scope, sa, meta, s, installable, advisoryType);
    }
  }

  /** The UPDATE joined with the grouped counters, installable ones first. */
  function WithGroups(systems: SystemTable, counts: map<AccKey, (Counters, Counters)>): SystemTable {
    map s | s in systems ::
      if s in counts then systems[s].(installable := counts[s].0, applicable := counts[s].1) else systems[s]
  }

  ghost predicate AreCounters(counts: map<AccKey, (Counters, Counters)>, sa: AdvisoryTable, meta: Metadata) {
    forall s | s in counts ::
      counts[s] == (CountersFor(InstallableLinks(sa, s), meta), CountersFor(ApplicableLinks(sa, s), meta))
  }

  lemma GroupsGiveCounters(systems: SystemTable, sa: AdvisoryTable, meta: Metadata, systemId: Option<int>,
                           account: Option<int>, counts: map<AccKey, (Counters, Counters)>)
    requires counts.Keys == Refreshable(systems, systemId, account) && AreCounters(counts, sa, meta)
    ensures WithGroups(systems, counts) == WithCounters(systems, sa, meta, systemId, account)
  {
    forall s ensures Lookup(WithGroups(systems, counts), s) ==
                     Lookup(WithCounters(systems, sa, meta, systemId, account), s)
    {
      assert s in systems && InScope(s, systemId, account) <==> s in counts;
    }
    SameMap(WithGroups(systems, counts), WithCounters(systems, sa, meta, systemId, account));
  }

  predicate SameStale(before: SystemTable, after: SystemTable) {
    before.Keys == after.Keys && forall s | s in before :: before[s].stale == after[s].stale
  }

  /** Refreshing the counters changes no column that decides whether a system is counted. */
  lemma CountersKeepCounted(systems: SystemTable, sa: AdvisoryTable, meta: Metadata, systemId: Option<int>,
                            account: Option<int>)
    ensures Counted(WithCounters(systems, sa, meta, systemId, account)) == Counted(systems)
    ensures SameStale(systems, WithCounters(systems, sa, meta, systemId, account))
  {
  }

  /** The typed counters never exceed the total, and add up to it iff every advisory has one of the three types. */
  lemma TypedCountersPartitionTotal(ls: set<LinkKey>, meta: Metadata)
    ensures var c := CountersFor(ls, meta);
            && c.enhancement + c.bugfix + c.security <= c.total
            && (c.enhancement + c.bugfix + c.security == c.total <==>
                forall l | l in ls :: l.item in meta && meta[l.item] in {ENHANCEMENT, BUGFIX, SECURITY})
  {
    var e, b, s := OfType(ls, meta, ENHANCEMENT), OfType(ls, meta, BUGFIX), OfType(ls, meta, SECURITY);
    assert e !! b && e !! s && b !! s;
    ThreeParts(ls, e, b, s);
    assert (forall l | l in ls :: l.item in meta && meta[l.item] in {ENHANCEMENT, BUGFIX, SECURITY}) <==>
           ls <= e + b + s;
  }

  lemma ThreeParts<T>(all: set<T>, a: set<T>, b: set<T>, c: set<T>)
    requires a <= all && b <= all && c <= all
    requires a !! b && a !! c && b !! c
    ensures |a| + |b| + |c| <= |all|
    ensures |a| + |b| + |c| == |all| <==> all <= a + b + c
  {
    var ab := a + b;
    var abc := ab + c;
    var rest := all - abc;
    assert |ab| == |a| + |b|;
    assert |abc| == |ab| + |c|;
    assert all == abc + rest && abc !! rest;
    assert |all| == |abc| + |rest|;
    assert rest == {} <==> all <= abc;
  }

  /** The counter cells of one account in the advisory cache. */
  ghost function ApplicableByAdvisory(cache: Cache, account: int): map<AccKey, int> {
    map k | k in cache && k.acc == account :: cache[k].applicable
  }

  ghost function InstallableByAdvisory(cache: Cache, account: int): map<AccKey, int> {
    map k | k in cache && k.acc == account :: cache[k].installable
  }

  /** The counter cells of the evaluated, non-stale systems of one account. */
  ghost function ApplicableBySystem(systems: SystemTable, account: int): map<AccKey, int> {
    map s | s in systems && s.acc == account && systems[s].IsCounted() :: systems[s].applicable.total
  }

  ghost function InstallableBySystem(systems: SystemTable, account: int): map<AccKey, int> {
    map s | s in systems && s.acc == account && systems[s].IsCounted() :: systems[s].installable.total
  }

  /** A set of system_advisories rows, counted by advisory and by system. */
  lemma CountTwoWays(ps: set<LinkKey>, advisories: set<AccKey>, systems: set<AccKey>)
    requires forall l | l in ps :: ItemOf(l) in advisories && SystemOf(l) in systems
    ensures Sum(FiberSizes(ps, ItemOf, advisories)) == Sum(FiberSizes(ps, SystemOf, systems))
  {
    SumFibers(ps, ItemOf, advisories);
    SumFibers(ps, SystemOf, systems);
  }

  ghost predicate CountersFresh(systems: SystemTable, sa: AdvisoryTable, account: int) {
    forall s | s in systems && s.acc == account && systems[s].IsCounted() ::
      && systems[s].applicable.total == |ApplicableLinks(sa, s)|
      && systems[s].installable.total == |InstallableLinks(sa, s)|
  }

  lemma CellsBalance(systems: SystemTable, cache: Cache, sa: AdvisoryTable, account: int)
    requires Exact(cache, sa, Counted(systems)) && CountersFresh(systems, sa, account)
    ensures Sum(ApplicableByAdvisory(cache, account)) == Sum(ApplicableBySystem(systems, account))
    ensures Sum(InstallableByAdvisory(cache, account)) == Sum(InstallableBySystem(systems, account))
  {
    var counted := Counted(systems);
    var advisories := set k | k in cache && k.acc == account;
    var mine := set s | s in counted && s.acc == account;
    var ps, ips := CountedLinks(sa, counted, account), CountedInstallable(sa, counted, account);
    forall l | l in ps ensures ItemOf(l) in advisories && SystemOf(l) in mine {
      assert ExactAt(cache, sa, counted, ItemOf(l));
      assert SystemOf(l) in Affected(sa, counted, ItemOf(l));
    }
    CountTwoWays(ps, advisories, mine);
    CountTwoWays(ips, advisories, mine);
    AdvisoryCellsAreFibers(cache, sa, counted, account, advisories);
    SystemCellsAreFibers(systems, sa, account, mine);
  }

  /** The system_advisories rows of the counted systems of one account. */
  function CountedLinks(sa: AdvisoryTable, counted: set<AccKey>, account: int): set<LinkKey> {
    set l | l in sa && l.acc == account && SystemOf(l) in counted
  }

  function CountedInstallable(sa: AdvisoryTable, counted: set<AccKey>, account: int): set<LinkKey> {
    set l | l in sa && l.acc == account && SystemOf(l) in counted && sa[l] == INSTALLABLE_STATUS
  }

  lemma AdvisoryCellsAreFibers(cache: Cache, sa: AdvisoryTable, counted: set<AccKey>, account: int,
                               advisories: set<AccKey>)
    requires Exact(cache, sa, counted)
    requires advisories == set k | k in cache && k.acc == account
    ensures ApplicableByAdvisory(cache, account) == FiberSizes(CountedLinks(sa, counted, account), ItemOf, advisories)
    ensures InstallableByAdvisory(cache, account) ==
            FiberSizes(CountedInstallable(sa, counted, account), ItemOf, advisories)
  {
    forall k | k in advisories
      ensures |Fiber(CountedLinks(sa, counted, account), ItemOf, k)| == cache[k].applicable
      ensures |Fiber(CountedInstallable(sa, counted, account), ItemOf, k)| == cache[k].installable
    {
      assert ExactAt(cache, sa, counted, k);
      GroupRowsCountSystems(sa, counted, k);
      assert Fiber(CountedLinks(sa, counted, account), ItemOf, k) == GroupRows(sa, counted, k);
      assert Fiber(CountedInstallable(sa, counted, account), ItemOf, k) == GroupRowsInstallable(sa, counted, k);
    }
  }

  lemma SystemCellsAreFibers(systems: SystemTable, sa: AdvisoryTable, account: int, mine: set<AccKey>)
    requires CountersFresh(systems, sa, account)
    requires mine == set s | s in Counted(systems) && s.acc == account
    ensures ApplicableBySystem(systems, account) ==
            FiberSizes(CountedLinks(sa, Counted(systems), account), SystemOf, mine)
    ensures InstallableBySystem(systems, account) ==
            FiberSizes(CountedInstallable(sa, Counted(systems), account), SystemOf, mine)
  {
    forall s | s in mine
      ensures |Fiber(CountedLinks(sa, Counted(systems), account), SystemOf, s)| == systems[s].applicable.total
      ensures |Fiber(CountedInstallable(sa, Counted(systems), account), SystemOf, s)| == systems[s].installable.total
    {
      assert Fiber(CountedLinks(sa, Counted(systems), account), SystemOf, s) == ApplicableLinks(sa, s);
      assert Fiber(CountedInstallable(sa, Counted(systems), account), SystemOf, s) == InstallableLinks(sa, s);
    }
  }

  /**
   The double-counting law for one account: when the advisory cache is exact and the totals on the
   counted systems are right, the advisories' counts and the systems' totals have the same sum.
   */
  lemma DoubleCounting(systems: SystemTable, cache: Cache, sa: AdvisoryTable, account: int)
    requires Exact(cache, sa, Counted(systems))
    requires forall s | s in systems && s.acc == account && systems[s].lastEvaluation != None && !systems[s].stale ::
               && systems[s].applicable.total == |set l | l in sa && l.acc == s.acc && l.system == s.id|
               && systems[s].installable.total == |set l | l in sa && l.acc == s.acc && l.system == s.id && sa[l] == 0|
    ensures Sum(map k | k in cache && k.acc == account :: cache[k].applicable) ==
            Sum(map s | s in systems && s.acc == account && systems[s].lastEvaluation != None && !systems[s].stale ::
                  systems[s].applicable.total)
    ensures Sum(map k | k in cache && k.acc == account :: cache[k].installable) ==
            Sum(map s | s in systems && s.acc == account && systems[s].lastEvaluation != None && !systems[s].stale ::
                  systems[s].installable.total)
  {
    TotalsAreFresh(systems, sa, account);
    CellsBalance(systems, cache, sa, account);
    assert (map s | s in systems && s.acc == account && systems[s].lastEvaluation != None && !systems[s].stale ::
              systems[s].applicable.total) == ApplicableBySystem(systems, account);
    assert (map s | s in systems && s.acc == account && systems[s].lastEvaluation != None && !systems[s].stale ::
              systems[s].installable.total) == InstallableBySystem(systems, account);
  }

  lemma TotalsAreFresh(systems: SystemTable, sa: AdvisoryTable, account: int)
    requires forall s | s in systems && s.acc == account && systems[s].lastEvaluation != None && !systems[s].stale ::
               && systems[s].applicable.total == |set l | l in sa && l.acc == s.acc && l.system == s.id|
               && systems[s].installable.total == |set l | l in sa && l.acc == s.acc && l.system == s.id && sa[l] == 0|
    ensures CountersFresh(systems, sa, account)
  {
    forall s | s in systems && s.acc == account && systems[s].IsCounted()
      ensures && systems[s].applicable.total == |ApplicableLinks(sa, s)|
              && systems[s].installable.total == |InstallableLinks(sa, s)|
    {
      assert (set l | l in sa && l.acc == s.acc && l.system == s.id) == ApplicableLinks(sa, s);
      assert (set l | l in sa && l.acc == s.acc && l.system == s.id && sa[l] == 0) == InstallableLinks(sa, s);
    }
  }

  /** refresh_all_cached_counts establishes the double-counting law in every account, from any state. */
  lemma RefreshAllBalances(systems: SystemTable, cache: Cache, sa: AdvisoryTable, meta: Metadata, account: int)
    ensures var systems' := WithCounters(systems, sa, meta, None, None);
            var cache' := Refreshed(cache, sa, Counted(systems'), EVERYTHING);
            && Exact(cache', sa, Counted(systems'))
            && Sum(ApplicableByAdvisory(cache', account)) == Sum(ApplicableBySystem(systems', account))
            && Sum(InstallableByAdvisory(cache', account)) == Sum(InstallableBySystem(systems', account))
  {
    var systems' := WithCounters(systems, sa, meta, None, None);
    var cache' := Refreshed(cache, sa, Counted(systems'), EVERYTHING);
    forall k ensures ExactAt(cache', sa, Counted(systems'), k) {
      RefreshMakesScopeExact(cache, sa, Counted(systems'), EVERYTHING, k);
    }
    CellsBalance(systems', cache', sa, account);
  }
}

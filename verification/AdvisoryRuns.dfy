/**
 Runs of the advisory cache: the full refresh as the reference that the incremental trigger has to
 agree with, sequences of updates, and batches of systems going stale in one statement.
 */
module AdvisoryRuns {
  import opened Common
  import opened Keys
  import opened Sums
  import opened Tables
  import opened AdvisoryCache

  // ----- refresh_advisory_caches_multi -----

  /** The optional parameters advisory_ids_in and rh_account_id_in; None stands for NULL. */
  datatype Scope = Scope(advisories: Option<set<int>>, account: Option<int>)
  {
    predicate Covers(k: AccKey) {
      (advisories.Some? ==> k.id in advisories.value) && (account.Some? ==> k.acc == account.value)
    }
  }

  const EVERYTHING := Scope(None, None)

  function RefreshedRow(cache: Cache, sa: AdvisoryTable, counted: set<AccKey>, scope: Scope, k: AccKey): Option<Row> {
    if !scope.Covers(k) then Lookup(cache, k)
    else if Affected(sa, counted, k) == {} then None
    else Some(Row(|AffectedInstallable(sa, counted, k)|, |Affected(sa, counted, k)|,
                  if k in cache then cache[k].notified else None))
  }

  function Refreshed(cache: Cache, sa: AdvisoryTable, counted: set<AccKey>, scope: Scope): Cache {
    map k | k in cache.Keys + (set l | l in sa :: ItemOf(l)) && RefreshedRow(cache, sa, counted, scope, k).Some?
      :: RefreshedRow(cache, sa, counted, scope, k).value
  }

  lemma RefreshedAt(cache: Cache, sa: AdvisoryTable, counted: set<AccKey>, scope: Scope, k: AccKey)
    ensures Lookup(Refreshed(cache, sa, counted, scope), k) == RefreshedRow(cache, sa, counted, scope, k)
  {
  }

  /** A refresh makes its scope exact and leaves every other row alone. */
  lemma RefreshMakesScopeExact(cache: Cache, sa: AdvisoryTable, counted: set<AccKey>, scope: Scope, k: AccKey)
    ensures scope.Covers(k) ==> ExactAt(Refreshed(cache, sa, counted, scope), sa, counted, k)
    ensures !scope.Covers(k) ==> Lookup(Refreshed(cache, sa, counted, scope), k) == Lookup(cache, k)
    ensures k in cache && k in Refreshed(cache, sa, counted, scope)
            ==> Refreshed(cache, sa, counted, scope)[k].notified == cache[k].notified
  {
    RefreshedAt(cache, sa, counted, scope, k);
  }

  /**
   The refresh in terms of the tables: a row in scope has the number of evaluated systems of its
   account that are not stale and list its advisory, and how many of those with status 0; it goes
   when there are none.
   */
  lemma RefreshedFromTables(cache: Cache, sa: AdvisoryTable, systems: SystemTable, advisoryIds: Option<set<int>>,
                            account: Option<int>, k: AccKey)
    ensures var affected := set s | && s in systems && s.acc == k.acc
                                    && systems[s].lastEvaluation != None && !systems[s].stale
                                    && LinkKey(s.acc, s.id, k.id) in sa;
            var installable := set s | s in affected && sa[LinkKey(s.acc, s.id, k.id)] == 0;
            Lookup(Refreshed(cache, sa, Counted(systems), Scope(advisoryIds, account)), k) ==
            if (advisoryIds.Some? && k.id !in advisoryIds.value) || (account.Some? && k.acc != account.value) then
              Lookup(cache, k)
            else if affected == {} then None
            else Some(Row(|installable|, |affected|, if k in cache then cache[k].notified else None))
  {
    var affected := set s | && s in systems && s.acc == k.acc
                            && systems[s].lastEvaluation != None && !systems[s].stale
                            && LinkKey(s.acc, s.id, k.id) in sa;
    RefreshedAt(cache, sa, Counted(systems), Scope(advisoryIds, account), k);
    assert affected == Affected(sa, Counted(systems), k);
    assert (set s | s in affected && sa[LinkKey(s.acc, s.id, k.id)] == 0) ==
           AffectedInstallable(sa, Counted(systems), k);
  }

  /** The exact caches are the fixed points of the full refresh, `notified` included. */
  lemma ExactIffRefreshIsIdentity(cache: Cache, sa: AdvisoryTable, counted: set<AccKey>)
    ensures Exact(cache, sa, counted) <==> Refreshed(cache, sa, counted, EVERYTHING) == cache
    ensures Exact(cache, sa, counted) ==> forall scope :: Refreshed(cache, sa, counted, scope) == cache
  {
    if Exact(cache, sa, counted) {
      forall scope ensures Refreshed(cache, sa, counted, scope) == cache {
        forall k ensures Lookup(Refreshed(cache, sa, counted, scope), k) == Lookup(cache, k) {
          RefreshedAt(cache, sa, counted, scope, k);
          assert ExactAt(cache, sa, counted, k);
        }
        SameMap(Refreshed(cache, sa, counted, scope), cache);
      }
    }
    if Refreshed(cache, sa, counted, EVERYTHING) == cache {
      forall k ensures ExactAt(cache, sa, counted, k) {
        RefreshMakesScopeExact(cache, sa, counted, EVERYTHING, k);
      }
    }
  }

  // ----- Sequences of updates -----

  datatype Update = Update(key: AccKey, row: System)

  function SystemsStep(systems: SystemTable, u: Update): SystemTable {
    if u.key in systems then systems[u.key := u.row] else systems
  }

  function SystemsAfter(systems: SystemTable, us: seq<Update>): SystemTable {
    if us == [] then systems else SystemsAfter(SystemsStep(systems, us[0]), us[1..])
  }

  function CacheStep(systems: SystemTable, cache: Cache, sa: AdvisoryTable, u: Update): Cache {
    if u.key in systems then AfterUpdate(cache, sa, u.key, systems[u.key], u.row) else cache
  }

  function CacheAfter(systems: SystemTable, cache: Cache, sa: AdvisoryTable, us: seq<Update>): Cache
    decreases |us|
  {
    if us == [] then cache
    else CacheAfter(SystemsStep(systems, us[0]), CacheStep(systems, cache, sa, us[0]), sa, us[1..])
  }

  /** No update of the run evaluates a system, or takes its evaluation back. */
  ghost predicate KeepsEvaluation(systems: SystemTable, us: seq<Update>) {
    forall u | u in us && u.key in systems :: u.row.Evaluated() == systems[u.key].Evaluated()
  }

  /** Incremental equals recomputed: exactness survives every run of evaluation-preserving updates. */
  lemma {:induction false} RunKeepsExact(systems: SystemTable, cache: Cache, sa: AdvisoryTable, us: seq<Update>)
    requires Exact(cache, sa, Counted(systems)) && KeepsEvaluation(systems, us)
    ensures Exact(CacheAfter(systems, cache, sa, us), sa, Counted(SystemsAfter(systems, us)))
    decreases |us|
  {
    if us != [] {
      var u := us[0];
      if u.key in systems {
        UpdateKeepsExactIff(cache, sa, systems, u.key, u.row);
      }
      RunKeepsExact(SystemsStep(systems, u), CacheStep(systems, cache, sa, u), sa, us[1..]);
    }
  }

  /**
   After such a run a full refresh has nothing to do, and a full refresh of any other table, the
   one before the run included, has the same rows and the same counts.
   */
  lemma RunAgreesWithRefresh(systems: SystemTable, cache: Cache, sa: AdvisoryTable, us: seq<Update>, other: Cache)
    requires Exact(cache, sa, Counted(systems)) && KeepsEvaluation(systems, us)
    ensures var final := CacheAfter(systems, cache, sa, us);
            var recomputed := Refreshed(other, sa, Counted(SystemsAfter(systems, us)), EVERYTHING);
            && Refreshed(final, sa, Counted(SystemsAfter(systems, us)), EVERYTHING) == final
            && final.Keys == recomputed.Keys
            && forall k | k in final :: final[k].(notified := None) == recomputed[k].(notified := None)
  {
    RunKeepsExact(systems, cache, sa, us);
    var final := CacheAfter(systems, cache, sa, us);
    var counted := Counted(SystemsAfter(systems, us));
    var recomputed := Refreshed(other, sa, counted, EVERYTHING);
    ExactIffRefreshIsIdentity(final, sa, counted);
    forall k
      ensures k in final <==> k in recomputed
      ensures k in final ==> final[k].(notified := None) == recomputed[k].(notified := None)
    {
      assert ExactAt(final, sa, counted, k);
      RefreshMakesScopeExact(other, sa, counted, EVERYTHING, k);
    }
  }

  /** Whether key `k` has a row before the run and after each of its updates. */
  ghost predicate PresentThroughout(systems: SystemTable, cache: Cache, sa: AdvisoryTable, us: seq<Update>, k: AccKey)
    decreases |us|
  {
    k in cache &&
    (us == [] || PresentThroughout(SystemsStep(systems, us[0]), CacheStep(systems, cache, sa, us[0]), sa, us[1..], k))
  }

  /** `notified` is kept on a row that survives the whole run, and lost on one that was ever dropped. */
  lemma {:induction false} NotifiedAfterRun(systems: SystemTable, cache: Cache, sa: AdvisoryTable, us: seq<Update>,
                                            k: AccKey)
    requires k in CacheAfter(systems, cache, sa, us)
    ensures CacheAfter(systems, cache, sa, us)[k].notified ==
            if PresentThroughout(systems, cache, sa, us, k) then cache[k].notified else None
    decreases |us|
  {
    if us != [] {
      var u := us[0];
      var next := CacheStep(systems, cache, sa, u);
      if u.key in systems {
        AfterTriggerAt(cache, sa, u.key, Change(systems[u.key], u.row), k);
      }
      NotifiedAfterRun(SystemsStep(systems, us[0]), next, sa, us[1..], k);
    }
  }

  // ----- Batches going stale in one statement -----

  /** The trigger fired once for each row of `order`, every row going from counted to uncounted. */
  function UncountEach(cache: Cache, sa: AdvisoryTable, order: seq<AccKey>): Cache {
    if order == [] then cache
    else AfterTrigger(UncountEach(cache, sa, order[..|order| - 1]), sa, order[|order| - 1], -1)
  }

  /** The same batch without an order: every row loses the number of systems in it that it counted. */
  function UncountedRow(cache: Cache, sa: AdvisoryTable, batch: set<AccKey>, k: AccKey): Option<Row> {
    if k !in cache || Affected(sa, batch, k) == {} then Lookup(cache, k)
    else
      var row := cache[k].(
                 installable := cache[k].installable - |AffectedInstallable(sa, batch, k)|,
                 applicable := cache[k].applicable - |Affected(sa, batch, k)|);
      if row.installable > 0 || row.applicable > 0 then Some(row) else None
  }

  function UncountAll(cache: Cache, sa: AdvisoryTable, batch: set<AccKey>): Cache {
    map k | k in cache && UncountedRow(cache, sa, batch, k).Some? :: UncountedRow(cache, sa, batch, k).value
  }

  lemma UncountNothing(cache: Cache, sa: AdvisoryTable)
    ensures UncountAll(cache, sa, {}) == cache
  {
  }

  lemma SplitAffected(sa: AdvisoryTable, a: set<AccKey>, b: set<AccKey>, k: AccKey)
    requires a !! b
    ensures |Affected(sa, a + b, k)| == |Affected(sa, a, k)| + |Affected(sa, b, k)|
    ensures |AffectedInstallable(sa, a + b, k)| == |AffectedInstallable(sa, a, k)| + |AffectedInstallable(sa, b, k)|
    ensures Affected(sa, a + b, k) == {} <==> Affected(sa, a, k) == {} && Affected(sa, b, k) == {}
  {
    assert Affected(sa, a + b, k) == Affected(sa, a, k) + Affected(sa, b, k);
    assert AffectedInstallable(sa, a + b, k) == AffectedInstallable(sa, a, k) + AffectedInstallable(sa, b, k);
  }

  /** Uncounting two disjoint batches one after the other is uncounting their union. */
  lemma BatchesCompose(cache: Cache, sa: AdvisoryTable, a: set<AccKey>, b: set<AccKey>)
    requires a !! b
    ensures UncountAll(UncountAll(cache, sa, a), sa, b) == UncountAll(cache, sa, a + b)
  {
    var first := UncountAll(cache, sa, a);
    forall k ensures Lookup(UncountAll(first, sa, b), k) == Lookup(UncountAll(cache, sa, a + b), k) {
      SplitAffected(sa, a, b, k);
      InstallableAmongAffected(sa, a, k);
      InstallableAmongAffected(sa, b, k);
      assert Lookup(first, k) == UncountedRow(cache, sa, a, k);
    }
    SameMap(UncountAll(first, sa, b), UncountAll(cache, sa, a + b));
  }

  lemma TriggerIsSingletonBatch(cache: Cache, sa: AdvisoryTable, s: AccKey)
    ensures AfterTrigger(cache, sa, s, -1) == UncountAll(cache, sa, {s})
  {
    forall k ensures Lookup(AfterTrigger(cache, sa, s, -1), k) == Lookup(UncountAll(cache, sa, {s}), k) {
      AfterTriggerAt(cache, sa, s, -1, k);
      assert Affected(sa, {s}, k) == if Links(sa, s, k) then {s} else {};
      assert AffectedInstallable(sa, {s}, k) ==
             if Links(sa, s, k) && sa[LinkKey(s.acc, s.id, k.id)] == INSTALLABLE_STATUS then {s} else {};
    }
    SameMap(AfterTrigger(cache, sa, s, -1), UncountAll(cache, sa, {s}));
  }

  ghost predicate Enumerates(order: seq<AccKey>, batch: set<AccKey>) {
    && (forall k :: k in order <==> k in batch)
    && (forall i, j | 0 <= i < j < |order| :: order[i] != order[j])
  }

  /**
   A batch of flips is order independent, for any table, exact or not: firing the trigger row by
   row in any order computes the same table, `notified` included.
   */
  lemma {:induction false} BatchIsOrderIndependent(cache: Cache, sa: AdvisoryTable, order: seq<AccKey>,
                                                   batch: set<AccKey>)
    requires Enumerates(order, batch)
    ensures UncountEach(cache, sa, order) == UncountAll(cache, sa, batch)
    decreases |order|
  {
    if order == [] {
      assert batch == {};
      UncountNothing(cache, sa);
    } else {
      var n := |order| - 1;
      var s := order[n];
      var init := batch - {s};
      assert order == order[..n] + [s];
      assert forall k :: k in order <==> k in order[..n] || k == s;
      BatchIsOrderIndependent(cache, sa, order[..n], init);
      TriggerIsSingletonBatch(UncountAll(cache, sa, init), sa, s);
      BatchesCompose(cache, sa, init, {s});
      assert init + {s} == batch;
    }
  }

  /** A batch of counted systems going stale keeps the cache exact. */
  lemma BatchKeepsExact(cache: Cache, sa: AdvisoryTable, counted: set<AccKey>, batch: set<AccKey>)
    requires Exact(cache, sa, counted) && batch <= counted
    ensures Exact(UncountAll(cache, sa, batch), sa, counted - batch)
  {
    var after := UncountAll(cache, sa, batch);
    forall k ensures ExactAt(after, sa, counted - batch, k) {
      assert ExactAt(cache, sa, counted, k);
      SplitAffected(sa, counted - batch, batch, k);
      assert counted - batch + batch == counted;
      InstallableAmongAffected(sa, counted - batch, k);
      InstallableAmongAffected(sa, batch, k);
      assert Lookup(after, k) == UncountedRow(cache, sa, batch, k);
    }
  }

  // ----- mark_stale_systems -----

  predicate IsOverdue(s: System, now: int) {
    s.staleWarning.Some? && s.staleWarning.value < now && !s.stale
  }

  function Overdue(systems: SystemTable, now: int): set<AccKey> {
    set s | s in systems && IsOverdue(systems[s], now)
  }

  function MarkStale(systems: SystemTable, batch: set<AccKey>): SystemTable {
    map s | s in systems :: if s in batch then systems[s].(stale := true) else systems[s]
  }

  /** One call with a limit, on the system table and on the cache. */
  ghost function MarkedBatch(systems: SystemTable, now: int, limit: nat): set<AccKey> {
    FirstN(Overdue(systems, now), limit)
  }

  lemma CountedAfterMark(systems: SystemTable, batch: set<AccKey>)
    ensures Counted(MarkStale(systems, batch)) == Counted(systems) - batch
  {
  }

  /** The systems and the cache after `calls` calls of mark_stale_systems at a fixed clock. */
  ghost function MarkRepeatedly(systems: SystemTable, cache: Cache, sa: AdvisoryTable, now: int, limit: nat,
                                calls: nat)
    : (SystemTable, Cache)
  {
    if calls == 0 then (systems, cache)
    else
      var (s, c) := MarkRepeatedly(systems, cache, sa, now, limit, calls - 1);
      var batch := MarkedBatch(s, now, limit);
      (MarkStale(s, batch), UncountAll(c, sa, batch * Counted(s)))
  }

  /** Two batches marked one after the other are one batch. */
  lemma MarksCompose(systems: SystemTable, cache: Cache, sa: AdvisoryTable, a: set<AccKey>, b: set<AccKey>)
    requires a !! b
    ensures MarkStale(MarkStale(systems, a), b) == MarkStale(systems, a + b)
    ensures UncountAll(UncountAll(cache, sa, a * Counted(systems)), sa, b * Counted(MarkStale(systems, a))) ==
            UncountAll(cache, sa, (a + b) * Counted(systems))
  {
    CountedAfterMark(systems, a);
    assert b * Counted(MarkStale(systems, a)) == b * Counted(systems);
    assert (a + b) * Counted(systems) == a * Counted(systems) + b * Counted(systems);
    BatchesCompose(cache, sa, a * Counted(systems), b * Counted(systems));
  }

  /** A further call marks the first of the overdue systems that are left. */
  lemma NextBatch(systems: SystemTable, now: int, limit: nat, before: set<AccKey>)
    requires before <= Overdue(systems, now)
    ensures var batch := MarkedBatch(MarkStale(systems, before), now, limit);
            var total := |Overdue(systems, now)|;
            && before !! batch
            && before + batch <= Overdue(systems, now)
            && |before + batch| == if |before| + limit < total then |before| + limit else total
  {
    var overdue := Overdue(systems, now);
    assert Overdue(MarkStale(systems, before), now) == overdue - before;
    assert overdue == before + (overdue - before);
  }

  /**
   One call with a limit, for one system: it becomes stale iff its stale warning lies before `now`,
   it is not stale yet, and fewer than `limit` such systems come before it by account and id.
   */
  lemma MarkedInOrder(systems: SystemTable, now: int, limit: nat, s: AccKey)
    requires s in systems
    ensures var due := set t | && t in systems && !systems[t].stale
                               && systems[t].staleWarning.Some? && systems[t].staleWarning.value < now;
            var marked := MarkStale(systems, MarkedBatch(systems, now, limit));
            && marked.Keys == systems.Keys
            && marked[s] == if && s in due
                               && |set t | t in due && (t.acc < s.acc || (t.acc == s.acc && t.id < s.id))| < limit
                            then systems[s].(stale := true) else systems[s]
  {
    var due := set t | && t in systems && !systems[t].stale
                       && systems[t].staleWarning.Some? && systems[t].staleWarning.value < now;
    assert due == Overdue(systems, now);
    FirstByRank(due, limit, s);
  }

  /** How many of `total` overdue systems are marked after some calls. */
  function Progress(total: nat, limit: nat, calls: nat): nat {
    if calls == 0 then 0
    else
      var before := Progress(total, limit, calls - 1);
      if before + limit < total then before + limit else total
  }

  lemma {:induction false} ProgressIsLinear(total: nat, limit: nat, calls: nat)
    ensures Progress(total, limit, calls) == if calls * limit < total then calls * limit else total
  {
    if calls > 0 {
      ProgressIsLinear(total, limit, calls - 1);
      assert calls * limit == (calls - 1) * limit + limit;
    }
  }

  lemma {:induction false} MarkedSoFar(systems: SystemTable, cache: Cache, sa: AdvisoryTable, now: int, limit: nat,
                                       calls: nat)
    returns (done: set<AccKey>)
    ensures done <= Overdue(systems, now)
    ensures |done| == Progress(|Overdue(systems, now)|, limit, calls)
    ensures MarkRepeatedly(systems, cache, sa, now, limit, calls) ==
            (MarkStale(systems, done), UncountAll(cache, sa, done * Counted(systems)))
  {
    if calls == 0 {
      done := {};
      assert MarkStale(systems, {}) == systems;
      UncountNothing(cache, sa);
      assert {} * Counted(systems) == {};
    } else {
      var before := MarkedSoFar(systems, cache, sa, now, limit, calls - 1);
      var batch := MarkedBatch(MarkStale(systems, before), now, limit);
      NextBatch(systems, now, limit, before);
      done := before + batch;
      MarksCompose(systems, cache, sa, before, batch);
    }
  }

  /**
   At a fixed clock, enough calls with a positive limit leave no overdue system, and end in the
   very state of a single call without a limit, in the system table and in the cache.
   */
  lemma MarkStaleConverges(systems: SystemTable, cache: Cache, sa: AdvisoryTable, now: int, limit: nat, calls: nat)
    requires calls * limit >= |Overdue(systems, now)|
    ensures var (s, c) := MarkRepeatedly(systems, cache, sa, now, limit, calls);
            && Overdue(s, now) == {}
            && s == MarkStale(systems, Overdue(systems, now))
            && c == UncountAll(cache, sa, Overdue(systems, now) * Counted(systems))
            && (Exact(cache, sa, Counted(systems)) ==> Exact(c, sa, Counted(s)))
  {
    var overdue := Overdue(systems, now);
    var done := MarkedSoFar(systems, cache, sa, now, limit, calls);
    ProgressIsLinear(|overdue|, limit, calls);
    SubsetSize(done, overdue);
    CountedAfterMark(systems, overdue);
    if Exact(cache, sa, Counted(systems)) {
      BatchKeepsExact(cache, sa, Counted(systems), overdue * Counted(systems));
      assert Counted(systems) - overdue * Counted(systems) == Counted(systems) - overdue;
    }
  }

  // ----- delete_system -----

  function WithoutSystem(sa: AdvisoryTable, s: AccKey): AdvisoryTable {
    map l | l in sa && SystemOf(l) != s :: sa[l]
  }

  function WithoutLinks(ls: set<LinkKey>, s: AccKey): set<LinkKey> {
    set l | l in ls && SystemOf(l) != s
  }

  /**
   Deleting a system keeps an exact cache exact, whether the system was counted, not evaluated or
   already stale: the trigger uncounts it first, then its advisories and its row go.
   */
  lemma DeleteKeepsExact(systems: SystemTable, cache: Cache, sa: AdvisoryTable, s: AccKey)
    requires s in systems && Exact(cache, sa, Counted(systems))
    ensures Exact(AfterUpdate(cache, sa, s, systems[s], systems[s].(stale := true)),
                  WithoutSystem(sa, s), Counted(systems - {s}))
  {
    var stale := systems[s].(stale := true);
    UpdateKeepsExactIff(cache, sa, systems, s, stale);
    var cache' := AfterUpdate(cache, sa, s, systems[s], stale);
    var counted := Counted(systems[s := stale]);
    assert Counted(systems - {s}) == counted;
    forall k ensures ExactAt(cache', WithoutSystem(sa, s), counted, k) {
      assert ExactAt(cache', sa, counted, k);
      assert forall t | t in counted :: t != s && SystemOf(LinkKey(t.acc, t.id, k.id)) == t;
      assert Affected(WithoutSystem(sa, s), counted, k) == Affected(sa, counted, k);
      assert AffectedInstallable(WithoutSystem(sa, s), counted, k) == AffectedInstallable(sa, counted, k);
    }
  }
}

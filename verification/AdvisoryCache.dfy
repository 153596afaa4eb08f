/**
 The advisory counter cache advisory_account_data as a value: what an exact cache is, what the
 trigger on_system_update does to one row, and what a refresh writes.  The lemmas show that the
 trigger maintains incrementally what the refresh computes from scratch.
 */
module AdvisoryCache {
  import opened Common
  import opened Keys
  import opened Sums
  import opened Tables

  /** A row of advisory_account_data. */
  datatype Row = Row(installable: int, applicable: int, notified: Option<int>)

  /** advisory_account_data, by (rh_account_id, advisory_id). */
  type Cache = map<AccKey, Row>

  // ----- Exact counts -----

  /** The counted systems of account `k.acc` that advisory `k.id` affects. */
  function Affected(sa: AdvisoryTable, counted: set<AccKey>, k: AccKey): set<AccKey> {
    set s | s in counted && s.acc == k.acc && LinkKey(s.acc, s.id, k.id) in sa
  }

  function AffectedInstallable(sa: AdvisoryTable, counted: set<AccKey>, k: AccKey): set<AccKey> {
    set s | s in counted && s.acc == k.acc && LinkKey(s.acc, s.id, k.id) in sa &&
            sa[LinkKey(s.acc, s.id, k.id)] == INSTALLABLE_STATUS
  }

  ghost predicate ExactAt(cache: Cache, sa: AdvisoryTable, counted: set<AccKey>, k: AccKey) {
    && (k in cache <==> |Affected(sa, counted, k)| > 0)
    && (k in cache ==>
          && cache[k].applicable == |Affected(sa, counted, k)|
          && cache[k].installable == |AffectedInstallable(sa, counted, k)|)
  }

  /** A row exists exactly for the affecting advisories, and holds the exact counts. */
  ghost predicate Exact(cache: Cache, sa: AdvisoryTable, counted: set<AccKey>) {
    forall k :: ExactAt(cache, sa, counted, k)
  }

  /** The system_advisories rows behind one group of `GROUP BY advisory_id, rh_account_id`. */
  function GroupRows(sa: AdvisoryTable, counted: set<AccKey>, k: AccKey): set<LinkKey> {
    set l | l in sa && SystemOf(l) in counted && ItemOf(l) == k
  }

  function GroupRowsInstallable(sa: AdvisoryTable, counted: set<AccKey>, k: AccKey): set<LinkKey> {
    set l | l in sa && SystemOf(l) in counted && ItemOf(l) == k && sa[l] == INSTALLABLE_STATUS
  }

  /** Counting the joined rows of a group counts the affected systems: (account, system, advisory) is a key. */
  lemma GroupRowsCountSystems(sa: AdvisoryTable, counted: set<AccKey>, k: AccKey)
    ensures |GroupRows(sa, counted, k)| == |Affected(sa, counted, k)|
    ensures |GroupRowsInstallable(sa, counted, k)| == |AffectedInstallable(sa, counted, k)|
  {
    forall s | s in Affected(sa, counted, k)
      ensures exists l :: l in GroupRows(sa, counted, k) && SystemOf(l) == s
    {
      var l := LinkKey(s.acc, s.id, k.id);
      assert l in GroupRows(sa, counted, k) && SystemOf(l) == s;
    }
    forall l | l in GroupRows(sa, counted, k) ensures l == LinkKey(k.acc, SystemOf(l).id, k.id) {
      assert ItemOf(l) == k;
    }
    Bijection(GroupRows(sa, counted, k), Affected(sa, counted, k), SystemOf);
    forall s | s in AffectedInstallable(sa, counted, k)
      ensures exists l :: l in GroupRowsInstallable(sa, counted, k) && SystemOf(l) == s
    {
      var l := LinkKey(s.acc, s.id, k.id);
      assert l in GroupRowsInstallable(sa, counted, k) && SystemOf(l) == s;
    }
    Bijection(GroupRowsInstallable(sa, counted, k), AffectedInstallable(sa, counted, k), SystemOf);
  }

  // ----- The trigger -----

  /** The change that on_system_update applies: it reads evaluation from the new row only. */
  function Change(old_: System, new_: System): int {
    if !new_.Evaluated() then 0
    else if !old_.stale && new_.stale then -1
    else if old_.stale && !new_.stale then 1
    else 0
  }

  predicate Links(sa: AdvisoryTable, s: AccKey, k: AccKey) {
    k.acc == s.acc && LinkKey(s.acc, s.id, k.id) in sa
  }

  /** The row of key `k` after the trigger applied `change` for system `s`. */
  function RowAfter(cache: Cache, sa: AdvisoryTable, s: AccKey, change: int, k: AccKey): Option<Row> {
    if change == 0 || !Links(sa, s, k) then Lookup(cache, k)
    else
      var installable := sa[LinkKey(s.acc, s.id, k.id)] == INSTALLABLE_STATUS;
      if k in cache then
        var row := cache[k].(
                   installable := cache[k].installable + (if installable then change else 0),
                   applicable := cache[k].applicable + change);
        if row.installable > 0 || row.applicable > 0 then Some(row) else None
      else if change > 0 then Some(Row(if installable then 1 else 0, 1, None))
      else None
  }

  function ListedBy(sa: AdvisoryTable, s: AccKey): set<AccKey> {
    set l | l in sa && SystemOf(l) == s :: ItemOf(l)
  }

  /** The whole table after the trigger. */
  function AfterTrigger(cache: Cache, sa: AdvisoryTable, s: AccKey, change: int): Cache {
    map k | k in cache.Keys + ListedBy(sa, s) && RowAfter(cache, sa, s, change, k).Some?
      :: RowAfter(cache, sa, s, change, k).value
  }

  lemma AfterTriggerAt(cache: Cache, sa: AdvisoryTable, s: AccKey, change: int, k: AccKey)
    ensures Lookup(AfterTrigger(cache, sa, s, change), k) == RowAfter(cache, sa, s, change, k)
  {
  }

  lemma NoChangeIsIdentity(cache: Cache, sa: AdvisoryTable, s: AccKey)
    ensures AfterTrigger(cache, sa, s, 0) == cache
  {
  }

  /** Counting one more system adds it to the advisories it lists and to no other. */
  lemma CountMore(sa: AdvisoryTable, counted: set<AccKey>, s: AccKey, k: AccKey)
    requires s !in counted
    ensures |Affected(sa, counted + {s}, k)| ==
            |Affected(sa, counted, k)| + (if Links(sa, s, k) then 1 else 0)
    ensures |AffectedInstallable(sa, counted + {s}, k)| ==
            |AffectedInstallable(sa, counted, k)| +
            (if Links(sa, s, k) && sa[LinkKey(s.acc, s.id, k.id)] == INSTALLABLE_STATUS then 1 else 0)
  {
    CountMoreAffected(sa, counted, s, k);
    CountMoreInstallable(sa, counted, s, k);
  }

  lemma CountMoreAffected(sa: AdvisoryTable, counted: set<AccKey>, s: AccKey, k: AccKey)
    requires s !in counted
    ensures |Affected(sa, counted + {s}, k)| ==
            |Affected(sa, counted, k)| + (if Links(sa, s, k) then 1 else 0)
  {
    if Links(sa, s, k) {
      assert Affected(sa, counted + {s}, k) == Affected(sa, counted, k) + {s};
    } else {
      assert Affected(sa, counted + {s}, k) == Affected(sa, counted, k);
    }
  }

  lemma CountMoreInstallable(sa: AdvisoryTable, counted: set<AccKey>, s: AccKey, k: AccKey)
    requires s !in counted
    ensures |AffectedInstallable(sa, counted + {s}, k)| ==
            |AffectedInstallable(sa, counted, k)| +
            (if Links(sa, s, k) && sa[LinkKey(s.acc, s.id, k.id)] == INSTALLABLE_STATUS then 1 else 0)
  {
    if Links(sa, s, k) && sa[LinkKey(s.acc, s.id, k.id)] == INSTALLABLE_STATUS {
      assert AffectedInstallable(sa, counted + {s}, k) == AffectedInstallable(sa, counted, k) + {s};
    } else {
      assert AffectedInstallable(sa, counted + {s}, k) == AffectedInstallable(sa, counted, k);
    }
  }

  lemma InstallableAmongAffected(sa: AdvisoryTable, counted: set<AccKey>, k: AccKey)
    ensures |AffectedInstallable(sa, counted, k)| <= |Affected(sa, counted, k)|
  {
    SubsetSize(AffectedInstallable(sa, counted, k), Affected(sa, counted, k));
  }

  lemma TriggerCountsUp(cache: Cache, sa: AdvisoryTable, counted: set<AccKey>, s: AccKey)
    requires Exact(cache, sa, counted) && s !in counted
    ensures Exact(AfterTrigger(cache, sa, s, 1), sa, counted + {s})
  {
    forall k ensures ExactAt(AfterTrigger(cache, sa, s, 1), sa, counted + {s}, k) {
      assert ExactAt(cache, sa, counted, k);
      AfterTriggerAt(cache, sa, s, 1, k);
      CountMore(sa, counted, s, k);
      InstallableAmongAffected(sa, counted, k);
    }
  }

  lemma TriggerCountsDown(cache: Cache, sa: AdvisoryTable, counted: set<AccKey>, s: AccKey)
    requires Exact(cache, sa, counted) && s in counted
    ensures Exact(AfterTrigger(cache, sa, s, -1), sa, counted - {s})
  {
    var fewer := counted - {s};
    assert fewer + {s} == counted;
    forall k ensures ExactAt(AfterTrigger(cache, sa, s, -1), sa, fewer, k) {
      assert ExactAt(cache, sa, counted, k);
      AfterTriggerAt(cache, sa, s, -1, k);
      CountMore(sa, fewer, s, k);
      InstallableAmongAffected(sa, fewer, k);
    }
  }

  /** What the trigger makes of an UPDATE of the row of system `s`. */
  function AfterUpdate(cache: Cache, sa: AdvisoryTable, s: AccKey, old_: System, new_: System): Cache {
    AfterTrigger(cache, sa, s, Change(old_, new_))
  }

  /**
   The trigger on any table, exact or not, for one row of it: an update that leaves `stale` alone,
   leaves the system unevaluated or concerns an advisory that the system does not list changes
   nothing; one that makes it stale takes the system from both counts and drops a row without
   counts; one that makes it fresh adds the system, to a new row if there was none.
   */
  lemma UpdatedRow(cache: Cache, sa: AdvisoryTable, s: AccKey, old_: System, new_: System, k: AccKey)
    ensures var link := LinkKey(s.acc, s.id, k.id);
            Lookup(AfterUpdate(cache, sa, s, old_, new_), k) ==
            if new_.lastEvaluation == None || old_.stale == new_.stale || k.acc != s.acc || link !in sa then
              Lookup(cache, k)
            else if new_.stale then
              if k !in cache then None
              else
                var i := cache[k].installable - (if sa[link] == 0 then 1 else 0);
                var a := cache[k].applicable - 1;
                if i <= 0 && a <= 0 then None else Some(Row(i, a, cache[k].notified))
            else if k !in cache then Some(Row(if sa[link] == 0 then 1 else 0, 1, None))
            else
              var i := cache[k].installable + (if sa[link] == 0 then 1 else 0);
              var a := cache[k].applicable + 1;
              if i <= 0 && a <= 0 then None else Some(Row(i, a, cache[k].notified))
  {
    AfterTriggerAt(cache, sa, s, Change(old_, new_), k);
  }

  /**
   The updates for which the incremental trigger is right, as a condition on the state before the
   update: evaluation must not change under a non-stale row, unless nothing is there to count.
   */
  predicate TriggerApplies(cache: Cache, sa: AdvisoryTable, s: AccKey, old_: System, new_: System) {
    || ListedBy(sa, s) == {}
    || old_.Evaluated() == new_.Evaluated()
    || old_.stale
    || (new_.stale && !old_.Evaluated() && forall k | k in ListedBy(sa, s) :: k !in cache)
  }

  /**
   The boundary of the incremental cache: an update of a system row takes an exact cache to an
   exact cache if and only if TriggerApplies.
   */
  lemma UpdateKeepsExactIff(cache: Cache, sa: AdvisoryTable, systems: SystemTable, s: AccKey, new_: System)
    requires s in systems
    requires Exact(cache, sa, Counted(systems))
    ensures Exact(AfterUpdate(cache, sa, s, systems[s], new_), sa, Counted(systems[s := new_]))
       <==> TriggerApplies(cache, sa, s, systems[s], new_)
  {
    var old_ := systems[s];
    var counted := Counted(systems);
    var counted' := Counted(systems[s := new_]);
    assert counted' == if new_.IsCounted() then counted + {s} else counted - {s};
    var change := Change(old_, new_);
    var due := (if new_.IsCounted() then 1 else 0) - (if old_.IsCounted() then 1 else 0);
    if change == due {
      RightChangeKeepsExact(cache, sa, counted, counted', s, change);
    } else if ListedBy(sa, s) == {} {
      forall k ensures !Links(sa, s, k) { LinksIsListed(sa, s, k); }
      UnlistedSystemIsInvisible(cache, sa, counted, counted', s, change);
    } else if change == -1 && forall k | k in ListedBy(sa, s) :: k !in cache {
      assert counted' == counted;
      NothingToUncount(cache, sa, s);
    } else {
      var k :| k in ListedBy(sa, s) && (change == -1 ==> k in cache);
      LinksIsListed(sa, s, k);
      WrongChangeDrifts(cache, sa, counted, counted', s, change, k);
    }
  }

  lemma RightChangeKeepsExact(cache: Cache, sa: AdvisoryTable, counted: set<AccKey>, counted': set<AccKey>,
                              s: AccKey, change: int)
    requires Exact(cache, sa, counted)
    requires change == (if s in counted' then 1 else 0) - (if s in counted then 1 else 0)
    requires counted' == if s in counted' then counted + {s} else counted - {s}
    ensures Exact(AfterTrigger(cache, sa, s, change), sa, counted')
  {
    if change == 1 {
      TriggerCountsUp(cache, sa, counted, s);
    } else if change == -1 {
      TriggerCountsDown(cache, sa, counted, s);
    } else {
      NoChangeIsIdentity(cache, sa, s);
      assert counted' == counted;
    }
  }

  lemma UnlistedSystemIsInvisible(cache: Cache, sa: AdvisoryTable, counted: set<AccKey>, counted': set<AccKey>,
                                  s: AccKey, change: int)
    requires Exact(cache, sa, counted)
    requires counted + {s} == counted' + {s}
    requires forall k :: !Links(sa, s, k)
    ensures Exact(AfterTrigger(cache, sa, s, change), sa, counted')
  {
    forall k ensures ExactAt(AfterTrigger(cache, sa, s, change), sa, counted', k) {
      assert ExactAt(cache, sa, counted, k);
      AfterTriggerAt(cache, sa, s, change, k);
      assert !Links(sa, s, k);
      SameAffected(sa, counted, counted', s, k);
    }
  }

  lemma SameAffected(sa: AdvisoryTable, counted: set<AccKey>, counted': set<AccKey>, s: AccKey, k: AccKey)
    requires counted + {s} == counted' + {s}
    requires !Links(sa, s, k)
    ensures Affected(sa, counted, k) == Affected(sa, counted', k)
    ensures AffectedInstallable(sa, counted, k) == AffectedInstallable(sa, counted', k)
  {
  }

  lemma NothingToUncount(cache: Cache, sa: AdvisoryTable, s: AccKey)
    requires forall k | k in ListedBy(sa, s) :: k !in cache
    ensures AfterTrigger(cache, sa, s, -1) == cache
  {
  }

  lemma WrongChangeDrifts(cache: Cache, sa: AdvisoryTable, counted: set<AccKey>, counted': set<AccKey>, s: AccKey,
                          change: int, k: AccKey)
    requires Exact(cache, sa, counted) && Links(sa, s, k)
    requires counted' == if s in counted' then counted + {s} else counted - {s}
    requires change != (if s in counted' then 1 else 0) - (if s in counted then 1 else 0)
    requires change == 0 || (change == -1 && counted' == counted && k in cache)
    ensures !Exact(AfterTrigger(cache, sa, s, change), sa, counted')
  {
    assert ExactAt(cache, sa, counted, k);
    AfterTriggerAt(cache, sa, s, change, k);
    if s in counted' && s !in counted {
      CountMore(sa, counted, s, k);
    } else if s in counted' {
      assert counted' == counted;
    } else if s in counted {
      assert counted == counted' + {s};
      CountMore(sa, counted', s, k);
    }
    assert !ExactAt(AfterTrigger(cache, sa, s, change), sa, counted', k);
  }

  lemma LinksIsListed(sa: AdvisoryTable, s: AccKey, k: AccKey)
    ensures Links(sa, s, k) <==> k in ListedBy(sa, s)
  {
  }

  /** The drift at a real input: a system that is not stale and lists one advisory gets evaluated. */
  lemma EvaluatingDrifts(row: System, evaluation: int)
    requires row.lastEvaluation.None? && !row.stale
    ensures var s := AccKey(1, 1);
            var systems := map[s := row];
            var sa := map[LinkKey(1, 1, 5) := INSTALLABLE_STATUS];
            var new_ := row.(lastEvaluation := Some(evaluation));
            && Exact(map[], sa, Counted(systems))
            && !Exact(AfterUpdate(map[], sa, s, row, new_), sa, Counted(systems[s := new_]))
  {
    var s := AccKey(1, 1);
    var systems := map[s := row];
    var sa := map[LinkKey(1, 1, 5) := INSTALLABLE_STATUS];
    assert Counted(systems) == {};
    assert Exact(map[], sa, Counted(systems));
    assert SystemOf(LinkKey(1, 1, 5)) == s && ItemOf(LinkKey(1, 1, 5)) in ListedBy(sa, s);
    UpdateKeepsExactIff(map[], sa, systems, s, row.(lastEvaluation := Some(evaluation)));
  }
}

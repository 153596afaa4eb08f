/**
 What a move does to the package answers. MoveSystems leaves system_package behind, so the moved
 systems drop out of every package query.
 */
module MovedPackages {
  import opened Common
  import opened Keys
  import opened Tables
  import opened PackageQueries
  import MoveTables

  /** The content database after a committed move; the package rows keep their account. */
  function AfterMove(db: Content, from: int, to: int): Content
    requires MoveTables.NoKeyCollision(db.systems.Keys, from, to)
  {
    db.(systems := MoveTables.MovedRows(db.systems, from, to))
  }

  /** Every package row belongs to a system. The schema has no foreign key for it. */
  ghost predicate PackagesLinked(db: Content) {
    forall l | l in db.packages :: SystemOf(l) in db.systems
  }

  /** Rows that the join finds only after the move: a moved system meets package rows left over under its new key. */
  function Adopted(db: Content, from: int, to: int): set<Joined>
    requires MoveTables.NoKeyCollision(db.systems.Keys, from, to)
  {
    set j | j in FullJoin(AfterMove(db, from, to)) && j.sp.acc == to && SystemOf(j.spkg) !in db.systems
  }

  lemma AdoptsNothing(db: Content, from: int, to: int)
    requires MoveTables.NoKeyCollision(db.systems.Keys, from, to) && PackagesLinked(db)
    ensures Adopted(db, from, to) == {}
  {
  }

  // ----- The joined rows -----

  lemma NoRowsUnderFrom(db: Content, from: int, to: int, ids: set<string>)
    requires from != to && MoveTables.NoKeyCollision(db.systems.Keys, from, to)
    ensures AccountHostRows(AfterMove(db, from, to), from, ids) == {}
  {
    var db' := AfterMove(db, from, to);
    forall j | j in FullJoin(db') ensures j.sp.acc != from {
      var s := MoveTables.MovedRowFrom(db.systems, from, to, j.sp);
    }
  }

  /** A system outside `from` keeps its row. */
  lemma StaysInPlace(db: Content, from: int, to: int, s: AccKey)
    requires from != to && MoveTables.NoKeyCollision(db.systems.Keys, from, to) && s.acc != from
    requires s in db.systems
    ensures s in AfterMove(db, from, to).systems && AfterMove(db, from, to).systems[s] == db.systems[s]
  {
    MoveTables.MovedRowAt(db.systems, from, to, s);
  }

  /** The rows under `to` after the move are those before it and the adopted ones. */
  lemma RowsUnderTo(db: Content, from: int, to: int, j: Joined)
    requires from != to && MoveTables.NoKeyCollision(db.systems.Keys, from, to) && j.sp.acc == to
    ensures j in FullJoin(AfterMove(db, from, to)) <==> j in FullJoin(db) || j in Adopted(db, from, to)
  {
    if j in FullJoin(db) {
      StaysInPlace(db, from, to, j.sp);
    }
    if j in FullJoin(AfterMove(db, from, to)) && SystemOf(j.spkg) in db.systems {
      assert SystemOf(j.spkg) == j.sp;
      StaysInPlace(db, from, to, j.sp);
    }
  }

  lemma HostRowsUnderTo(db: Content, from: int, to: int, ids: set<string>)
    requires from != to && MoveTables.NoKeyCollision(db.systems.Keys, from, to)
    ensures AccountHostRows(db, to, ids) <= AccountHostRows(AfterMove(db, from, to), to, ids)
    ensures AccountHostRows(AfterMove(db, from, to), to, ids) == AccountHostRows(db, to, ids) <==>
            forall j | j in Adopted(db, from, to) :: j.ih !in ids
  {
    var db' := AfterMove(db, from, to);
    forall j: Joined | j.sp.acc == to
      ensures j in FullJoin(db') <==> j in FullJoin(db) || j in Adopted(db, from, to)
    {
      RowsUnderTo(db, from, to, j);
    }
    forall j | j in Adopted(db, from, to) ensures j !in FullJoin(db) && j in FullJoin(db') && j.sp.acc == to {
      assert SystemOf(j.spkg) == j.sp;
    }
    if j :| j in Adopted(db, from, to) && j.ih in ids {
      assert j in AccountHostRows(db', to, ids) && j !in AccountHostRows(db, to, ids);
    }
  }

  // ----- The answers -----

  /** Grouping reads only the package rows, which the move leaves alone. */
  lemma GroupsIgnoreSystems(db: Content, from: int, to: int, rows: set<Joined>)
    requires MoveTables.NoKeyCollision(db.systems.Keys, from, to)
    ensures GroupedBy(AfterMove(db, from, to), rows, PackageOf) == GroupedBy(db, rows, PackageOf)
  {
    var db' := AfterMove(db, from, to);
    forall k, col ensures Group(db', rows, PackageOf, k, col) == Group(db, rows, PackageOf, k, col) {
    }
    forall k ensures Lookup(GroupedBy(db', rows, PackageOf), k) == Lookup(GroupedBy(db, rows, PackageOf), k) {
      GroupedByAt(db', rows, PackageOf, k);
      GroupedByAt(db, rows, PackageOf, k);
    }
    SameMap(GroupedBy(db', rows, PackageOf), GroupedBy(db, rows, PackageOf));
  }

  lemma NoRowsNoAnswer(db: Content, account: int, ids: set<string>)
    requires AccountHostRows(db, account, ids) == {}
    ensures PackagesByHostIDs(db, account, ids) == map[]
  {
    forall k ensures k !in PackagesByHostIDs(db, account, ids) {
      GroupedByAt(db, {}, PackageOf, k);
    }
  }

  /** After the move the old account has no answer at all, whatever the hosts asked for. */
  lemma OldAccountHasNoAnswer(db: Content, from: int, to: int, ids: set<string>)
    requires from != to && MoveTables.NoKeyCollision(db.systems.Keys, from, to)
    ensures PackagesByHostIDs(AfterMove(db, from, to), from, ids) == map[]
  {
    NoRowsUnderFrom(db, from, to, ids);
    NoRowsNoAnswer(AfterMove(db, from, to), from, ids);
  }

  /** The new account answers as before, moved hosts or not, iff no left-over package row is adopted on such a host. */
  lemma NewAccountAnswersAsBeforeIff(db: Content, from: int, to: int, ids: set<string>)
    requires from != to && MoveTables.NoKeyCollision(db.systems.Keys, from, to)
    ensures PackagesByHostIDs(AfterMove(db, from, to), to, ids) == PackagesByHostIDs(db, to, ids) <==>
            forall j | j in Adopted(db, from, to) :: j.ih !in ids
  {
    var db' := AfterMove(db, from, to);
    HostRowsUnderTo(db, from, to, ids);
    GroupsIgnoreSystems(db, from, to, AccountHostRows(db, to, ids));
    SameGroupsIffSameRows(db', AccountHostRows(db, to, ids), AccountHostRows(db', to, ids));
  }

  /** The hosts that the baseline query asks for. */
  function UngroupedHosts(db: Content): set<string> {
    set h | h in db.hosts && db.hosts[h] == Some([])
  }

  /** The baseline query is the host query on the ungrouped hosts. */
  lemma BaselineIsHostQuery(db: Content, account: int)
    ensures PackagesByAccount(db, account) == PackagesByHostIDs(db, account, UngroupedHosts(db))
  {
    assert UngroupedRows(db, account) == AccountHostRows(db, account, UngroupedHosts(db));
  }

  // ----- Conservation -----

  /** A joined package row of an account shows in its answer. */
  lemma RowIsAnswered(db: Content, account: int, ids: set<string>, j: Joined)
    requires j in AccountHostRows(db, account, ids)
    ensures var k := AccKey(account, db.packages[j.spkg].nameId);
            k in PackagesByHostIDs(db, account, ids) && PackagesByHostIDs(db, account, ids)[k].installed > 0
  {
    var k := AccKey(account, db.packages[j.spkg].nameId);
    var rows := AccountHostRows(db, account, ids);
    assert j in Group(db, rows, PackageOf, k, Installed);
    GroupedByAt(db, rows, PackageOf, k);
    CountsAreOrdered(db, rows, PackageOf, k);
  }

  /**
   The two accounts together keep their package counts on the given hosts iff no joined package row
   of `from` is on one of them: what is moved is lost.
   */
  lemma CountsKeptIff(db: Content, from: int, to: int, ids: set<string>)
    requires from != to && MoveTables.NoKeyCollision(db.systems.Keys, from, to) && PackagesLinked(db)
    ensures var before, before' := PackagesByHostIDs(db, from, ids), PackagesByHostIDs(db, to, ids);
            var db' := AfterMove(db, from, to);
            var after, after' := PackagesByHostIDs(db', from, ids), PackagesByHostIDs(db', to, ids);
            (forall name ::
               var f, t := AccKey(from, name), AccKey(to, name);
               && (if f in after then after[f].installed else 0) + (if t in after' then after'[t].installed else 0) ==
                  (if f in before then before[f].installed else 0) + (if t in before' then before'[t].installed else 0)
               && (if f in after then after[f].installable else 0)
                  + (if t in after' then after'[t].installable else 0) ==
                  (if f in before then before[f].installable else 0)
                  + (if t in before' then before'[t].installable else 0)
               && (if f in after then after[f].applicable else 0)
                  + (if t in after' then after'[t].applicable else 0) ==
                  (if f in before then before[f].applicable else 0)
                  + (if t in before' then before'[t].applicable else 0)) <==>
            AccountHostRows(db, from, ids) == {}
  {
    var before, after' := PackagesByHostIDs(db, from, ids), PackagesByHostIDs(AfterMove(db, from, to), to, ids);
    AdoptsNothing(db, from, to);
    OldAccountHasNoAnswer(db, from, to, ids);
    NewAccountAnswersAsBeforeIff(db, from, to, ids);
    if j :| j in AccountHostRows(db, from, ids) {
      var name := db.packages[j.spkg].nameId;
      RowIsAnswered(db, from, ids, j);
      assert AccKey(from, name) in before && before[AccKey(from, name)].installed > 0;
      assert AccKey(to, name) in after' ==> after'[AccKey(to, name)].installed >= 0;
    } else {
      NoRowsNoAnswer(db, from, ids);
    }
  }

  lemma BaselineLosesAll(db: Content, from: int, to: int)
    requires from != to && MoveTables.NoKeyCollision(db.systems.Keys, from, to) && PackagesLinked(db)
    requires forall s | s in db.systems :: s.acc != to
    ensures PackagesByAccount(AfterMove(db, from, to), from) == map[]
    ensures PackagesByAccount(AfterMove(db, from, to), to) == map[]
  {
    var db', ids := AfterMove(db, from, to), UngroupedHosts(db);
    BaselineIsHostQuery(db', from);
    BaselineIsHostQuery(db', to);
    OldAccountHasNoAnswer(db, from, to, ids);
    AdoptsNothing(db, from, to);
    NewAccountAnswersAsBeforeIff(db, from, to, ids);
    NoRowsNoAnswer(db, to, ids);
  }

  lemma SingleHostIsAnswered(row: System)
    ensures AccKey(1, 9) in PackagesByAccount(SingleHost(row, Some([])), 1)
  {
    var db := SingleHost(row, Some([]));
    var j := Joined(AccKey(1, 1), LinkKey(1, 1, 5), 1, row.inventoryId);
    SingleHostJoins(row, Some([]));
    assert j in UngroupedRows(db, 1) && db.packages[j.spkg].nameId == 9;
    assert j in Group(db, UngroupedRows(db, 1), PackageOf, AccKey(1, 9), Installed);
    GroupedByAt(db, UngroupedRows(db, 1), PackageOf, AccKey(1, 9));
  }

  lemma SingleHostIsMovable(row: System)
    ensures var db := SingleHost(row, Some([]));
            && MoveTables.NoKeyCollision(db.systems.Keys, 1, 2) && PackagesLinked(db)
            && forall s | s in db.systems :: s.acc == 1
  {
  }

  /** The lost counts at a real input: one system with one package on an ungrouped host. */
  lemma MovedCountsAreLost(row: System)
    ensures var db := SingleHost(row, Some([]));
            && MoveTables.NoKeyCollision(db.systems.Keys, 1, 2)
            && AccKey(1, 9) in PackagesByAccount(db, 1)
            && PackagesByAccount(AfterMove(db, 1, 2), 1) == map[]
            && PackagesByAccount(AfterMove(db, 1, 2), 2) == map[]
  {
    SingleHostIsAnswered(row);
    SingleHostIsMovable(row);
    BaselineLosesAll(SingleHost(row, Some([])), 1, 2);
  }
}

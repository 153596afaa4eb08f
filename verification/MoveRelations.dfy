/**
 What MoveSystems writes to the relationship store, how it keeps the store in step with the
 database, and that migrating and moving commute.
 */
module MoveRelations {
  import opened Keys
  import opened Tables
  import opened Naming
  import opened Relationships
  import opened MigrationStream
  import opened MoveTables

  // ----- system_platform JOIN inventory.hosts -----

  function JoinedRows(systems: SystemTable, hosts: set<string>): set<HostRow> {
    set s | s in systems && systems[s].inventoryId in hosts :: HostRow(s.id, systems[s].inventoryId, s.acc)
  }

  /** The rows of the migration's query, in whatever order the database returns them. */
  ghost predicate Enumerates(rows: seq<HostRow>, systems: SystemTable, hosts: set<string>) {
    forall r :: r in rows <==> r in JoinedRows(systems, hosts)
  }

  function HostsOf(systems: SystemTable, hosts: set<string>, acc: int): set<string> {
    set s | s in systems && s.acc == acc && systems[s].inventoryId in hosts :: systems[s].inventoryId
  }

  // ----- The update list of MoveSystems -----

  function HostMove(host: string, from: int, to: int): seq<Update> {
    [Delete(HostWorkspace(host, UngroupedId(from))), Touch(HostWorkspace(host, UngroupedId(to)))]
  }

  function MoveUpdates(hs: seq<string>, from: int, to: int): seq<Update> {
    if hs == [] then [] else MoveUpdates(hs[..|hs| - 1], from, to) + HostMove(hs[|hs| - 1], from, to)
  }

  function Ungrouped(hs: set<string>, acc: int): Store {
    set h | h in hs :: HostWorkspace(h, UngroupedId(acc))
  }

  /** The store with the given hosts taken from one ungrouped workspace to another. */
  function MovedHosts(store: Store, hs: set<string>, from: int, to: int): Store {
    store - Ungrouped(hs, from) + Ungrouped(hs, to)
  }

  function SetOf(hs: seq<string>): set<string> {
    set h | h in hs
  }

  lemma HostMoveMoves(store: Store, h: string, from: int, to: int)
    ensures ApplyAll(store, HostMove(h, from, to)) ==
            store - {HostWorkspace(h, UngroupedId(from))} + {HostWorkspace(h, UngroupedId(to))}
  {
    var us := HostMove(h, from, to);
    assert us[..1][..0] == [];
    assert ApplyAll(store, us[..1][..0]) == store;
    assert us[..1][0] == us[0] && ApplyAll(store, us[..1]) == Apply(store, us[0]);
  }

  /** The list of deletes and touches, written in order, moves exactly the listed hosts. */
  lemma {:induction false} MoveUpdatesMoveHosts(store: Store, hs: seq<string>, from: int, to: int)
    ensures ApplyAll(store, MoveUpdates(hs, from, to)) == MovedHosts(store, SetOf(hs), from, to)
    decreases |hs|
  {
    if hs == [] {
      assert MovedHosts(store, SetOf(hs), from, to) == store;
    } else {
      var n := |hs| - 1;
      MoveUpdatesMoveHosts(store, hs[..n], from, to);
      ApplyAllAppend(store, MoveUpdates(hs[..n], from, to), HostMove(hs[n], from, to));
      HostMoveMoves(MovedHosts(store, SetOf(hs[..n]), from, to), hs[n], from, to);
      OneMoreHost(store, SetOf(hs[..n]), hs[n], from, to);
      LastInSet(hs);
    }
  }

  lemma UngroupedTuples(systems: SystemTable, hosts: set<string>, acc: int, workspace: int, r: Rel)
    ensures r in Ungrouped(HostsOf(systems, hosts, acc), workspace) <==>
            exists s :: && s in systems && s.acc == acc && systems[s].inventoryId in hosts
                        && r == Rel(Host, systems[s].inventoryId, InWorkspace,
                                    Workspace, Decimal(workspace) + "_root/ungrouped", false)
  {
    assert UngroupedId(workspace) == Decimal(workspace) + "_root/ungrouped";
    if s :| && s in systems && s.acc == acc && systems[s].inventoryId in hosts
            && r == HostWorkspace(systems[s].inventoryId, UngroupedId(workspace)) {
      assert systems[s].inventoryId in HostsOf(systems, hosts, acc);
    }
  }

  /**
   What a completed move makes of the store, in tuples: every joined system of the old account has
   its host taken out of the old ungrouped workspace and put into the new one.
   */
  lemma MovedTuples(store: Store, systems: SystemTable, hosts: set<string>, from: int, to: int, r: Rel)
    ensures var old_, new_ := Decimal(from) + "_root/ungrouped", Decimal(to) + "_root/ungrouped";
            r in MovedHosts(store, HostsOf(systems, hosts, from), from, to) <==>
            || (exists s :: && s in systems && s.acc == from && systems[s].inventoryId in hosts
                            && r == Rel(Host, systems[s].inventoryId, InWorkspace, Workspace, new_, false))
            || (r in store &&
                !(exists s :: && s in systems && s.acc == from && systems[s].inventoryId in hosts
                              && r == Rel(Host, systems[s].inventoryId, InWorkspace, Workspace, old_, false)))
  {
    UngroupedTuples(systems, hosts, from, from, r);
    UngroupedTuples(systems, hosts, from, to, r);
  }

  lemma LastInSet(hs: seq<string>)
    requires hs != []
    ensures SetOf(hs) == SetOf(hs[..|hs| - 1]) + {hs[|hs| - 1]}
  {
  }

  lemma OneMoreHost(store: Store, hs: set<string>, h: string, from: int, to: int)
    ensures MovedHosts(store, hs, from, to)
            - {HostWorkspace(h, UngroupedId(from))} + {HostWorkspace(h, UngroupedId(to))} ==
            MovedHosts(store, hs + {h}, from, to)
  {
  }

  // ----- The database and the store in step -----

  /** The host tuples that the database stands for: every joined system's host is ungrouped in its account. */
  function HostTuples(systems: SystemTable, hosts: set<string>): Store {
    set s | s in systems && systems[s].inventoryId in hosts :: HostWorkspace(systems[s].inventoryId, UngroupedId(s.acc))
  }

  lemma HostTuplesOf(systems: SystemTable, hosts: set<string>, acc: int, h: string)
    ensures HostWorkspace(h, UngroupedId(acc)) in HostTuples(systems, hosts) <==> h in HostsOf(systems, hosts, acc)
  {
    if HostWorkspace(h, UngroupedId(acc)) in HostTuples(systems, hosts) {
      var s :| s in systems && systems[s].inventoryId in hosts &&
               HostWorkspace(systems[s].inventoryId, UngroupedId(s.acc)) == HostWorkspace(h, UngroupedId(acc));
      WorkspaceNamesDistinct(s.acc, acc);
    }
    if h in HostsOf(systems, hosts, acc) {
      var s :| s in systems && s.acc == acc && systems[s].inventoryId in hosts && systems[s].inventoryId == h;
      assert HostWorkspace(systems[s].inventoryId, UngroupedId(s.acc)) == HostWorkspace(h, UngroupedId(acc));
    }
  }

  /** Moving the rows and reading off the tuples is reading off the tuples and moving the hosts. */
  lemma MovedHostTuples(systems: SystemTable, hosts: set<string>, from: int, to: int)
    requires from != to && NoKeyCollision(systems.Keys, from, to)
    ensures HostTuples(MovedRows(systems, from, to), hosts) ==
            MovedHosts(HostTuples(systems, hosts), HostsOf(systems, hosts, from), from, to)
  {
    var systems' := MovedRows(systems, from, to);
    var hs := HostsOf(systems, hosts, from);
    var after := MovedHosts(HostTuples(systems, hosts), hs, from, to);
    forall r | r in HostTuples(systems', hosts) ensures r in after {
      var s' :| s' in systems' && systems'[s'].inventoryId in hosts &&
                r == HostWorkspace(systems'[s'].inventoryId, UngroupedId(s'.acc));
      var s := MovedRowFrom(systems, from, to, s');
      WorkspaceNamesDistinct(s'.acc, from);
      assert HostWorkspace(systems[s].inventoryId, UngroupedId(s.acc)) in HostTuples(systems, hosts);
    }
    forall r | r in after ensures r in HostTuples(systems', hosts) {
      var s :| s in systems && systems[s].inventoryId in hosts &&
               r == HostWorkspace(systems[s].inventoryId, UngroupedId(MoveKey(s, from, to).acc));
      MovedRowAt(systems, from, to, s);
    }
  }

  /** After the move the new account has the hosts of both. */
  lemma MovedHostsOf(systems: SystemTable, hosts: set<string>, from: int, to: int)
    requires from != to && NoKeyCollision(systems.Keys, from, to)
    ensures HostsOf(MovedRows(systems, from, to), hosts, to) ==
            HostsOf(systems, hosts, from) + HostsOf(systems, hosts, to)
  {
    var systems' := MovedRows(systems, from, to);
    var both := HostsOf(systems, hosts, from) + HostsOf(systems, hosts, to);
    forall h | h in HostsOf(systems', hosts, to) ensures h in both {
      var s' :| s' in systems' && s'.acc == to && systems'[s'].inventoryId in hosts && systems'[s'].inventoryId == h;
      var s := MovedRowFrom(systems, from, to, s');
    }
    forall h | h in both ensures h in HostsOf(systems', hosts, to) {
      var s :| s in systems && (s.acc == from || s.acc == to) &&
               systems[s].inventoryId in hosts && systems[s].inventoryId == h;
      MovedRowAt(systems, from, to, s);
    }
  }

  /** Account and store agree: the host tuples of the store are those of the database. */
  ghost predicate InStep(store: Store, systems: SystemTable, hosts: set<string>) {
    forall r | IsHostWorkspace(r) :: r in store <==> r in HostTuples(systems, hosts)
  }

  /** A completed move keeps database and store in step. */
  lemma MoveKeepsInStep(store: Store, systems: SystemTable, hosts: set<string>, from: int, to: int)
    requires from != to && NoKeyCollision(systems.Keys, from, to) && InStep(store, systems, hosts)
    ensures InStep(MovedHosts(store, HostsOf(systems, hosts, from), from, to), MovedRows(systems, from, to), hosts)
  {
    MovedHostTuples(systems, hosts, from, to);
  }

  /** A move whose commit is rolled back leaves the two out of step iff there was a host to move. */
  lemma LostCommitDivergesIff(store: Store, systems: SystemTable, hosts: set<string>, from: int, to: int)
    requires from != to && InStep(store, systems, hosts)
    ensures InStep(MovedHosts(store, HostsOf(systems, hosts, from), from, to), systems, hosts) <==>
            HostsOf(systems, hosts, from) == {}
  {
    var hs := HostsOf(systems, hosts, from);
    if h :| h in hs {
      WorkspaceNamesDistinct(from, to);
      HostTuplesOf(systems, hosts, from, h);
      assert HostWorkspace(h, UngroupedId(from)) !in MovedHosts(store, hs, from, to);
    }
  }

  /** A move keeps the hierarchy closed iff it moves no host or the new account has been linked. */
  lemma MoveKeepsClosedIff(store: Store, hs: set<string>, from: int, to: int)
    requires from != to && Closed(store)
    ensures Closed(MovedHosts(store, hs, from, to)) <==> hs == {} || Linked(store, to)
  {
    var moved := MovedHosts(store, hs, from, to);
    if hs == {} {
      assert moved == store;
    } else if Linked(store, to) {
      MovedHostsStayClosed(store, hs, from, to);
    } else {
      var h :| h in hs;
      assert HostWorkspace(h, UngroupedId(to)) in Ungrouped(hs, to);
      forall org | UngroupedId(org) == UngroupedId(to) ensures !Linked(moved, org) {
        WorkspaceNamesDistinct(org, to);
      }
      assert !HostIsLinked(moved, HostWorkspace(h, UngroupedId(to)));
    }
  }

  lemma MovedHostsStayClosed(store: Store, hs: set<string>, from: int, to: int)
    requires Closed(store) && Linked(store, to)
    ensures Closed(MovedHosts(store, hs, from, to))
  {
    var moved := MovedHosts(store, hs, from, to);
    forall r | r in moved && IsHostWorkspace(r) ensures HostIsLinked(moved, r) {
      if r in Ungrouped(hs, to) {
        assert Linked(moved, to);
      } else {
        assert HostIsLinked(store, r);
        var org :| r == HostWorkspace(r.resourceId, UngroupedId(org)) && Linked(store, org);
        assert Linked(moved, org);
      }
    }
    forall r | r in moved && IsSystemHost(r) ensures SystemIsLinked(moved, r) {
      assert SystemIsLinked(store, r);
      var w :| HostWorkspace(r.subjectId, w) in store;
      assert HostWorkspace(r.subjectId, w) in moved || HostWorkspace(r.subjectId, UngroupedId(to)) in moved;
    }
  }

  /** The stores at odds at a real input: one host, written as moved while the database keeps it. */
  lemma LostCommitDiverges(row: System)
    ensures var systems := map[AccKey(1, 1) := row];
            var store := {HostWorkspace(row.inventoryId, UngroupedId(1))};
            && InStep(store, systems, {row.inventoryId})
            && !InStep(MovedHosts(store, HostsOf(systems, {row.inventoryId}, 1), 1, 2), systems, {row.inventoryId})
  {
    var systems, hosts := map[AccKey(1, 1) := row], {row.inventoryId};
    var store := {HostWorkspace(row.inventoryId, UngroupedId(1))};
    assert AccKey(1, 1) in systems && row.inventoryId in HostsOf(systems, hosts, 1);
    HostTuplesOf(systems, hosts, 1, row.inventoryId);
    assert HostTuples(systems, hosts) == store;
    LostCommitDivergesIff(store, systems, hosts, 1, 2);
  }

  /** The hierarchy opened at a real input: one migrated host is moved to an account that was never migrated. */
  lemma UnlinkedTargetOpensHierarchy(host: string)
    ensures var store := ApplyAll({}, Stream([HostRow(1, host, 1)], {}));
            Closed(store) && !Closed(MovedHosts(store, {host}, 1, 2))
  {
    var rows := [HostRow(1, host, 1)];
    var us := Stream(rows, {});
    var store := ApplyAll({}, us);
    assert us[..|us|] == us;
    EveryPrefixIsClosed({}, rows, {}, |us|);
    StreamAdds({}, rows, {}, RootParent(2));
    WorkspaceNamesDistinct(1, 2);
    WorkspaceNamesDistinct(2, 1);
    assert !Linked(store, 2);
    MoveKeepsClosedIff(store, {host}, 1, 2);
  }

  // ----- Migrating and moving commute -----

  lemma MigratedHosts(store: Store, rows: seq<HostRow>, known: set<int>, systems: SystemTable, hosts: set<string>,
                      r: Rel)
    requires Enumerates(rows, systems, hosts) && IsHostWorkspace(r)
    ensures r in ApplyAll(store, Stream(rows, known)) <==> r in store || r in HostTuples(systems, hosts)
  {
    StreamAdds(store, rows, known, r);
    if Emits(rows, known, Touch(r)) {
      var row :| row in rows && EmittedFor(Touch(r), row, known);
      assert row in JoinedRows(systems, hosts);
    }
    if r in HostTuples(systems, hosts) {
      var s :| s in systems && systems[s].inventoryId in hosts &&
               r == HostWorkspace(systems[s].inventoryId, UngroupedId(s.acc));
      var row := HostRow(s.id, systems[s].inventoryId, s.acc);
      assert row in JoinedRows(systems, hosts) && row in rows && EmittedFor(Touch(r), row, known);
    }
  }

  function SystemTuples(systems: SystemTable, hosts: set<string>): Store {
    set s | s in systems && systems[s].inventoryId in hosts :: SystemHost(Decimal(s.id), systems[s].inventoryId)
  }

  lemma MigratedSystems(store: Store, rows: seq<HostRow>, known: set<int>, systems: SystemTable, hosts: set<string>,
                        r: Rel)
    requires Enumerates(rows, systems, hosts) && IsSystemHost(r)
    ensures r in ApplyAll(store, Stream(rows, known)) <==> r in store || r in SystemTuples(systems, hosts)
  {
    StreamAdds(store, rows, known, r);
    if Emits(rows, known, Touch(r)) {
      var row :| row in rows && EmittedFor(Touch(r), row, known);
      assert row in JoinedRows(systems, hosts);
    }
    if r in SystemTuples(systems, hosts) {
      var s :| s in systems && systems[s].inventoryId in hosts &&
               r == SystemHost(Decimal(s.id), systems[s].inventoryId);
      var row := HostRow(s.id, systems[s].inventoryId, s.acc);
      assert row in JoinedRows(systems, hosts) && row in rows && EmittedFor(Touch(r), row, known);
    }
  }

  /** A move changes neither the id nor the host of a system. */
  lemma MovedSystemTuples(systems: SystemTable, hosts: set<string>, from: int, to: int)
    requires NoKeyCollision(systems.Keys, from, to)
    ensures SystemTuples(MovedRows(systems, from, to), hosts) == SystemTuples(systems, hosts)
  {
  }

  /**
   Migrating everything and then moving an account gives the same host and system tuples as moving
   first and migrating then, from any store, in any row order and whatever the migrators knew.
   */
  lemma MigrateAndMoveCommute(store: Store, systems: SystemTable, hosts: set<string>, from: int, to: int,
                              rows: seq<HostRow>, known: set<int>, rows': seq<HostRow>, known': set<int>, r: Rel)
    requires from != to && NoKeyCollision(systems.Keys, from, to)
    requires Enumerates(rows, systems, hosts) && Enumerates(rows', MovedRows(systems, from, to), hosts)
    requires IsHostWorkspace(r) || IsSystemHost(r)
    ensures var hs := HostsOf(systems, hosts, from);
            r in MovedHosts(ApplyAll(store, Stream(rows, known)), hs, from, to) <==>
            r in ApplyAll(MovedHosts(store, hs, from, to), Stream(rows', known'))
  {
    var hs := HostsOf(systems, hosts, from);
    var moved := MovedHosts(store, hs, from, to);
    if IsHostWorkspace(r) {
      MigratedHosts(store, rows, known, systems, hosts, r);
      MigratedHosts(moved, rows', known', MovedRows(systems, from, to), hosts, r);
      MovedHostTuples(systems, hosts, from, to);
    } else {
      MigratedSystems(store, rows, known, systems, hosts, r);
      MigratedSystems(moved, rows', known', MovedRows(systems, from, to), hosts, r);
      MovedSystemTuples(systems, hosts, from, to);
    }
  }
}

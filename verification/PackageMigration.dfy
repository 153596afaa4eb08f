/** The migration of packages from start to end: the tuples it writes, and who can read a package after it. */
module PackageMigration {
  import opened Naming
  import opened Relationships
  import opened MigrationStream
  import opened Migration
  import opened Permissions
  import opened PreFilter

  // ----- What the migration writes -----

  /** Applying the stream of the first `n` rows adds one tuple patch#system@system for each of them and nothing else. */
  lemma PackagesAdd(store: Store, rows: seq<PatchRow>, r: Rel)
    ensures r in ApplyAll(store, PatchStream(rows)) <==>
            || r in store
            || exists row ::
                 row in rows && r == Rel(Patch, Decimal(row.nameId), HasSystem, System, Decimal(row.systemId), false)
  {
    var us := PatchStream(rows);
    TouchesAdd(store, us);
    if Touch(r) in us {
      var i :| 0 <= i < |us| && us[i] == Touch(r);
      assert rows[i] in rows && Touch(r) == PatchUpdate(rows[i]);
    }
    if row :| row in rows && Touch(r) == PatchUpdate(row) {
      var i :| 0 <= i < |rows| && rows[i] == row;
      assert us[i] == Touch(r);
    }
  }

  /** However the migration of packages ends, the store has the tuples of some first rows, of all of them on success. */
  lemma PackagesWritten(initial: Store, fails: set<nat>, p: Progress, q: Progress, rows: seq<PatchRow>,
                        undecodable: bool, failed: bool) returns (n: nat)
    requires p.buffer == [] && Ended(fails, p, q, PatchStream(rows), undecodable, failed)
    ensures n <= |rows| && (!failed ==> n == |rows|)
    ensures forall r :: r in ApplyAll(initial, q.history) <==>
                        || r in ApplyAll(initial, p.history)
                        || exists i :: && 0 <= i < n
                                       && r == Rel(Patch, Decimal(rows[i].nameId), HasSystem,
                                                   System, Decimal(rows[i].systemId), false)
  {
    var us := PatchStream(rows);
    n := SentPrefix(fails, p, q, us);
    assert us[..n] == PatchStream(rows[..n]);
    if !failed {
      assert p.history + p.buffer == p.history;
    }
    ApplyAllAppend(initial, p.history, us[..n]);
    forall r
      ensures r in ApplyAll(initial, q.history) <==>
              || r in ApplyAll(initial, p.history)
              || exists i :: && 0 <= i < n
                             && r == Rel(Patch, Decimal(rows[i].nameId), HasSystem,
                                         System, Decimal(rows[i].systemId), false)
    {
      PackagesAdd(ApplyAll(initial, p.history), rows[..n], r);
      assert forall i | 0 <= i < n :: rows[i] in rows[..n];
    }
  }

  /**
   The package migration command: a fresh migrator and one run of it. The run sends one update per
   row and fails iff a row cannot be decoded or a call it needs fails; the store gets the tuples
   patch#system@system of the first rows, of all rows when the run succeeds.
   */
  method MigratePackagesToSpiceDb(spiceDb: SpiceDb, rows: seq<PatchRow>, queryFails: bool, undecodable: bool)
    returns (failed: bool, ghost sent: nat)
    requires spiceDb.Valid()
    modifies spiceDb
    ensures spiceDb.Valid()
    ensures queryFails ==> failed && spiceDb.store == old(spiceDb.store)
    ensures !queryFails ==>
              (failed <==>
               || undecodable
               || exists call :: && call in spiceDb.fails && old(spiceDb.calls) <= call
                                 && (call == old(spiceDb.calls) || 100 * (call - old(spiceDb.calls)) < |rows|))
    ensures sent <= |rows| && (!failed ==> sent == |rows|)
    ensures forall r :: r in spiceDb.store <==>
                        || r in old(spiceDb.store)
                        || exists i :: && 0 <= i < sent
                                       && r == Rel(Patch, Decimal(rows[i].nameId), HasSystem,
                                                   System, Decimal(rows[i].systemId), false)
  {
    var migrator := new Migrator(spiceDb);
    ghost var p := migrator.State();
    ghost var before := spiceDb.store;
    assert before == ApplyAll(spiceDb.initial, p.history);
    failed := migrator.MigratePackages(rows, queryFails, undecodable);
    ghost var q := migrator.State();
    assert spiceDb.store == ApplyAll(spiceDb.initial, q.history);
    sent := 0;
    if !queryFails {
      FailsIffNeededCallFails(spiceDb.fails, p.calls, |rows|, undecodable, failed);
      sent := PackagesWritten(spiceDb.initial, spiceDb.fails, p, q, rows, undecodable, failed);
    }
  }

  // ----- Who can read a package afterwards -----

  /** Stores that differ in package tuples only. */
  ghost predicate SameButPackages(store: Store, after: Store) {
    forall r: Rel | r.resourceType != Patch :: r in after <==> r in store
  }

  lemma PackagesKeepEdges(store: Store, after: Store)
    requires SameButPackages(store, after)
    ensures GroupEdges(after) == GroupEdges(store) && ParentEdges(after) == ParentEdges(store)
    ensures forall user :: GroupsOf(after, user) == GroupsOf(store, user)
  {
  }

  /** Package tuples change nothing about the permissions on hosts and systems. */
  lemma PackagesKeepPermissions(store: Store, after: Store, user: string)
    requires SameButPackages(store, after) && WellFounded(store)
    ensures WellFounded(after)
    ensures forall h :: HostRead(after, user, h) <==> HostRead(store, user, h)
    ensures forall h :: HostPatchRead(after, user, h) <==> HostPatchRead(store, user, h)
    ensures forall s :: SystemRead(after, user, s) <==> SystemRead(store, user, s)
  {
    PackagesKeepEdges(store, after);
    assert forall b :: IsSubject(after, user, b) <==> IsSubject(store, user, b);
    assert forall p :: Granting(after, user, p) == Granting(store, user, p);
    assert forall h, p :: HostPermits(after, user, h, p) <==> HostPermits(store, user, h, p);
  }

  lemma PackageTuple(store: Store, rows: seq<PatchRow>, n: int, s: string)
    requires forall r | r in store :: r.resourceType != Patch
    ensures PatchSystem(Decimal(n), s) in ApplyAll(store, PatchStream(rows)) <==>
            exists row :: row in rows && row.nameId == n && Decimal(row.systemId) == s
  {
    PackagesAdd(store, rows, PatchSystem(Decimal(n), s));
    forall row | row in rows
      ensures PatchSystem(Decimal(n), s) == PatchSystem(Decimal(row.nameId), Decimal(row.systemId)) <==>
              row.nameId == n && Decimal(row.systemId) == s
    {
      if Decimal(n) == Decimal(row.nameId) {
        DecimalInjective(n, row.nameId);
      }
    }
  }

  /** A user reads a migrated package iff one of its rows has a system that the user reads. */
  lemma MigratedPackageIsRead(store: Store, rows: seq<PatchRow>, user: string, n: int)
    requires WellFounded(store)
    requires forall r | r in store :: r.resourceType != Patch
    ensures var after := ApplyAll(store, PatchStream(rows));
            && WellFounded(after)
            && (PatchRead(after, user, Decimal(n)) <==>
                exists row :: row in rows && row.nameId == n && SystemRead(store, user, Decimal(row.systemId)))
  {
    var after := ApplyAll(store, PatchStream(rows));
    forall r: Rel | r.resourceType != Patch ensures r in after <==> r in store {
      PackagesAdd(store, rows, r);
    }
    PackagesKeepPermissions(store, after, user);
    forall s
      ensures PatchSystem(Decimal(n), s) in after <==>
              exists row :: row in rows && row.nameId == n && Decimal(row.systemId) == s
    {
      PackageTuple(store, rows, n, s);
    }
  }

  lemma MigratedSystemIsRead(store: Store, hosts: seq<HostRow>, user: string, s: int)
    requires forall r | r in store :: r.resourceType != System
    requires forall q, r | q in hosts && r in hosts && q.systemId == r.systemId :: q.hostId == r.hostId
    requires WellFounded(Migrated(store, hosts))
    ensures var migrated := Migrated(store, hosts);
            SystemRead(migrated, user, Decimal(s)) <==>
            exists host :: && host in hosts && host.systemId == s
                           && HostRead(migrated, user, host.hostId) && HostPatchRead(migrated, user, host.hostId)
  {
    var migrated := Migrated(store, hosts);
    MigratedOneHostIff(store, hosts);
    SystemReadIff(migrated, user, Decimal(s));
    if SystemRead(migrated, user, Decimal(s)) {
      var h :| ReadableThrough(migrated, user, Decimal(s), h);
      MigratedSystemTuple(store, hosts, SystemHost(Decimal(s), h));
      var host :| host in hosts && SystemHost(Decimal(s), h) == SystemHost(Decimal(host.systemId), host.hostId);
      DecimalInjective(s, host.systemId);
    }
    if host :| && host in hosts && host.systemId == s
               && HostRead(migrated, user, host.hostId) && HostPatchRead(migrated, user, host.hostId) {
      MigratedSystemTuple(store, hosts, SystemHost(Decimal(s), host.hostId));
      assert ReadableThrough(migrated, user, Decimal(s), host.hostId);
    }
  }

  /**
   Both migrations into a store without tuples of systems and packages, with one host per system: a
   user reads a package iff one of its rows has a system with a migrated host on which the user has
   both `read` and `patch_system_read`.
   */
  lemma PackageReadAfterMigrations(store: Store, hosts: seq<HostRow>, packages: seq<PatchRow>, user: string, n: int)
    requires forall r | r in store :: r.resourceType != System && r.resourceType != Patch
    requires forall q, r | q in hosts && r in hosts && q.systemId == r.systemId :: q.hostId == r.hostId
    requires WellFounded(Migrated(store, hosts))
    ensures var after := ApplyAll(Migrated(store, hosts), PatchStream(packages));
            && WellFounded(after)
            && (PatchRead(after, user, Decimal(n)) <==>
                exists row, host ::
                  && row in packages && host in hosts && row.nameId == n && row.systemId == host.systemId
                  && HostRead(after, user, host.hostId) && HostPatchRead(after, user, host.hostId))
  {
    var migrated := Migrated(store, hosts);
    var after := ApplyAll(migrated, PatchStream(packages));
    forall r | r in migrated ensures r.resourceType != Patch {
      StreamAdds(store, hosts, {}, r);
    }
    forall r: Rel | r.resourceType != Patch ensures r in after <==> r in migrated {
      PackagesAdd(migrated, packages, r);
    }
    PackagesKeepPermissions(migrated, after, user);
    MigratedPackageIsRead(migrated, packages, user, n);
    forall row | row in packages
      ensures SystemRead(migrated, user, Decimal(row.systemId)) <==>
              exists host :: && host in hosts && host.systemId == row.systemId
                             && HostRead(after, user, host.hostId) && HostPatchRead(after, user, host.hostId)
    {
      MigratedSystemIsRead(store, hosts, user, row.systemId);
    }
  }
}

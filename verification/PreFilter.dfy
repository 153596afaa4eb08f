/**
 The pre-filter server: host ids come from the permission lookup and restrict the query. With the
 migration and the schema this gives the end-to-end comparison with the baseline server.
 */
module PreFilter {
  import opened Common
  import opened Keys
  import opened Tables
  import opened Naming
  import opened Relationships
  import opened MigrationStream
  import opened MoveRelations
  import opened Reach
  import opened Permissions
  import opened PermissionTuples
  import opened PackageQueries
  import opened PackageCache
  import opened PackageCacheDb
  import opened MovedPackages

  // ----- The server -----

  /** What Recv returns before the end of the stream. */
  datatype Response = Resource(id: string) | StreamError

  datatype ServerError = LookupFailed | ReceiveFailed | QueryFailed

  function IdSet(responses: seq<Response>): set<string> {
    set r | r in responses && r.Resource? :: r.id
  }

  /** The Recv loop: every id up to the end of the stream, in order, unless an error comes first. */
  method Receive(responses: seq<Response>) returns (r: Result<seq<string>, ServerError>)
    ensures r.Ok? <==> forall i | 0 <= i < |responses| :: responses[i].Resource?
    ensures r.Ok? ==> && |r.value| == |responses|
                      && forall i | 0 <= i < |responses| :: responses[i] == Resource(r.value[i])
    ensures r.Ok? ==> (set id | id in r.value) == IdSet(responses)
    ensures r.Err? ==> r.error == ReceiveFailed
  {
    var hostIDs: seq<string> := [];
    var next := 0;
    while next < |responses|
      invariant 0 <= next <= |responses| && |hostIDs| == next
      invariant forall i | 0 <= i < next :: responses[i] == Resource(hostIDs[i])
    {
      if responses[next].StreamError? {
        return Err(ReceiveFailed);
      }
      hostIDs := hostIDs + [responses[next].id];
      next := next + 1;
    }
    forall id ensures id in hostIDs <==> id in IdSet(responses) {
      if id in hostIDs {
        var i :| 0 <= i < |hostIDs| && hostIDs[i] == id;
        assert responses[i] in responses && responses[i] == Resource(id);
      }
      if id in IdSet(responses) {
        var i :| 0 <= i < |responses| && responses[i].Resource? && responses[i].id == id;
        assert hostIDs[i] == id;
      }
    }
    return Ok(hostIDs);
  }

  /** GetPackagesPayload */
  method GetPackagesPayload(accountData: seq<PackageAccountData>) returns (data: seq<PackageAccountData>)
    ensures data == accountData
  {
    data := [];
    for i := 0 to |accountData|
      invariant data == accountData[..i]
    {
      data := data + [accountData[i]];
    }
  }

  /** PreFilterServer.GetContentPackages */
  method GetContentPackages(db: Content, account: int, lookupFails: bool, responses: seq<Response>, queryFails: bool)
    returns (r: Result<seq<PackageAccountData>, ServerError>)
    ensures r.Ok? <==> !lookupFails && StreamError !in responses && !queryFails
    ensures r.Err? ==> r.error == if lookupFails then LookupFailed
                                  else if StreamError in responses then ReceiveFailed
                                  else QueryFailed
    ensures r.Ok? ==> AsMap(r.value) == PackagesByHostIDs(db, account, IdSet(responses))
    ensures r.Ok? ==> r.value == RowsOf(PackagesByHostIDs(db, account, IdSet(responses)))
    ensures r.Ok? ==>
              forall row :: row in r.value <==>
                            Lookup(PackagesByHostIDs(db, account, set s | s in responses && s.Resource? :: s.id),
                                   AccKey(row.accId, row.pkgNameId)) ==
                            Some(Counts(row.sysInstalled, row.sysInstallable, row.sysApplicable))
  {
    if lookupFails {
      return Err(LookupFailed);
    }
    var hostIDs := Receive(responses);
    if hostIDs.Err? {
      return Err(hostIDs.error);
    }
    if queryFails {
      return Err(QueryFailed);
    }
    var counts := PackagesByHostIDs(db, account, set id | id in hostIDs.value);
    RowsRoundTrip(counts);
    RowsCarryCounts(counts);
    assert IdSet(responses) == set s | s in responses && s.Resource? :: s.id;
    var rows := Scan(counts);
    var payload := GetPackagesPayload(rows);
    return Ok(payload);
  }

  /** BaselineServer.GetContentPackages */
  method GetContentPackagesBaseline(db: Content, account: int, queryFails: bool)
    returns (r: Result<seq<PackageAccountData>, ServerError>)
    ensures r == if queryFails then Err(QueryFailed) else Ok(RowsOf(PackagesByAccount(db, account)))
    ensures r.Ok? ==>
              forall row :: row in r.value <==>
                            Lookup(PackagesByAccount(db, account), AccKey(row.accId, row.pkgNameId)) ==
                            Some(Counts(row.sysInstalled, row.sysInstallable, row.sysApplicable))
  {
    if queryFails {
      return Err(QueryFailed);
    }
    RowsCarryCounts(PackagesByAccount(db, account));
    var rows := Scan(PackagesByAccount(db, account));
    var payload := GetPackagesPayload(rows);
    return Ok(payload);
  }

  // ----- The store after a migration -----

  /** The store once the migration of the joined rows has succeeded. */
  function Migrated(store: Store, rows: seq<HostRow>): Store {
    ApplyAll(store, Stream(rows, {}))
  }

  lemma EmittedParentEdge(rows: seq<HostRow>, from: string, to: string)
    ensures Emits(rows, {}, Touch(Rel(Workspace, from, Parent, Workspace, to, false))) <==>
            exists r :: r in rows && from == UngroupedId(r.orgId) && to == RootId(r.orgId)
  {
  }

  /** A migration adds the edge from the ungrouped to the root workspace of every organization it meets. */
  lemma MigratedParentEdge(store: Store, rows: seq<HostRow>, from: string, to: string)
    ensures (from, to) in ParentEdges(Migrated(store, rows)) <==>
            || (from, to) in ParentEdges(store)
            || exists r :: r in rows && from == UngroupedId(r.orgId) && to == RootId(r.orgId)
  {
    ParentEdgeIsTuple(store, from, to);
    ParentEdgeIsTuple(Migrated(store, rows), from, to);
    StreamAdds(store, rows, {}, Rel(Workspace, from, Parent, Workspace, to, false));
    EmittedParentEdge(rows, from, to);
  }

  lemma MigratedGroups(store: Store, rows: seq<HostRow>)
    ensures GroupEdges(Migrated(store, rows)) == GroupEdges(store)
  {
    forall r: Rel | r.resourceType == ObjectType.Group ensures r in Migrated(store, rows) <==> r in store {
      StreamAdds(store, rows, {}, r);
    }
  }

  lemma RowAddsEdgeAt(store: Store, rows: seq<HostRow>, from: string, to: string)
    requires rows != []
    ensures var n := |rows| - 1;
            (from, to) in ParentEdges(Migrated(store, rows)) <==>
            || (from, to) in ParentEdges(Migrated(store, rows[..n]))
            || (from == UngroupedId(rows[n].orgId) && to == RootId(rows[n].orgId))
  {
    var n := |rows| - 1;
    assert rows == rows[..n] + [rows[n]];
    MigratedParentEdge(store, rows, from, to);
    MigratedParentEdge(store, rows[..n], from, to);
  }

  /** One more row adds one edge. */
  lemma RowAddsEdge(store: Store, rows: seq<HostRow>)
    requires rows != []
    ensures var n := |rows| - 1;
            ParentEdges(Migrated(store, rows)) ==
            ParentEdges(Migrated(store, rows[..n])) + {(UngroupedId(rows[n].orgId), RootId(rows[n].orgId))}
  {
    var n := |rows| - 1;
    forall d: (string, string)
      ensures d in ParentEdges(Migrated(store, rows)) <==>
              || d in ParentEdges(Migrated(store, rows[..n]))
              || d == (UngroupedId(rows[n].orgId), RootId(rows[n].orgId))
    {
      RowAddsEdgeAt(store, rows, d.0, d.1);
    }
  }

  /** No organization's root workspace is, when its row comes, already below its own ungrouped workspace. */
  ghost predicate RootsOnTop(store: Store, rows: seq<HostRow>) {
    rows == [] ||
    var n := |rows| - 1;
    && RootsOnTop(store, rows[..n])
    && !Reaches(ParentEdges(Migrated(store, rows[..n])), RootId(rows[n].orgId), UngroupedId(rows[n].orgId))
  }

  /** A migration closes no cycle iff the store has none and no root workspace is met below its ungrouped one. */
  lemma {:induction false} MigrationKeepsAcyclicIff(store: Store, rows: seq<HostRow>)
    ensures Acyclic(ParentEdges(Migrated(store, rows))) <==> Acyclic(ParentEdges(store)) && RootsOnTop(store, rows)
    decreases |rows|
  {
    if rows == [] {
      assert Migrated(store, rows) == store;
    } else {
      var n := |rows| - 1;
      MigrationKeepsAcyclicIff(store, rows[..n]);
      RowAddsEdge(store, rows);
      EdgeKeepsAcyclicIff(ParentEdges(Migrated(store, rows[..n])), UngroupedId(rows[n].orgId), RootId(rows[n].orgId));
    }
  }

  /** Permissions stay well founded in a migration under exactly that condition. */
  lemma MigrationKeepsWellFoundedIff(store: Store, rows: seq<HostRow>)
    ensures WellFounded(Migrated(store, rows)) <==> WellFounded(store) && RootsOnTop(store, rows)
  {
    MigratedGroups(store, rows);
    MigrationKeepsAcyclicIff(store, rows);
  }

  /**
   In particular a migration keeps permissions well founded when no root workspace of an organization it
   migrates has been put below another workspace.
   */
  lemma MigrationKeepsWellFounded(store: Store, rows: seq<HostRow>)
    requires WellFounded(store)
    requires forall d, r | d in ParentEdges(store) && r in rows :: d.0 != RootId(r.orgId)
    ensures WellFounded(Migrated(store, rows))
  {
    var e, e' := ParentEdges(store), ParentEdges(Migrated(store, rows));
    MigratedGroups(store, rows);
    forall d | d in e ensures d in e' {
      MigratedParentEdge(store, rows, d.0, d.1);
    }
    forall d, f | d in e' - e && f in e' ensures d.1 != f.0 {
      MigratedParentEdge(store, rows, d.0, d.1);
      MigratedParentEdge(store, rows, f.0, f.1);
      var r :| r in rows && d.0 == UngroupedId(r.orgId) && d.1 == RootId(r.orgId);
      forall q | q in rows ensures UngroupedId(q.orgId) != RootId(r.orgId) {
        WorkspaceNamesDistinct(r.orgId, q.orgId);
      }
    }
    DeadEndsKeepAcyclic(e, e');
  }

  /** No two of the rows, and no row and tuple of the store, give a system different hosts. */
  ghost predicate HostsAgree(store: Store, rows: seq<HostRow>) {
    && OneHost(store)
    && (forall q, r | q in rows && r in rows && q.systemId == r.systemId :: q.hostId == r.hostId)
    && (forall r, t | r in rows && t in store && IsSystemHost(t) && t.resourceId == Decimal(r.systemId) ::
          t == SystemHost(Decimal(r.systemId), r.hostId))
  }

  lemma MigratedSystemTuple(store: Store, rows: seq<HostRow>, t: Rel)
    requires IsSystemHost(t)
    ensures t in Migrated(store, rows) <==>
            t in store || exists r :: r in rows && t == SystemHost(Decimal(r.systemId), r.hostId)
  {
    StreamAdds(store, rows, {}, t);
    if Emits(rows, {}, Touch(t)) {
      var r :| r in rows && EmittedFor(Touch(t), r, {});
      assert t == SystemHost(Decimal(r.systemId), r.hostId);
    }
    if r :| r in rows && t == SystemHost(Decimal(r.systemId), r.hostId) {
      assert EmittedFor(Touch(t), r, {});
    }
  }

  /** After a migration every system has one host iff the rows agree with each other and with the store. */
  lemma MigratedOneHostIff(store: Store, rows: seq<HostRow>)
    ensures OneHost(Migrated(store, rows)) <==> HostsAgree(store, rows)
  {
    var after := Migrated(store, rows);
    forall t | IsSystemHost(t)
      ensures t in after <==> t in store || exists r :: r in rows && t == SystemHost(Decimal(r.systemId), r.hostId)
    {
      MigratedSystemTuple(store, rows, t);
    }
    if OneHost(after) {
      OneHostAgrees(store, rows);
    }
    if HostsAgree(store, rows) {
      forall s, t | s in after && t in after && IsSystemHost(s) && IsSystemHost(t) && s.resourceId == t.resourceId
        ensures s == t
      {
        AgreeingTuples(store, rows, s, t);
      }
    }
  }

  lemma OneHostAgrees(store: Store, rows: seq<HostRow>)
    requires OneHost(Migrated(store, rows))
    ensures HostsAgree(store, rows)
  {
    var after := Migrated(store, rows);
    forall t | t in store && IsSystemHost(t) ensures t in after {
      MigratedSystemTuple(store, rows, t);
    }
    forall r | r in rows
      ensures SystemHost(Decimal(r.systemId), r.hostId) in after
      ensures IsSystemHost(SystemHost(Decimal(r.systemId), r.hostId))
    {
      MigratedSystemTuple(store, rows, SystemHost(Decimal(r.systemId), r.hostId));
    }
  }

  lemma AgreeingTuples(store: Store, rows: seq<HostRow>, s: Rel, t: Rel)
    requires HostsAgree(store, rows) && s in Migrated(store, rows) && t in Migrated(store, rows)
    requires IsSystemHost(s) && IsSystemHost(t) && s.resourceId == t.resourceId
    ensures s == t
  {
    if s !in store && t !in store {
      var q := SystemRow(store, rows, s);
      var r := SystemRow(store, rows, t);
      DecimalInjective(q.systemId, r.systemId);
    } else if s !in store {
      var q := SystemRow(store, rows, s);
    } else if t !in store {
      var r := SystemRow(store, rows, t);
    }
  }

  lemma SystemRow(store: Store, rows: seq<HostRow>, s: Rel) returns (r: HostRow)
    requires s in Migrated(store, rows) && s !in store && IsSystemHost(s)
    ensures r in rows && s == SystemHost(Decimal(r.systemId), r.hostId)
  {
    StreamAdds(store, rows, {}, s);
    r :| r in rows && EmittedFor(Touch(s), r, {});
  }

  // ----- End to end -----

  /** The joined rows of one account, whatever the groups of their hosts. */
  function AccountRows(db: Content, account: int): set<Joined> {
    set j | j in FullJoin(db) && j.sp.acc == account
  }

  /** A user granted a host read on the root workspace of an account reads every host in its ungrouped workspace. */
  lemma RootGrantReadsUngrouped(store: Store, user: string, p: Permission, account: int, host: string)
    requires WellFounded(store) && ReadsHosts(p) && Grants(store, user, RootId(account), p)
    requires HostWorkspace(host, UngroupedId(account)) in store && UngroupedParent(account) in store
    ensures HostRead(store, user, host)
  {
    var w, top := UngroupedId(account), RootId(account);
    ParentEdgeIsTuple(store, w, top);
    ReachesItself(ParentEdges(store), top);
    StepReaches(ParentEdges(store), w, top, top);
    assert GrantedAbove(store, user, host, p);
    HostReadIff(store, user, host);
  }

  /** Every host of a system of the account is in its ungrouped workspace, and that is below the root workspace. */
  ghost predicate AccountInStore(db: Content, store: Store, account: int) {
    forall h | h in HostsOf(db.systems, db.hosts.Keys, account) ::
      HostWorkspace(h, UngroupedId(account)) in store && UngroupedParent(account) in store
  }

  /** Asking for every host of the account gives all its rows, and the baseline answer iff those hosts are ungrouped. */
  lemma AllHostsAskedIff(db: Content, account: int, ids: set<string>)
    requires HostsOf(db.systems, db.hosts.Keys, account) <= ids
    ensures PackagesByHostIDs(db, account, ids) == GroupedBy(db, AccountRows(db, account), PackageOf)
    ensures PackagesByHostIDs(db, account, ids) == PackagesByAccount(db, account) <==>
            forall j | j in FullJoin(db) && j.sp.acc == account :: db.hosts[j.ih] == Some([])
  {
    var all := AccountRows(db, account);
    forall j | j in all ensures j.ih in ids {
      assert j.ih in HostsOf(db.systems, db.hosts.Keys, account);
    }
    assert AccountHostRows(db, account, ids) == all;
    SameGroupsIffSameRows(db, UngroupedRows(db, account), all);
    assert UngroupedRows(db, account) == all <==> forall j | j in all :: db.hosts[j.ih] == Some([]);
  }

  /**
   For a user who was granted a host read on the root workspace of an account that is in the store,
   the lookup returns every host of the account, and the pre-filter query on the looked-up hosts
   and the baseline query agree iff every host of the account that a package row joins is ungrouped.
   */
  lemma LookupIsBaselineIff(db: Content, store: Store, user: string, p: Permission, account: int, ids: set<string>)
    requires WellFounded(store) && AccountInStore(db, store, account)
    requires ReadsHosts(p) && Grants(store, user, RootId(account), p)
    requires forall h :: h in ids <==> HostRead(store, user, h)
    ensures HostsOf(db.systems, db.hosts.Keys, account) <= ids
    ensures PackagesByHostIDs(db, account, ids) == PackagesByAccount(db, account) <==>
            forall j | j in FullJoin(db) && j.sp.acc == account :: db.hosts[j.ih] == Some([])
  {
    forall h | h in HostsOf(db.systems, db.hosts.Keys, account) ensures h in ids {
      RootGrantReadsUngrouped(store, user, p, account, h);
    }
    AllHostsAskedIff(db, account, ids);
  }

  lemma MigratedAccount(db: Content, store: Store, rows: seq<HostRow>, account: int)
    requires Enumerates(rows, db.systems, db.hosts.Keys)
    ensures AccountInStore(db, Migrated(store, rows), account)
  {
    forall h | h in HostsOf(db.systems, db.hosts.Keys, account)
      ensures HostWorkspace(h, UngroupedId(account)) in Migrated(store, rows)
      ensures UngroupedParent(account) in Migrated(store, rows)
    {
      var s :| s in db.systems && s.acc == account &&
               db.systems[s].inventoryId in db.hosts && db.systems[s].inventoryId == h;
      var row := HostRow(s.id, h, account);
      assert row in JoinedRows(db.systems, db.hosts.Keys) && row in rows;
      StreamAdds(store, rows, {}, HostWorkspace(h, UngroupedId(account)));
      StreamAdds(store, rows, {}, UngroupedParent(account));
      assert EmittedFor(Touch(HostWorkspace(h, UngroupedId(account))), row, {});
      assert EmittedFor(Touch(UngroupedParent(account)), row, {});
    }
  }

  /** After a migration a user granted a host read on the root workspace of an account reads its joined hosts. */
  lemma RootGrantReadsHosts(db: Content, store: Store, rows: seq<HostRow>, user: string, p: Permission, j: Joined)
    requires Enumerates(rows, db.systems, db.hosts.Keys) && j in FullJoin(db)
    requires WellFounded(Migrated(store, rows))
    requires ReadsHosts(p) && Grants(Migrated(store, rows), user, RootId(j.sp.acc), p)
    ensures HostRead(Migrated(store, rows), user, j.ih)
  {
    MigratedAccount(db, store, rows, j.sp.acc);
    assert j.ih in HostsOf(db.systems, db.hosts.Keys, j.sp.acc);
    RootGrantReadsUngrouped(Migrated(store, rows), user, p, j.sp.acc, j.ih);
  }

  /**
   After a successful migration, for a user who was granted a host read on the root workspace of
   an account, the pre-filter query on the looked-up hosts and the baseline query return the same
   packages and counts iff every host of the account that a package row joins is ungrouped.
   */
  lemma PreFilterIsBaselineIff(db: Content, store: Store, rows: seq<HostRow>, user: string, p: Permission,
                               account: int, ids: set<string>)
    requires Enumerates(rows, db.systems, db.hosts.Keys)
    requires WellFounded(Migrated(store, rows))
    requires ReadsHosts(p) && Grants(Migrated(store, rows), user, RootId(account), p)
    requires forall h :: h in ids <==> HostRead(Migrated(store, rows), user, h)
    ensures PackagesByHostIDs(db, account, ids) == PackagesByAccount(db, account) <==>
            forall j | j in FullJoin(db) && j.sp.acc == account :: db.hosts[j.ih] == Some([])
  {
    MigratedAccount(db, store, rows, account);
    LookupIsBaselineIff(db, Migrated(store, rows), user, p, account, ids);
  }

  // ----- After a move -----

  /** The relationship store after migrating and then moving account `from`. */
  function MigratedAndMoved(db: Content, store: Store, rows: seq<HostRow>, from: int, to: int): Store {
    MovedHosts(Migrated(store, rows), HostsOf(db.systems, db.hosts.Keys, from), from, to)
  }

  /** Every host of the new account, the moved ones included, is in its ungrouped workspace after the move. */
  lemma MovedAccount(db: Content, store: Store, rows: seq<HostRow>, from: int, to: int)
    requires from != to && MoveTables.NoKeyCollision(db.systems.Keys, from, to)
    requires Enumerates(rows, db.systems, db.hosts.Keys)
    requires UngroupedParent(to) in MigratedAndMoved(db, store, rows, from, to)
    ensures AccountInStore(AfterMove(db, from, to), MigratedAndMoved(db, store, rows, from, to), to)
  {
    var db' := AfterMove(db, from, to);
    MovedHostTuples(db.systems, db.hosts.Keys, from, to);
    forall h | h in HostsOf(db'.systems, db.hosts.Keys, to)
      ensures HostWorkspace(h, UngroupedId(to)) in MigratedAndMoved(db, store, rows, from, to)
    {
      HostTuplesOf(db'.systems, db.hosts.Keys, to, h);
      MigratedHosts(store, rows, {}, db.systems, db.hosts.Keys, HostWorkspace(h, UngroupedId(to)));
      WorkspaceNamesDistinct(from, to);
    }
  }

  /** A move changes host tuples only, so it changes no edge and no link of a workspace, and no grant. */
  lemma MoveKeepsEdges(store: Store, hs: set<string>, from: int, to: int)
    ensures var moved := MovedHosts(store, hs, from, to);
            && GroupEdges(moved) == GroupEdges(store) && ParentEdges(moved) == ParentEdges(store)
            && (WellFounded(moved) <==> WellFounded(store))
            && forall org :: Linked(moved, org) <==> Linked(store, org)
  {
  }

  lemma MoveKeepsGrants(store: Store, hs: set<string>, from: int, to: int, user: string, top: string, p: Permission)
    ensures Grants(MovedHosts(store, hs, from, to), user, top, p) <==> Grants(store, user, top, p)
  {
    var moved := MovedHosts(store, hs, from, to);
    MoveKeepsEdges(store, hs, from, to);
    forall b
      ensures RolePermits(moved, b, p) <==> RolePermits(store, b, p)
      ensures Includes(moved, b, user) <==> Includes(store, b, user)
    {
    }
  }

  /**
   After migrating and a committed move of account `from` to a linked account `to`, a user who was
   granted a host read on the root workspace of `to` reads the hosts of both accounts.
   */
  lemma MovedHostsAreRead(db: Content, store: Store, rows: seq<HostRow>, from: int, to: int, user: string,
                          p: Permission, h: string)
    requires from != to && MoveTables.NoKeyCollision(db.systems.Keys, from, to)
    requires Enumerates(rows, db.systems, db.hosts.Keys)
    requires WellFounded(MigratedAndMoved(db, store, rows, from, to))
    requires Linked(Migrated(store, rows), to)
    requires ReadsHosts(p) && Grants(Migrated(store, rows), user, RootId(to), p)
    requires h in HostsOf(db.systems, db.hosts.Keys, from) + HostsOf(db.systems, db.hosts.Keys, to)
    ensures HostRead(MigratedAndMoved(db, store, rows, from, to), user, h)
  {
    var hs := HostsOf(db.systems, db.hosts.Keys, from);
    MoveKeepsEdges(Migrated(store, rows), hs, from, to);
    MoveKeepsGrants(Migrated(store, rows), hs, from, to, user, RootId(to), p);
    MovedAccount(db, store, rows, from, to);
    MovedHostsOf(db.systems, db.hosts.Keys, from, to);
    RootGrantReadsUngrouped(MigratedAndMoved(db, store, rows, from, to), user, p, to, h);
  }

  /**
   That user's lookup returns the moved hosts, yet no package of theirs is counted: the pre-filter
   answers for `to` as it would have before the move and for `from` with nothing, because the move
   leaves the package rows behind. It is the baseline answer iff the hosts that `to` counted before
   are ungrouped.
   */
  lemma PreFilterAfterMove(db: Content, store: Store, rows: seq<HostRow>, from: int, to: int, user: string,
                           p: Permission, ids: set<string>)
    requires from != to && MoveTables.NoKeyCollision(db.systems.Keys, from, to) && PackagesLinked(db)
    requires Enumerates(rows, db.systems, db.hosts.Keys)
    requires WellFounded(MigratedAndMoved(db, store, rows, from, to))
    requires Linked(Migrated(store, rows), to)
    requires ReadsHosts(p) && Grants(Migrated(store, rows), user, RootId(to), p)
    requires forall h :: h in ids <==> HostRead(MigratedAndMoved(db, store, rows, from, to), user, h)
    ensures HostsOf(db.systems, db.hosts.Keys, from) <= ids
    ensures PackagesByHostIDs(AfterMove(db, from, to), from, ids) == map[]
    ensures PackagesByHostIDs(AfterMove(db, from, to), to, ids) == GroupedBy(db, AccountRows(db, to), PackageOf)
    ensures PackagesByHostIDs(AfterMove(db, from, to), to, ids) == PackagesByAccount(AfterMove(db, from, to), to) <==>
            forall j | j in FullJoin(db) && j.sp.acc == to :: db.hosts[j.ih] == Some([])
  {
    forall h | h in HostsOf(db.systems, db.hosts.Keys, from) + HostsOf(db.systems, db.hosts.Keys, to) ensures h in ids {
      MovedHostsAreRead(db, store, rows, from, to, user, p, h);
    }
    AnswersWithoutMoved(db, from, to, ids);
    AllHostsAskedIff(db, to, ids);
  }

  /** Both servers answer after the move as if the moved systems did not exist. */
  lemma AnswersWithoutMoved(db: Content, from: int, to: int, ids: set<string>)
    requires from != to && MoveTables.NoKeyCollision(db.systems.Keys, from, to) && PackagesLinked(db)
    ensures PackagesByHostIDs(AfterMove(db, from, to), from, ids) == map[]
    ensures PackagesByHostIDs(AfterMove(db, from, to), to, ids) == PackagesByHostIDs(db, to, ids)
    ensures PackagesByAccount(AfterMove(db, from, to), from) == map[]
    ensures PackagesByAccount(AfterMove(db, from, to), to) == PackagesByAccount(db, to)
  {
    var ungrouped := UngroupedHosts(db);
    AdoptsNothing(db, from, to);
    OldAccountHasNoAnswer(db, from, to, ids);
    OldAccountHasNoAnswer(db, from, to, ungrouped);
    NewAccountAnswersAsBeforeIff(db, from, to, ids);
    NewAccountAnswersAsBeforeIff(db, from, to, ungrouped);
    BaselineIsHostQuery(db, to);
    BaselineIsHostQuery(AfterMove(db, from, to), from);
    BaselineIsHostQuery(AfterMove(db, from, to), to);
  }

  // ----- A host that is grouped -----

  /** A binding on the root workspace of account 1 that grants user "u" every host read. */
  function RootBinding(): Store {
    {
      Rel(Workspace, RootId(1), UserGrant, RoleBinding, "b", false),
      Rel(RoleBinding, "b", Subject, User, "u", false),
      Rel(RoleBinding, "b", Granted, Role, "r", false),
      Rel(Role, "r", Permits(InventoryHostsRead), User, "*", false)
    }
  }

  lemma RootBindingGrants(host: string)
    ensures var after := Migrated(RootBinding(), [HostRow(1, host, 1)]);
            WellFounded(after) && Grants(after, "u", RootId(1), InventoryHostsRead)
  {
    var store, rows := RootBinding(), [HostRow(1, host, 1)];
    var after := Migrated(store, rows);
    NoEdgesNoCycle(GroupEdges(store));
    NoEdgesNoCycle(ParentEdges(store));
    MigrationKeepsWellFounded(store, rows);
    forall r | r in store ensures r in after { StreamAdds(store, rows, {}, r); }
    assert Includes(after, "b", "u") && RolePermits(after, "b", InventoryHostsRead);
  }

  /** With that binding and one migrated host the user reads that host. */
  lemma RootBindingReads(host: string)
    requires WellFounded(Migrated(RootBinding(), [HostRow(1, host, 1)]))
    ensures HostRead(Migrated(RootBinding(), [HostRow(1, host, 1)]), "u", host)
  {
    var store, rows := RootBinding(), [HostRow(1, host, 1)];
    var own := HostWorkspace(host, UngroupedId(1));
    RootBindingGrants(host);
    StreamAdds(store, rows, {}, own);
    StreamAdds(store, rows, {}, UngroupedParent(1));
    assert rows[0] in rows && EmittedFor(Touch(own), rows[0], {});
    assert EmittedFor(Touch(UngroupedParent(1)), rows[0], {});
    RootGrantReadsUngrouped(Migrated(store, rows), "u", InventoryHostsRead, 1, host);
  }

  /** No other host is in the store, so none is read. */
  lemma OnlyMigratedHostIsRead(host: string, h: string)
    requires WellFounded(Migrated(RootBinding(), [HostRow(1, host, 1)]))
    requires HostRead(Migrated(RootBinding(), [HostRow(1, host, 1)]), "u", h)
    ensures h == host
  {
    var store, rows := RootBinding(), [HostRow(1, host, 1)];
    var w := ReadIsInWorkspace(Migrated(store, rows), "u", h);
    StreamAdds(store, rows, {}, HostWorkspace(h, w));
  }

  /** The answers differ at a real input: one host with a package, in an inventory group. */
  lemma GroupedHostDiffers(row: System, group: string)
    ensures var db := SingleHost(row, Some([group]));
            var rows := [HostRow(1, row.inventoryId, 1)];
            && Enumerates(rows, db.systems, db.hosts.Keys)
            && WellFounded(Migrated(RootBinding(), rows))
            && (forall h :: h in {row.inventoryId} <==> HostRead(Migrated(RootBinding(), rows), "u", h))
            && PackagesByHostIDs(db, 1, {row.inventoryId}) != PackagesByAccount(db, 1)
  {
    var db := SingleHost(row, Some([group]));
    var rows := [HostRow(1, row.inventoryId, 1)];
    assert Enumerates(rows, db.systems, db.hosts.Keys) by {
      forall r ensures r in rows <==> r in JoinedRows(db.systems, db.hosts.Keys) {
        assert AccKey(1, 1) in db.systems;
      }
    }
    RootBindingGrants(row.inventoryId);
    RootBindingReads(row.inventoryId);
    forall h | HostRead(Migrated(RootBinding(), rows), "u", h) ensures h == row.inventoryId {
      OnlyMigratedHostIsRead(row.inventoryId, h);
    }
    SingleHostJoins(row, Some([group]));
    PreFilterIsBaselineIff(db, RootBinding(), rows, "u", InventoryHostsRead, 1, {row.inventoryId});
  }
}

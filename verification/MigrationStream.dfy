/**
 The stream of updates that migrating hosts and systems writes, independent of batching, and the
 workspace hierarchy it builds.
 */
module MigrationStream {
  import opened Naming
  import opened Relationships

  /** A row of `system_platform JOIN inventory.hosts`. */
  datatype HostRow = HostRow(systemId: int, hostId: string, orgId: int)

  function Orgs(rows: seq<HostRow>): set<int> {
    set r | r in rows :: r.orgId
  }

  function ParentUpdates(org: int): seq<Update> {
    [Touch(RootParent(org)), Touch(UngroupedParent(org))]
  }

  function HostUpdates(row: HostRow): seq<Update> {
    [Touch(HostWorkspace(row.hostId, UngroupedId(row.orgId))), Touch(SystemHost(Decimal(row.systemId), row.hostId))]
  }

  function RowUpdates(row: HostRow, known: bool): seq<Update> {
    (if known then [] else ParentUpdates(row.orgId)) + HostUpdates(row)
  }

  /** The updates for all rows, when the organizations in `known` are taken to have their workspaces already. */
  function Stream(rows: seq<HostRow>, known: set<int>): seq<Update> {
    if rows == [] then [] else Stream(rows[..|rows| - 1], known) + LastUpdates(rows, known)
  }

  function LastUpdates(rows: seq<HostRow>, known: set<int>): seq<Update>
    requires rows != []
  {
    var n := |rows| - 1;
    RowUpdates(rows[n], rows[n].orgId in known + Orgs(rows[..n]))
  }

  lemma OrgsStep(rows: seq<HostRow>)
    requires rows != []
    ensures Orgs(rows) == Orgs(rows[..|rows| - 1]) + {rows[|rows| - 1].orgId}
  {
  }

  lemma LastOfStream(rows: seq<HostRow>, row: HostRow, known: set<int>)
    ensures Stream(rows + [row], known) ==
            Stream(rows, known)
            + RowUpdates(row, row.orgId in known || exists r :: r in rows && r.orgId == row.orgId)
  {
    assert (rows + [row])[..|rows|] == rows;
  }

  /**
   One more row, update by update: the two parents come first, if the organization is neither known
   nor that of an earlier row, then the host and then the system.
   */
  lemma StreamOfOneMore(rows: seq<HostRow>, row: HostRow, known: set<int>)
    ensures var root := Decimal(row.orgId) + "_root";
            var ungrouped := root + "/ungrouped";
            Stream(rows + [row], known) ==
            Stream(rows, known)
            + (if row.orgId in known || exists r :: r in rows && r.orgId == row.orgId then []
               else [Touch(Rel(Workspace, root, Parent, Organization, Decimal(row.orgId), false)),
                     Touch(Rel(Workspace, ungrouped, Parent, Workspace, root, false))])
            + [Touch(Rel(Host, row.hostId, InWorkspace, Workspace, ungrouped, false)),
               Touch(Rel(System, Decimal(row.systemId), OnHost, Host, row.hostId, false))]
  {
    LastOfStream(rows, row, known);
  }

  // ----- What the stream contains -----

  predicate EmittedFor(u: Update, r: HostRow, known: set<int>) {
    || u == Touch(HostWorkspace(r.hostId, UngroupedId(r.orgId)))
    || u == Touch(SystemHost(Decimal(r.systemId), r.hostId))
    || (r.orgId !in known && (u == Touch(RootParent(r.orgId)) || u == Touch(UngroupedParent(r.orgId))))
  }

  lemma RowMembers(row: HostRow, known: bool, u: Update)
    ensures u in RowUpdates(row, known) <==> EmittedFor(u, row, if known then {row.orgId} else {})
  {
  }

  ghost predicate Emits(rows: seq<HostRow>, known: set<int>, u: Update) {
    exists r :: r in rows && EmittedFor(u, r, known)
  }

  lemma LastRowEmits(rows: seq<HostRow>, known: set<int>, u: Update)
    requires rows != [] && EmittedFor(u, rows[|rows| - 1], known)
    ensures Emits(rows[..|rows| - 1], known, u) || u in LastUpdates(rows, known)
  {
  }

  lemma RowUpdatesAreEmitted(rows: seq<HostRow>, known: set<int>, u: Update)
    requires rows != [] && u in LastUpdates(rows, known)
    ensures Emits(rows, known, u)
  {
    var n := |rows| - 1;
    RowMembers(rows[n], rows[n].orgId in known + Orgs(rows[..n]), u);
    assert rows[n] in rows && EmittedFor(u, rows[n], known);
  }

  lemma {:induction false} StreamMembers(rows: seq<HostRow>, known: set<int>, u: Update)
    ensures u in Stream(rows, known) <==> Emits(rows, known, u)
    decreases |rows|
  {
    if rows != [] {
      var n := |rows| - 1;
      StreamMembers(rows[..n], known, u);
      if Emits(rows, known, u) {
        var r :| r in rows && EmittedFor(u, r, known);
        assert r in rows[..n] || r == rows[n];
        if r !in rows[..n] {
          LastRowEmits(rows, known, u);
        }
      }
      if Emits(rows[..n], known, u) {
        var r :| r in rows[..n] && EmittedFor(u, r, known);
        assert r in rows;
      } else if u in Stream(rows, known) {
        RowUpdatesAreEmitted(rows, known, u);
      }
    }
  }

  /** Two updates per row and two more per organization that is new. */
  lemma {:induction false} StreamLength(rows: seq<HostRow>, known: set<int>)
    ensures |Stream(rows, known)| == 2 * |rows| + 2 * |Orgs(rows) - known|
    decreases |rows|
  {
    if rows == [] {
      assert Orgs(rows) - known == {};
    } else {
      var n := |rows| - 1;
      var org := rows[n].orgId;
      StreamLength(rows[..n], known);
      OrgsStep(rows);
      if org in known + Orgs(rows[..n]) {
        assert Orgs(rows) - known == Orgs(rows[..n]) - known;
      } else {
        assert Orgs(rows) - known == (Orgs(rows[..n]) - known) + {org};
      }
    }
  }

  predicate IsParentOf(u: Update, org: int) {
    u == Touch(RootParent(org)) || u == Touch(UngroupedParent(org))
  }

  /** Every new organization gets each of its two parent tuples exactly once. */
  lemma {:induction false} ParentsOnce(rows: seq<HostRow>, known: set<int>, org: int, u: Update)
    requires IsParentOf(u, org)
    ensures multiset(Stream(rows, known))[u] == if org in Orgs(rows) && org !in known then 1 else 0
    decreases |rows|
  {
    if rows != [] {
      var n := |rows| - 1;
      var last := rows[n];
      ParentsOnce(rows[..n], known, org, u);
      OrgsStep(rows);
      CountInBoth(Stream(rows[..n], known), LastUpdates(rows, known), u);
      RowParents(last, last.orgId in known + Orgs(rows[..n]), org, u);
    }
  }

  lemma CountInBoth<T>(a: seq<T>, b: seq<T>, x: T)
    ensures multiset(a + b)[x] == multiset(a)[x] + multiset(b)[x]
  {
  }

  lemma RowParents(row: HostRow, known: bool, org: int, u: Update)
    requires IsParentOf(u, org)
    ensures multiset(RowUpdates(row, known))[u] == if !known && row.orgId == org then 1 else 0
  {
    WorkspaceNamesDistinct(row.orgId, org);
    WorkspaceNamesDistinct(org, row.orgId);
    assert u !in HostUpdates(row);
  }

  /** A prefix of the stream ends before the last row, or is all before that row and some of its updates. */
  lemma StreamPrefix(rows: seq<HostRow>, known: set<int>, p: nat)
    requires rows != [] && p <= |Stream(rows, known)|
    ensures var n := |rows| - 1;
            var before := Stream(rows[..n], known);
            var us := LastUpdates(rows, known);
            && Stream(rows, known) == before + us
            && Stream(rows, known)[..p] == if p <= |before| then before[..p] else before + us[..p - |before|]
  {
  }

  /** The parent tuples of a new organization come before the first host that needs them. */
  lemma {:induction false} ParentsBeforeHosts(rows: seq<HostRow>, known: set<int>, i: int, host: string, org: int)
    requires 0 <= i < |Stream(rows, known)|
    requires Stream(rows, known)[i] == Touch(HostWorkspace(host, UngroupedId(org))) && org !in known
    ensures Touch(RootParent(org)) in Stream(rows, known)[..i]
    ensures Touch(UngroupedParent(org)) in Stream(rows, known)[..i]
    decreases |rows|
  {
    var n := |rows| - 1;
    var before := Stream(rows[..n], known);
    StreamPrefix(rows, known, i);
    if i < |before| {
      ParentsBeforeHosts(rows[..n], known, i, host, org);
    } else {
      ParentsBeforeHostInRow(rows, known, i - |before|, host, org);
    }
  }

  lemma ParentsBeforeHostInRow(rows: seq<HostRow>, known: set<int>, q: nat, host: string, org: int)
    requires rows != [] && org !in known
    requires q < |LastUpdates(rows, known)|
    requires LastUpdates(rows, known)[q] == Touch(HostWorkspace(host, UngroupedId(org)))
    ensures var sent := Stream(rows[..|rows| - 1], known) + LastUpdates(rows, known)[..q];
            Touch(RootParent(org)) in sent && Touch(UngroupedParent(org)) in sent
  {
    var n := |rows| - 1;
    var last := rows[n];
    WorkspaceNamesDistinct(last.orgId, org);
    assert last.orgId == org;
    if org in Orgs(rows[..n]) {
      var r :| r in rows[..n] && r.orgId == org;
      StreamMembers(rows[..n], known, Touch(RootParent(org)));
      StreamMembers(rows[..n], known, Touch(UngroupedParent(org)));
      assert EmittedFor(Touch(RootParent(org)), r, known) && EmittedFor(Touch(UngroupedParent(org)), r, known);
    } else {
      var us := RowUpdates(last, false);
      assert us[..q] == ParentUpdates(org);
      assert us[..q][0] == Touch(RootParent(org)) && us[..q][1] == Touch(UngroupedParent(org));
    }
  }

  /** A host is put into a workspace before its system is linked to it. */
  lemma {:induction false} HostBeforeSystem(rows: seq<HostRow>, known: set<int>, i: int, system: string, host: string)
    returns (org: int)
    requires 0 <= i < |Stream(rows, known)| && Stream(rows, known)[i] == Touch(SystemHost(system, host))
    ensures Touch(HostWorkspace(host, UngroupedId(org))) in Stream(rows, known)[..i]
    decreases |rows|
  {
    var n := |rows| - 1;
    var before := Stream(rows[..n], known);
    StreamPrefix(rows, known, i);
    if i < |before| {
      org := HostBeforeSystem(rows[..n], known, i, system, host);
    } else {
      org := rows[n].orgId;
      var us := LastUpdates(rows, known);
      var q := i - |before|;
      assert q == |us| - 1;
      assert us[..q][q - 1] == Touch(HostWorkspace(host, UngroupedId(org)));
    }
  }

  // ----- The hierarchy -----

  ghost predicate Linked(store: Store, org: int) {
    RootParent(org) in store && UngroupedParent(org) in store
  }

  ghost predicate HostIsLinked(store: Store, r: Rel) {
    exists org :: r == HostWorkspace(r.resourceId, UngroupedId(org)) && Linked(store, org)
  }

  ghost predicate SystemIsLinked(store: Store, r: Rel) {
    exists w :: HostWorkspace(r.subjectId, w) in store
  }

  /**
   Every host is in the ungrouped workspace of an organization whose workspaces are linked up to
   it, and the host of every system is in a workspace.
   */
  ghost predicate Closed(store: Store) {
    && (forall r | r in store && IsHostWorkspace(r) :: HostIsLinked(store, r))
    && (forall r | r in store && IsSystemHost(r) :: SystemIsLinked(store, r))
  }

  /** What has to be in the store before an update of the migration may come. */
  ghost predicate Ready(store: Store, u: Update) {
    && u.Touch?
    && (IsHostWorkspace(u.rel) ==> HostIsLinked(store, u.rel))
    && (IsSystemHost(u.rel) ==> SystemIsLinked(store, u.rel))
  }

  lemma ReadyKeepsClosed(store: Store, u: Update)
    requires Closed(store) && Ready(store, u)
    ensures Closed(Apply(store, u))
  {
  }

  lemma StreamTouches(rows: seq<HostRow>, known: set<int>, i: int)
    requires 0 <= i < |Stream(rows, known)|
    ensures Stream(rows, known)[i].Touch?
  {
    StreamMembers(rows, known, Stream(rows, known)[i]);
  }

  lemma StreamAdds(store: Store, rows: seq<HostRow>, known: set<int>, r: Rel)
    ensures r in ApplyAll(store, Stream(rows, known)) <==>
            r in store || Emits(rows, known, Touch(r))
  {
    forall i | 0 <= i < |Stream(rows, known)| ensures Stream(rows, known)[i].Touch? { StreamTouches(rows, known, i); }
    TouchesAdd(store, Stream(rows, known));
    StreamMembers(rows, known, Touch(r));
  }

  /**
   The same in tuples: each row gives the parent of the root workspace of its organization, the
   parent of the ungrouped one, the workspace of its host and the host of its system.
   */
  lemma StreamTuples(store: Store, rows: seq<HostRow>, r: Rel)
    ensures r in ApplyAll(store, Stream(rows, {})) <==>
            || r in store
            || exists row :: row in rows &&
                 var root := Decimal(row.orgId) + "_root";
                 var ungrouped := root + "/ungrouped";
                 || r == Rel(Workspace, root, Parent, Organization, Decimal(row.orgId), false)
                 || r == Rel(Workspace, ungrouped, Parent, Workspace, root, false)
                 || r == Rel(Host, row.hostId, InWorkspace, Workspace, ungrouped, false)
                 || r == Rel(System, Decimal(row.systemId), OnHost, Host, row.hostId, false)
  {
    StreamAdds(store, rows, {}, r);
    forall row: HostRow
      ensures EmittedFor(Touch(r), row, {}) <==>
              var root := Decimal(row.orgId) + "_root";
              var ungrouped := root + "/ungrouped";
              || r == Rel(Workspace, root, Parent, Organization, Decimal(row.orgId), false)
              || r == Rel(Workspace, ungrouped, Parent, Workspace, root, false)
              || r == Rel(Host, row.hostId, InWorkspace, Workspace, ungrouped, false)
              || r == Rel(System, Decimal(row.systemId), OnHost, Host, row.hostId, false)
    {
    }
  }

  ghost predicate KnownAreLinked(store: Store, rows: seq<HostRow>, known: set<int>) {
    forall r | r in rows && r.orgId in known :: Linked(store, r.orgId)
  }

  lemma StoreSoFar(store: Store, rows: seq<HostRow>, known: set<int>, p: nat, r: Rel)
    requires p <= |Stream(rows, known)|
    ensures r in ApplyAll(store, Stream(rows, known)[..p]) <==> r in store || Touch(r) in Stream(rows, known)[..p]
  {
    var us := Stream(rows, known)[..p];
    forall i | 0 <= i < |us| ensures us[i].Touch? { StreamTouches(rows, known, i); }
    TouchesAdd(store, us);
  }

  lemma NextHostIsReady(store: Store, rows: seq<HostRow>, known: set<int>, p: nat, host: string, org: int)
    requires p < |Stream(rows, known)| && Stream(rows, known)[p] == Touch(HostWorkspace(host, UngroupedId(org)))
    requires org in known ==> Linked(store, org)
    ensures HostIsLinked(ApplyAll(store, Stream(rows, known)[..p]), HostWorkspace(host, UngroupedId(org)))
  {
    if org !in known {
      ParentsBeforeHosts(rows, known, p, host, org);
    }
    StoreSoFar(store, rows, known, p, RootParent(org));
    StoreSoFar(store, rows, known, p, UngroupedParent(org));
    assert Linked(ApplyAll(store, Stream(rows, known)[..p]), org);
  }

  lemma NextSystemIsReady(store: Store, rows: seq<HostRow>, known: set<int>, p: nat, system: string, host: string)
    requires p < |Stream(rows, known)| && Stream(rows, known)[p] == Touch(SystemHost(system, host))
    ensures SystemIsLinked(ApplyAll(store, Stream(rows, known)[..p]), SystemHost(system, host))
  {
    var org := HostBeforeSystem(rows, known, p, system, host);
    StoreSoFar(store, rows, known, p, HostWorkspace(host, UngroupedId(org)));
  }

  /** Whatever comes next in the stream, what it refers to is in the store by then. */
  lemma NextIsReady(store: Store, rows: seq<HostRow>, known: set<int>, p: nat)
    requires KnownAreLinked(store, rows, known) && p < |Stream(rows, known)|
    ensures Ready(ApplyAll(store, Stream(rows, known)[..p]), Stream(rows, known)[p])
  {
    var u := Stream(rows, known)[p];
    StreamMembers(rows, known, u);
    var row :| row in rows && EmittedFor(u, row, known);
    if u == Touch(HostWorkspace(row.hostId, UngroupedId(row.orgId))) {
      NextHostIsReady(store, rows, known, p, row.hostId, row.orgId);
    } else if u == Touch(SystemHost(Decimal(row.systemId), row.hostId)) {
      NextSystemIsReady(store, rows, known, p, Decimal(row.systemId), row.hostId);
    }
  }

  /** However far a migration gets, the hierarchy in the store is closed. */
  lemma {:induction false} EveryPrefixIsClosed(store: Store, rows: seq<HostRow>, known: set<int>, p: nat)
    requires Closed(store) && KnownAreLinked(store, rows, known)
    requires p <= |Stream(rows, known)|
    ensures Closed(ApplyAll(store, Stream(rows, known)[..p]))
    decreases p
  {
    if p == 0 {
      assert Stream(rows, known)[..p] == [];
    } else {
      EveryPrefixIsClosed(store, rows, known, p - 1);
      NextIsReady(store, rows, known, p - 1);
      OneMoreIsClosed(store, Stream(rows, known), p);
    }
  }

  lemma OneMoreIsClosed(store: Store, us: seq<Update>, p: nat)
    requires 0 < p <= |us|
    requires Closed(ApplyAll(store, us[..p - 1])) && Ready(ApplyAll(store, us[..p - 1]), us[p - 1])
    ensures Closed(ApplyAll(store, us[..p]))
  {
    ReadyKeepsClosed(ApplyAll(store, us[..p - 1]), us[p - 1]);
    assert us[..p][..p - 1] == us[..p - 1];
  }

  /**
   A migrator that already knows organizations, because an earlier run of it failed, keeps the
   hierarchy closed at every point iff the known organizations it meets are linked in the store.
   */
  lemma KnownOrganizationsMustBeLinkedIff(store: Store, rows: seq<HostRow>, known: set<int>)
    requires Closed(store)
    ensures (forall p: nat | p <= |Stream(rows, known)| :: Closed(ApplyAll(store, Stream(rows, known)[..p]))) <==>
            KnownAreLinked(store, rows, known)
    ensures Closed(ApplyAll(store, Stream(rows, known))) <==> KnownAreLinked(store, rows, known)
  {
    var all := Stream(rows, known);
    assert all[..|all|] == all;
    if KnownAreLinked(store, rows, known) {
      forall p: nat | p <= |Stream(rows, known)| ensures Closed(ApplyAll(store, Stream(rows, known)[..p])) {
        EveryPrefixIsClosed(store, rows, known, p);
      }
    } else {
      var r :| r in rows && r.orgId in known && !Linked(store, r.orgId);
      UnlinkedStaysUnlinked(store, rows, known, r);
    }
  }

  lemma UnlinkedStaysUnlinked(store: Store, rows: seq<HostRow>, known: set<int>, r: HostRow)
    requires r in rows && r.orgId in known && !Linked(store, r.orgId)
    ensures !Closed(ApplyAll(store, Stream(rows, known)))
  {
    var final := ApplyAll(store, Stream(rows, known));
    var t := HostWorkspace(r.hostId, UngroupedId(r.orgId));
    StreamAdds(store, rows, known, t);
    assert EmittedFor(Touch(t), r, known);
    forall org | UngroupedId(org) == UngroupedId(r.orgId) ensures !Linked(final, org) {
      WorkspaceNamesDistinct(org, r.orgId);
      ParentNotEmitted(store, rows, known, org);
    }
    assert !HostIsLinked(final, t);
  }

  /** The stream never writes the parents of an organization that it takes to be known. */
  lemma ParentNotEmitted(store: Store, rows: seq<HostRow>, known: set<int>, org: int)
    requires org in known
    ensures Linked(ApplyAll(store, Stream(rows, known)), org) <==> Linked(store, org)
  {
    StreamAdds(store, rows, known, RootParent(org));
    StreamAdds(store, rows, known, UngroupedParent(org));
    forall row | row in rows
      ensures !EmittedFor(Touch(RootParent(org)), row, known) && !EmittedFor(Touch(UngroupedParent(org)), row, known)
    {
      WorkspaceNamesDistinct(org, row.orgId);
      WorkspaceNamesDistinct(row.orgId, org);
    }
  }
}

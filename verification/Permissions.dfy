/**
 The permissions of the schema that a read of hosts, systems and packages goes through, evaluated as
 the schema writes them: unions, intersections and arrows, recursive over nested groups and over
 workspace parents.
 */
module Permissions {
  import opened Relationships
  import opened Reach

  // ----- Groups, bindings and roles -----

  /** group#member@group#member */
  function GroupEdges(store: Store): Edges {
    set r | r in store && r.resourceType == Group && r.relation == Member && r.subjectType == Group && r.members
      :: (r.resourceId, r.subjectId)
  }

  function GroupsOf(store: Store, user: string): set<string> {
    set r | r in store && r == Rel(Group, r.resourceId, Member, User, user, false) :: r.resourceId
  }

  /** workspace#parent@workspace; an organization as parent has none of these permissions. */
  function ParentEdges(store: Store): Edges {
    set r | && r in store && r.resourceType == Workspace && r.relation == Parent
            && r.subjectType == Workspace && !r.members
      :: (r.resourceId, r.subjectId)
  }

  ghost predicate WellFounded(store: Store) {
    Acyclic(GroupEdges(store)) && Acyclic(ParentEdges(store))
  }

  /** relation member: user | group#member */
  ghost predicate IsMember(store: Store, user: string, group: string)
    requires WellFounded(store)
  {
    Holds(GroupEdges(store), GroupsOf(store, user), group)
  }

  /** relation subject: user | group#member */
  ghost predicate IsSubject(store: Store, user: string, binding: string)
    requires WellFounded(store)
  {
    || Rel(RoleBinding, binding, Subject, User, user, false) in store
    || exists g :: Rel(RoleBinding, binding, Subject, Group, g, true) in store && IsMember(store, user, g)
  }

  /** granted->permission, where a role lists the permission for user:* */
  ghost predicate RolePermits(store: Store, binding: string, p: Permission) {
    exists r :: && Rel(RoleBinding, binding, Granted, Role, r, false) in store
                && Rel(Role, r, Permits(p), User, "*", false) in store
  }

  /** role_binding: permission p = subject & granted->p */
  ghost predicate BindingPermits(store: Store, user: string, binding: string, p: Permission)
    requires WellFounded(store)
  {
    IsSubject(store, user, binding) && RolePermits(store, binding, p)
  }

  predicate IsUserGrant(r: Rel) {
    r == Rel(Workspace, r.resourceId, UserGrant, RoleBinding, r.subjectId, false)
  }

  /** The workspaces where user_grant->p holds. */
  ghost function Granting(store: Store, user: string, p: Permission): set<string>
    requires WellFounded(store)
  {
    set r | r in store && IsUserGrant(r) && BindingPermits(store, user, r.subjectId, p) :: r.resourceId
  }

  // ----- Workspaces, hosts, systems and packages -----

  /** workspace: permission p = user_grant->p + parent->p */
  ghost predicate WorkspacePermits(store: Store, user: string, workspace: string, p: Permission)
    requires WellFounded(store)
  {
    Holds(ParentEdges(store), Granting(store, user, p), workspace)
  }

  /** workspace->p */
  ghost predicate HostPermits(store: Store, user: string, host: string, p: Permission)
    requires WellFounded(store)
  {
    exists w :: HostWorkspace(host, w) in store && WorkspacePermits(store, user, w, p)
  }

  /** inventory/host#read */
  ghost predicate HostRead(store: Store, user: string, host: string)
    requires WellFounded(store)
  {
    || HostPermits(store, user, host, InventoryHostsRead) || HostPermits(store, user, host, InventoryHostsAll)
    || HostPermits(store, user, host, InventoryAllRead) || HostPermits(store, user, host, InventoryAllAll)
  }

  /** inventory/host#patch_system_read */
  ghost predicate HostPatchRead(store: Store, user: string, host: string)
    requires WellFounded(store)
  {
    HostPermits(store, user, host, PatchAllRead) || HostPermits(store, user, host, PatchAllAll)
  }

  /** patch/system: permission read = host->read & host->patch_system_read; each arrow may use its own host. */
  ghost predicate SystemRead(store: Store, user: string, system: string)
    requires WellFounded(store)
  {
    && (exists h :: SystemHost(system, h) in store && HostRead(store, user, h))
    && (exists h :: SystemHost(system, h) in store && HostPatchRead(store, user, h))
  }

  /** patch/patch: permission read = system->read */
  ghost predicate PatchRead(store: Store, user: string, patch: string)
    requires WellFounded(store)
  {
    exists s :: PatchSystem(patch, s) in store && SystemRead(store, user, s)
  }

  // ----- Reachability -----

  /** The user is a subject of the binding, directly or through a chain of nested groups. */
  ghost predicate Includes(store: Store, binding: string, user: string) {
    || Rel(RoleBinding, binding, Subject, User, user, false) in store
    || exists g, inner ::
         && Rel(RoleBinding, binding, Subject, Group, g, true) in store
         && Reaches(GroupEdges(store), g, inner)
         && Rel(Group, inner, Member, User, user, false) in store
  }

  lemma SubjectIffIncludes(store: Store, user: string, binding: string)
    requires WellFounded(store)
    ensures IsSubject(store, user, binding) <==> Includes(store, binding, user)
  {
    forall g ensures IsMember(store, user, g) <==>
                     exists inner :: && Rel(Group, inner, Member, User, user, false) in store
                                     && Reaches(GroupEdges(store), g, inner)
    {
      HoldsIffReaches(GroupEdges(store), GroupsOf(store, user), g);
      forall inner ensures inner in GroupsOf(store, user) <==> Rel(Group, inner, Member, User, user, false) in store {
        var r := Rel(Group, inner, Member, User, user, false);
        assert r == Rel(Group, r.resourceId, Member, User, user, false);
        assert r in store ==> inner in GroupsOf(store, user);
      }
    }
  }

  /** A binding on workspace `top` whose subject includes the user and whose role grants `p`. */
  ghost predicate Grants(store: Store, user: string, top: string, p: Permission) {
    exists b :: && Rel(Workspace, top, UserGrant, RoleBinding, b, false) in store
                && Includes(store, b, user) && RolePermits(store, b, p)
  }

  lemma GrantingIffGrants(store: Store, user: string, p: Permission, top: string)
    requires WellFounded(store)
    ensures top in Granting(store, user, p) <==> Grants(store, user, top, p)
  {
    if top in Granting(store, user, p) {
      var r :| r in store && IsUserGrant(r) && BindingPermits(store, user, r.subjectId, p) && r.resourceId == top;
      SubjectIffIncludes(store, user, r.subjectId);
      assert r == Rel(Workspace, top, UserGrant, RoleBinding, r.subjectId, false);
    }
    if Grants(store, user, top, p) {
      var b :| && Rel(Workspace, top, UserGrant, RoleBinding, b, false) in store
               && Includes(store, b, user) && RolePermits(store, b, p);
      SubjectIffIncludes(store, user, b);
      assert IsUserGrant(Rel(Workspace, top, UserGrant, RoleBinding, b, false));
    }
  }

  /** A host is in a workspace below one where the user was granted `p`. */
  ghost predicate GrantedAbove(store: Store, user: string, host: string, p: Permission) {
    exists w, top ::
      HostWorkspace(host, w) in store && Reaches(ParentEdges(store), w, top) && Grants(store, user, top, p)
  }

  lemma HostPermitsIff(store: Store, user: string, host: string, p: Permission)
    requires WellFounded(store)
    ensures HostPermits(store, user, host, p) <==> GrantedAbove(store, user, host, p)
  {
    forall w ensures WorkspacePermits(store, user, w, p) <==>
                     exists top :: Reaches(ParentEdges(store), w, top) && Grants(store, user, top, p)
    {
      HoldsIffReaches(ParentEdges(store), Granting(store, user, p), w);
      forall top ensures top in Granting(store, user, p) <==> Grants(store, user, top, p) {
        GrantingIffGrants(store, user, p, top);
      }
    }
  }

  predicate ReadsHosts(p: Permission) {
    p == InventoryHostsRead || p == InventoryHostsAll || p == InventoryAllRead || p == InventoryAllAll
  }

  /** A host that is read is in a workspace. */
  lemma ReadIsInWorkspace(store: Store, user: string, host: string) returns (w: string)
    requires WellFounded(store) && HostRead(store, user, host)
    ensures HostWorkspace(host, w) in store
  {
    w :| HostWorkspace(host, w) in store;
  }

  predicate ReadsPatches(p: Permission) {
    p == PatchAllRead || p == PatchAllAll
  }

  /**
   Permission recursion means reachability: the recursive evaluation of a host's `read` holds iff
   some ancestor workspace has a binding that includes the user, through nested groups, and whose
   role grants one of the four read permissions.
   */
  lemma HostReadIff(store: Store, user: string, host: string)
    requires WellFounded(store)
    ensures HostRead(store, user, host) <==> exists p :: ReadsHosts(p) && GrantedAbove(store, user, host, p)
  {
    forall p ensures HostPermits(store, user, host, p) <==> GrantedAbove(store, user, host, p) {
      HostPermitsIff(store, user, host, p);
    }
  }

  lemma HostPatchReadIff(store: Store, user: string, host: string)
    requires WellFounded(store)
    ensures HostPatchRead(store, user, host) <==> exists p :: ReadsPatches(p) && GrantedAbove(store, user, host, p)
  {
    forall p ensures HostPermits(store, user, host, p) <==> GrantedAbove(store, user, host, p) {
      HostPermitsIff(store, user, host, p);
    }
  }

  // ----- Packages -----

  ghost predicate ReadableThrough(store: Store, user: string, system: string, host: string)
    requires WellFounded(store)
  {
    SystemHost(system, host) in store && HostRead(store, user, host) && HostPatchRead(store, user, host)
  }

  predicate OneHost(store: Store) {
    forall q, r | && q in store && r in store && IsSystemHost(q) && IsSystemHost(r)
                  && q.resourceId == r.resourceId :: q == r
  }

  lemma SystemReadIff(store: Store, user: string, system: string)
    requires WellFounded(store) && OneHost(store)
    ensures SystemRead(store, user, system) <==> exists h :: ReadableThrough(store, user, system, h)
  {
    if SystemRead(store, user, system) {
      var g :| SystemHost(system, g) in store && HostRead(store, user, g);
      var h :| SystemHost(system, h) in store && HostPatchRead(store, user, h);
      assert IsSystemHost(SystemHost(system, g)) && IsSystemHost(SystemHost(system, h));
      assert ReadableThrough(store, user, system, g);
    }
    if h :| ReadableThrough(store, user, system, h) {
      assert SystemHost(system, h) in store && HostRead(store, user, h);
      assert SystemHost(system, h) in store && HostPatchRead(store, user, h);
    }
  }

  /** With one host per system a package is readable iff a linked system's host grants both permissions. */
  lemma PatchReadIff(store: Store, user: string, patch: string)
    requires WellFounded(store) && OneHost(store)
    ensures PatchRead(store, user, patch) <==>
            exists s, h :: PatchSystem(patch, s) in store && ReadableThrough(store, user, s, h)
  {
    if PatchRead(store, user, patch) {
      var s :| PatchSystem(patch, s) in store && SystemRead(store, user, s);
      SystemReadIff(store, user, s);
    }
    if s, h :| PatchSystem(patch, s) in store && ReadableThrough(store, user, s, h) {
      SystemReadIff(store, user, s);
    }
  }

  // ----- Monotonicity -----

  lemma SubjectMonotone(store: Store, more: Store, user: string, binding: string)
    requires WellFounded(store) && WellFounded(more) && store <= more
    ensures IsSubject(store, user, binding) ==> IsSubject(more, user, binding)
  {
    forall g ensures IsMember(store, user, g) ==> IsMember(more, user, g) {
      HoldsMonotone(GroupEdges(store), GroupEdges(more), GroupsOf(store, user), GroupsOf(more, user), g);
    }
  }

  lemma HostPermitsMonotone(store: Store, more: Store, user: string, host: string, p: Permission)
    requires WellFounded(store) && WellFounded(more) && store <= more
    ensures HostPermits(store, user, host, p) ==> HostPermits(more, user, host, p)
  {
    forall b ensures IsSubject(store, user, b) ==> IsSubject(more, user, b) {
      SubjectMonotone(store, more, user, b);
    }
    assert Granting(store, user, p) <= Granting(more, user, p);
    forall w ensures WorkspacePermits(store, user, w, p) ==> WorkspacePermits(more, user, w, p) {
      HoldsMonotone(ParentEdges(store), ParentEdges(more), Granting(store, user, p), Granting(more, user, p), w);
    }
  }

  /** Adding tuples never revokes a read of a host or of a package. */
  lemma AddingNeverRevokes(store: Store, more: Store, user: string)
    requires WellFounded(store) && WellFounded(more) && store <= more
    ensures forall h :: HostRead(store, user, h) ==> HostRead(more, user, h)
    ensures forall x :: PatchRead(store, user, x) ==> PatchRead(more, user, x)
  {
    forall h, p ensures HostPermits(store, user, h, p) ==> HostPermits(more, user, h, p) {
      HostPermitsMonotone(store, more, user, h, p);
    }
    forall s ensures SystemRead(store, user, s) ==> SystemRead(more, user, s) {
    }
  }
}

/** The permissions of the schema spelled out in tuples: chains of nested groups and of workspace parents. */
module PermissionTuples {
  import opened Relationships
  import opened Reach
  import opened Permissions

  lemma GroupEdgeIsTuple(store: Store, outer: string, inner: string)
    ensures (outer, inner) in GroupEdges(store) <==> Rel(Group, outer, Member, Group, inner, true) in store
  {
    var t := Rel(Group, outer, Member, Group, inner, true);
    if t in store {
      assert t.resourceType == Group && t.relation == Member && t.subjectType == Group && t.members;
    }
  }

  lemma ParentEdgeIsTuple(store: Store, from: string, to: string)
    ensures (from, to) in ParentEdges(store) <==> Rel(Workspace, from, Parent, Workspace, to, false) in store
  {
    var t := Rel(Workspace, from, Parent, Workspace, to, false);
    if t in store {
      assert t.resourceType == Workspace && t.relation == Parent && t.subjectType == Workspace && !t.members;
    }
  }

  lemma GroupPathIsChain(store: Store, gs: seq<string>)
    ensures Path(GroupEdges(store), gs) <==>
            gs != [] && forall i | 0 <= i < |gs| - 1 :: Rel(Group, gs[i], Member, Group, gs[i + 1], true) in store
  {
    forall i | 0 <= i < |gs| - 1
      ensures (gs[i], gs[i + 1]) in GroupEdges(store) <==> Rel(Group, gs[i], Member, Group, gs[i + 1], true) in store
    {
      GroupEdgeIsTuple(store, gs[i], gs[i + 1]);
    }
  }

  lemma ParentPathIsChain(store: Store, ws: seq<string>)
    ensures Path(ParentEdges(store), ws) <==>
            ws != [] && forall i | 0 <= i < |ws| - 1 ::
                          Rel(Workspace, ws[i], Parent, Workspace, ws[i + 1], false) in store
  {
    forall i | 0 <= i < |ws| - 1
      ensures (ws[i], ws[i + 1]) in ParentEdges(store) <==>
              Rel(Workspace, ws[i], Parent, Workspace, ws[i + 1], false) in store
    {
      ParentEdgeIsTuple(store, ws[i], ws[i + 1]);
    }
  }

  /** Evaluation is defined iff no chain of nested groups and no chain of workspace parents comes back to its start. */
  lemma WellFoundedInTuples(store: Store)
    ensures WellFounded(store) <==>
            && (forall gs: seq<string> |
                  && |gs| > 1
                  && (forall i | 0 <= i < |gs| - 1 :: Rel(Group, gs[i], Member, Group, gs[i + 1], true) in store)
                  :: gs[0] != gs[|gs| - 1])
            && (forall ws: seq<string> |
                  && |ws| > 1
                  && (forall i | 0 <= i < |ws| - 1 ::
                        Rel(Workspace, ws[i], Parent, Workspace, ws[i + 1], false) in store)
                  :: ws[0] != ws[|ws| - 1])
  {
    forall gs: seq<string>
      ensures Path(GroupEdges(store), gs) <==>
              gs != [] && forall i | 0 <= i < |gs| - 1 :: Rel(Group, gs[i], Member, Group, gs[i + 1], true) in store
    {
      GroupPathIsChain(store, gs);
    }
    forall ws: seq<string>
      ensures Path(ParentEdges(store), ws) <==>
              ws != [] &&
              forall i | 0 <= i < |ws| - 1 :: Rel(Workspace, ws[i], Parent, Workspace, ws[i + 1], false) in store
    {
      ParentPathIsChain(store, ws);
    }
  }

  /**
   A user is a subject of a binding iff there is a tuple that says so, or a chain of group tuples
   from a group of the binding to a group of the user.
   */
  lemma SubjectInTuples(store: Store, user: string, binding: string)
    requires WellFounded(store)
    ensures IsSubject(store, user, binding) <==>
            || Rel(RoleBinding, binding, Subject, User, user, false) in store
            || exists gs: seq<string> ::
                 && gs != []
                 && Rel(RoleBinding, binding, Subject, Group, gs[0], true) in store
                 && (forall i | 0 <= i < |gs| - 1 :: Rel(Group, gs[i], Member, Group, gs[i + 1], true) in store)
                 && Rel(Group, gs[|gs| - 1], Member, User, user, false) in store
  {
    SubjectIffIncludes(store, user, binding);
    if g, inner :| && Rel(RoleBinding, binding, Subject, Group, g, true) in store
                   && Reaches(GroupEdges(store), g, inner)
                   && Rel(Group, inner, Member, User, user, false) in store {
      var gs :| PathFromTo(GroupEdges(store), gs, g, inner);
      GroupPathIsChain(store, gs);
    }
    if gs: seq<string> :| && gs != []
                          && Rel(RoleBinding, binding, Subject, Group, gs[0], true) in store
                          && (forall i | 0 <= i < |gs| - 1 ::
                                Rel(Group, gs[i], Member, Group, gs[i + 1], true) in store)
                          && Rel(Group, gs[|gs| - 1], Member, User, user, false) in store {
      GroupPathIsChain(store, gs);
      assert PathFromTo(GroupEdges(store), gs, gs[0], gs[|gs| - 1]);
    }
  }

  /** A host permission comes with a chain of workspaces, a binding on the last of them, and a role. */
  lemma PermitsToTuples(store: Store, user: string, host: string, p: Permission)
    returns (ws: seq<string>, b: string, r: string)
    requires WellFounded(store) && HostPermits(store, user, host, p)
    ensures && ws != []
            && Rel(Host, host, InWorkspace, Workspace, ws[0], false) in store
            && (forall i | 0 <= i < |ws| - 1 :: Rel(Workspace, ws[i], Parent, Workspace, ws[i + 1], false) in store)
            && Rel(Workspace, ws[|ws| - 1], UserGrant, RoleBinding, b, false) in store
            && IsSubject(store, user, b)
            && Rel(RoleBinding, b, Granted, Role, r, false) in store
            && Rel(Role, r, Permits(p), User, "*", false) in store
  {
    HostPermitsIff(store, user, host, p);
    var w, top :| HostWorkspace(host, w) in store && Reaches(ParentEdges(store), w, top) && Grants(store, user, top, p);
    ws :| PathFromTo(ParentEdges(store), ws, w, top);
    ParentPathIsChain(store, ws);
    b :| && Rel(Workspace, top, UserGrant, RoleBinding, b, false) in store
         && Includes(store, b, user) && RolePermits(store, b, p);
    SubjectIffIncludes(store, user, b);
    r :| && Rel(RoleBinding, b, Granted, Role, r, false) in store
         && Rel(Role, r, Permits(p), User, "*", false) in store;
  }

  lemma TuplesToPermits(store: Store, user: string, host: string, p: Permission, ws: seq<string>, b: string, r: string)
    requires WellFounded(store) && ws != []
    requires Rel(Host, host, InWorkspace, Workspace, ws[0], false) in store
    requires forall i | 0 <= i < |ws| - 1 :: Rel(Workspace, ws[i], Parent, Workspace, ws[i + 1], false) in store
    requires Rel(Workspace, ws[|ws| - 1], UserGrant, RoleBinding, b, false) in store && IsSubject(store, user, b)
    requires Rel(RoleBinding, b, Granted, Role, r, false) in store
    requires Rel(Role, r, Permits(p), User, "*", false) in store
    ensures HostPermits(store, user, host, p)
  {
    HostPermitsIff(store, user, host, p);
    ParentPathIsChain(store, ws);
    SubjectIffIncludes(store, user, b);
    assert PathFromTo(ParentEdges(store), ws, ws[0], ws[|ws| - 1]);
    assert HostWorkspace(host, ws[0]) in store && Grants(store, user, ws[|ws| - 1], p);
  }

  lemma SubjectToTuples(store: Store, user: string, binding: string) returns (gs: seq<string>)
    requires WellFounded(store) && IsSubject(store, user, binding)
    ensures if gs == [] then Rel(RoleBinding, binding, Subject, User, user, false) in store
            else && Rel(RoleBinding, binding, Subject, Group, gs[0], true) in store
                 && (forall i | 0 <= i < |gs| - 1 :: Rel(Group, gs[i], Member, Group, gs[i + 1], true) in store)
                 && Rel(Group, gs[|gs| - 1], Member, User, user, false) in store
  {
    SubjectInTuples(store, user, binding);
    if Rel(RoleBinding, binding, Subject, User, user, false) in store {
      gs := [];
    } else {
      gs :| && gs != []
            && Rel(RoleBinding, binding, Subject, Group, gs[0], true) in store
            && (forall i | 0 <= i < |gs| - 1 :: Rel(Group, gs[i], Member, Group, gs[i + 1], true) in store)
            && Rel(Group, gs[|gs| - 1], Member, User, user, false) in store;
    }
  }

  /** The ids that a permission on a host goes through; `gs` is empty when no group is involved. */
  datatype Route = Route(ws: seq<string>, binding: string, role: string, permission: Permission, gs: seq<string>)

  ghost predicate IsRoute(store: Store, user: string, host: string, t: Route) {
    && t.ws != []
    && Rel(Host, host, InWorkspace, Workspace, t.ws[0], false) in store
    && (forall i | 0 <= i < |t.ws| - 1 :: Rel(Workspace, t.ws[i], Parent, Workspace, t.ws[i + 1], false) in store)
    && Rel(Workspace, t.ws[|t.ws| - 1], UserGrant, RoleBinding, t.binding, false) in store
    && Rel(RoleBinding, t.binding, Granted, Role, t.role, false) in store
    && Rel(Role, t.role, Permits(t.permission), User, "*", false) in store
    && (if t.gs == [] then Rel(RoleBinding, t.binding, Subject, User, user, false) in store
        else && Rel(RoleBinding, t.binding, Subject, Group, t.gs[0], true) in store
             && (forall i | 0 <= i < |t.gs| - 1 :: Rel(Group, t.gs[i], Member, Group, t.gs[i + 1], true) in store)
             && Rel(Group, t.gs[|t.gs| - 1], Member, User, user, false) in store)
  }

  lemma PermitsToRoute(store: Store, user: string, host: string, p: Permission) returns (t: Route)
    requires WellFounded(store) && HostPermits(store, user, host, p)
    ensures t.permission == p && IsRoute(store, user, host, t)
  {
    var ws, b, r := PermitsToTuples(store, user, host, p);
    var gs := SubjectToTuples(store, user, b);
    t := Route(ws, b, r, p, gs);
  }

  lemma RouteToPermits(store: Store, user: string, host: string, t: Route)
    requires WellFounded(store) && IsRoute(store, user, host, t)
    ensures HostPermits(store, user, host, t.permission)
  {
    SubjectInTuples(store, user, t.binding);
    TuplesToPermits(store, user, host, t.permission, t.ws, t.binding, t.role);
  }

  /**
   A permission through the workspaces of a host, in tuples: a chain of workspaces upwards from the
   host's, a binding on the last of them, a role of the binding that lists the permission for every
   user, and the user as a subject of the binding, directly or through a chain of nested groups.
   */
  lemma HostPermitsInTuples(store: Store, user: string, host: string, p: Permission)
    requires WellFounded(store)
    ensures HostPermits(store, user, host, p) <==>
            exists t: Route ::
              && t.permission == p
              && t.ws != []
              && Rel(Host, host, InWorkspace, Workspace, t.ws[0], false) in store
              && (forall i | 0 <= i < |t.ws| - 1 ::
                    Rel(Workspace, t.ws[i], Parent, Workspace, t.ws[i + 1], false) in store)
              && Rel(Workspace, t.ws[|t.ws| - 1], UserGrant, RoleBinding, t.binding, false) in store
              && Rel(RoleBinding, t.binding, Granted, Role, t.role, false) in store
              && Rel(Role, t.role, Permits(t.permission), User, "*", false) in store
              && (if t.gs == [] then Rel(RoleBinding, t.binding, Subject, User, user, false) in store
                  else && Rel(RoleBinding, t.binding, Subject, Group, t.gs[0], true) in store
                       && (forall i | 0 <= i < |t.gs| - 1 ::
                             Rel(Group, t.gs[i], Member, Group, t.gs[i + 1], true) in store)
                       && Rel(Group, t.gs[|t.gs| - 1], Member, User, user, false) in store)
  {
    if HostPermits(store, user, host, p) {
      var t := PermitsToRoute(store, user, host, p);
    }
    forall t: Route |
      && t.permission == p
      && t.ws != []
      && Rel(Host, host, InWorkspace, Workspace, t.ws[0], false) in store
      && (forall i | 0 <= i < |t.ws| - 1 :: Rel(Workspace, t.ws[i], Parent, Workspace, t.ws[i + 1], false) in store)
      && Rel(Workspace, t.ws[|t.ws| - 1], UserGrant, RoleBinding, t.binding, false) in store
      && Rel(RoleBinding, t.binding, Granted, Role, t.role, false) in store
      && Rel(Role, t.role, Permits(t.permission), User, "*", false) in store
      && (if t.gs == [] then Rel(RoleBinding, t.binding, Subject, User, user, false) in store
          else && Rel(RoleBinding, t.binding, Subject, Group, t.gs[0], true) in store
               && (forall i | 0 <= i < |t.gs| - 1 :: Rel(Group, t.gs[i], Member, Group, t.gs[i + 1], true) in store)
               && Rel(Group, t.gs[|t.gs| - 1], Member, User, user, false) in store)
      ensures HostPermits(store, user, host, p)
    {
      RouteToPermits(store, user, host, t);
    }
  }

  /** `read` on a host in tuples: the same with one of the four read permissions. */
  lemma HostReadInTuples(store: Store, user: string, host: string)
    requires WellFounded(store)
    ensures HostRead(store, user, host) <==>
            exists t: Route ::
              && t.ws != []
              && Rel(Host, host, InWorkspace, Workspace, t.ws[0], false) in store
              && (forall i | 0 <= i < |t.ws| - 1 ::
                    Rel(Workspace, t.ws[i], Parent, Workspace, t.ws[i + 1], false) in store)
              && Rel(Workspace, t.ws[|t.ws| - 1], UserGrant, RoleBinding, t.binding, false) in store
              && Rel(RoleBinding, t.binding, Granted, Role, t.role, false) in store
              && Rel(Role, t.role, Permits(t.permission), User, "*", false) in store
              && (|| t.permission == InventoryHostsRead || t.permission == InventoryHostsAll
                  || t.permission == InventoryAllRead || t.permission == InventoryAllAll)
              && (if t.gs == [] then Rel(RoleBinding, t.binding, Subject, User, user, false) in store
                  else && Rel(RoleBinding, t.binding, Subject, Group, t.gs[0], true) in store
                       && (forall i | 0 <= i < |t.gs| - 1 ::
                             Rel(Group, t.gs[i], Member, Group, t.gs[i + 1], true) in store)
                       && Rel(Group, t.gs[|t.gs| - 1], Member, User, user, false) in store)
  {
    if HostRead(store, user, host) {
      var p :| HostPermits(store, user, host, p) &&
               (p == InventoryHostsRead || p == InventoryHostsAll || p == InventoryAllRead || p == InventoryAllAll);
      var t := PermitsToRoute(store, user, host, p);
    }
    forall t: Route |
      && t.ws != []
      && Rel(Host, host, InWorkspace, Workspace, t.ws[0], false) in store
      && (forall i | 0 <= i < |t.ws| - 1 :: Rel(Workspace, t.ws[i], Parent, Workspace, t.ws[i + 1], false) in store)
      && Rel(Workspace, t.ws[|t.ws| - 1], UserGrant, RoleBinding, t.binding, false) in store
      && Rel(RoleBinding, t.binding, Granted, Role, t.role, false) in store
      && Rel(Role, t.role, Permits(t.permission), User, "*", false) in store
      && (|| t.permission == InventoryHostsRead || t.permission == InventoryHostsAll
          || t.permission == InventoryAllRead || t.permission == InventoryAllAll)
      && (if t.gs == [] then Rel(RoleBinding, t.binding, Subject, User, user, false) in store
          else && Rel(RoleBinding, t.binding, Subject, Group, t.gs[0], true) in store
               && (forall i | 0 <= i < |t.gs| - 1 :: Rel(Group, t.gs[i], Member, Group, t.gs[i + 1], true) in store)
               && Rel(Group, t.gs[|t.gs| - 1], Member, User, user, false) in store)
      ensures HostRead(store, user, host)
    {
      RouteToPermits(store, user, host, t);
    }
  }

  /** `read` on a system in tuples: a host of it that is read, and one, the same or another, with a patch permission. */
  lemma SystemReadInTuples(store: Store, user: string, system: string)
    requires WellFounded(store)
    ensures SystemRead(store, user, system) <==>
            && (exists g :: Rel(System, system, OnHost, Host, g, false) in store && HostRead(store, user, g))
            && (exists h :: && Rel(System, system, OnHost, Host, h, false) in store
                            && (HostPermits(store, user, h, PatchAllRead) || HostPermits(store, user, h, PatchAllAll)))
  {
    forall h ensures SystemHost(system, h) == Rel(System, system, OnHost, Host, h, false) {
    }
  }

  lemma PatchReadInTuples(store: Store, user: string, patch: string)
    requires WellFounded(store)
    ensures PatchRead(store, user, patch) <==>
            exists s :: Rel(Patch, patch, HasSystem, System, s, false) in store && SystemRead(store, user, s)
  {
    forall s ensures PatchSystem(patch, s) == Rel(Patch, patch, HasSystem, System, s, false) {
    }
  }

  /** A group inside the group of a binding: the user of the inner group is a subject of the binding. */
  lemma NestedMemberIsSubject(store: Store)
    requires store == {
               Rel(Group, "g", Member, Group, "inner", true),
               Rel(Group, "inner", Member, User, "u", false),
               Rel(RoleBinding, "b", Subject, Group, "g", true)
             }
    ensures WellFounded(store) && IsSubject(store, "u", "b")
  {
    assert GroupEdges(store) == {("g", "inner")} by {
      forall d: (string, string) ensures d in GroupEdges(store) <==> d == ("g", "inner") {
        GroupEdgeIsTuple(store, d.0, d.1);
      }
    }
    NoEdgesNoCycle({});
    NoEdgesNoCycle(ParentEdges(store));
    assert {} + {("g", "inner")} == {("g", "inner")};
    EdgeKeepsAcyclicIff({}, "g", "inner");
    NoEdgesNoReach({}, "inner", "g");
    SubjectInTuples(store, "u", "b");
    var gs := ["g", "inner"];
    assert gs[0] == "g" && gs[|gs| - 1] == "inner";
    assert forall i | 0 <= i < |gs| - 1 :: Rel(Group, gs[i], Member, Group, gs[i + 1], true) in store;
  }
}

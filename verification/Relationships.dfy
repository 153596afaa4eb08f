/** The relationship store: tuples, batched writes, and the tuples the migration deals in. */
module Relationships {
  import opened Naming

  /** The definitions of the schema that the migration and the host permissions use. */
  datatype ObjectType =
    | User          // user
    | Group         // group
    | Role          // role
    | RoleBinding   // role_binding
    | Organization  // organization
    | Workspace     // workspace
    | Host          // inventory/host
    | System        // patch/system
    | Patch         // patch/patch

  /** The relations that role grants for `user:*`, one for each permission that a read needs. */
  datatype Permission =
    | InventoryHostsRead  // inventory_hosts_read
    | InventoryHostsAll   // inventory_hosts_all
    | InventoryAllRead    // inventory_all_read
    | InventoryAllAll     // inventory_all_all
    | PatchAllRead        // patch_all_read
    | PatchAllAll         // patch_all_all

  datatype Relation =
    | Member              // group#member
    | Subject             // role_binding#subject
    | Granted             // role_binding#granted
    | Parent              // workspace#parent
    | UserGrant           // workspace#user_grant
    | InWorkspace         // inventory/host#workspace
    | OnHost              // patch/system#host
    | HasSystem           // patch/patch#system
    | Permits(permission: Permission)  // role#<permission>

  /** A tuple resource#relation@subject, or resource#relation@subject#member for a subject set. */
  datatype Rel = Rel(resourceType: ObjectType, resourceId: string, relation: Relation,
                     subjectType: ObjectType, subjectId: string, members: bool)

  type Store = set<Rel>

  datatype Update = Touch(rel: Rel) | Delete(rel: Rel)

  function Apply(store: Store, u: Update): Store {
    match u
    case Touch(r) => store + {r}
    case Delete(r) => store - {r}
  }

  function ApplyAll(store: Store, us: seq<Update>): Store {
    if us == [] then store else Apply(ApplyAll(store, us[..|us| - 1]), us[|us| - 1])
  }

  lemma {:induction false} ApplyAllAppend(store: Store, us: seq<Update>, vs: seq<Update>)
    ensures ApplyAll(store, us + vs) == ApplyAll(ApplyAll(store, us), vs)
    decreases |vs|
  {
    if vs == [] {
      assert us + vs == us;
    } else {
      var n := |vs| - 1;
      assert (us + vs)[..|us + vs| - 1] == us + vs[..n];
      ApplyAllAppend(store, us, vs[..n]);
    }
  }

  /** Writing only touches adds exactly the touched tuples. */
  lemma {:induction false} TouchesAdd(store: Store, us: seq<Update>)
    requires forall i | 0 <= i < |us| :: us[i].Touch?
    ensures forall r :: r in ApplyAll(store, us) <==> r in store || Touch(r) in us
    decreases |us|
  {
    if us != [] {
      var n := |us| - 1;
      TouchesAdd(store, us[..n]);
      assert us == us[..n] + [us[n]];
    }
  }

  // ----- The tuples of the migration -----

  function RootParent(org: int): Rel {
    Rel(Workspace, RootId(org), Parent, Organization, Decimal(org), false)
  }

  function UngroupedParent(org: int): Rel {
    Rel(Workspace, UngroupedId(org), Parent, Workspace, RootId(org), false)
  }

  function HostWorkspace(host: string, workspace: string): Rel {
    Rel(Host, host, InWorkspace, Workspace, workspace, false)
  }

  function SystemHost(system: string, host: string): Rel {
    Rel(System, system, OnHost, Host, host, false)
  }

  function PatchSystem(patch: string, system: string): Rel {
    Rel(Patch, patch, HasSystem, System, system, false)
  }

  predicate IsHostWorkspace(r: Rel) {
    r.resourceType == Host && r.relation == InWorkspace
  }

  predicate IsSystemHost(r: Rel) {
    r.resourceType == System && r.relation == OnHost
  }

  // ----- The service -----

  function Total(sizes: seq<nat>): nat {
    if sizes == [] then 0 else Total(sizes[..|sizes| - 1]) + sizes[|sizes| - 1]
  }

  /** WriteRelationships is atomic; `fails` says for each call whether it reports an error. */
  class SpiceDb {
    const fails: set<nat>
    ghost const initial: Store
    var store: Store
    var calls: nat
    /** All updates of the successful calls, in order, and the sizes of those calls. */
    ghost var history: seq<Update>
    ghost var sizes: seq<nat>

    ghost predicate Valid()
      reads this
    {
      store == ApplyAll(initial, history) && Total(sizes) == |history|
    }

    constructor (store: Store, fails: set<nat>)
      ensures Valid() && this.store == store == initial && this.fails == fails
      ensures calls == 0 && history == [] && sizes == []
    {
      this.store, this.initial, this.fails, calls := store, store, fails, 0;
      history, sizes := [], [];
    }

    method WriteRelationships(updates: seq<Update>) returns (failed: bool)
      requires Valid()
      modifies this
      ensures Valid()
      ensures calls == old(calls) + 1 && failed == (old(calls) in fails)
      ensures failed ==> store == old(store) && history == old(history) && sizes == old(sizes)
      ensures !failed ==> && store == ApplyAll(old(store), updates)
                          && history == old(history) + updates && sizes == old(sizes) + [|updates|]
    {
      failed := calls in fails;
      calls := calls + 1;
      if !failed {
        ApplyAllAppend(initial, history, updates);
        history := history + updates;
        sizes := sizes + [|updates|];
        var i := 0;
        ghost var start := store;
        while i < |updates|
          invariant 0 <= i <= |updates|
          invariant store == ApplyAll(start, updates[..i])
          invariant calls == old(calls) + 1 && history == old(history) + updates && sizes == old(sizes) + [|updates|]
        {
          store := Apply(store, updates[i]);
          assert updates[..i + 1][..i] == updates[..i];
          i := i + 1;
        }
        assert updates[..|updates|] == updates;
      }
    }
  }
}

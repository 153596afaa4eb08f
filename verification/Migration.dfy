/** PSQLToSpiceDBMigration: the two row loops and the update buffer they share. */
module Migration {
  import opened Naming
  import opened Relationships
  import opened MigrationStream

  const MAX_BATCH := 100

  /** A row of system_package: name_id and system_id. */
  datatype PatchRow = PatchRow(nameId: int, systemId: int)

  function PatchUpdate(row: PatchRow): Update {
    Touch(PatchSystem(Decimal(row.nameId), Decimal(row.systemId)))
  }

  function PatchStream(rows: seq<PatchRow>): seq<Update> {
    seq(|rows|, i requires 0 <= i < |rows| => PatchUpdate(rows[i]))
  }

  // ----- Progress of a migration -----

  /** The updates sent so far, the sizes of the requests that carried them, the buffer, and the calls made. */
  datatype Progress = Progress(history: seq<Update>, sizes: seq<nat>, buffer: seq<Update>, calls: nat)

  /** Requests that extend each other by full batches. */
  ghost predicate ExtendsByFull(before: seq<nat>, after: seq<nat>) {
    before <= after && forall i | |before| <= i < |after| :: after[i] == MAX_BATCH
  }

  ghost predicate NoFailure(fails: set<nat>, from: nat, to: nat) {
    forall n: nat | from <= n < to :: n !in fails
  }

  /** The calls after `p` up to but without the call `to` sent one full batch each. */
  ghost predicate SentFull(fails: set<nat>, p: Progress, q: Progress, to: nat) {
    && p.calls <= to && NoFailure(fails, p.calls, to)
    && p.history <= q.history && |q.history| == |p.history| + MAX_BATCH * (to - p.calls)
    && ExtendsByFull(p.sizes, q.sizes)
  }

  /** The updates `us` were accepted after `p`, in order and behind everything before; only full batches were sent. */
  ghost predicate Accepted(fails: set<nat>, p: Progress, q: Progress, us: seq<Update>) {
    && SentFull(fails, p, q, q.calls)
    && q.history + q.buffer == p.history + p.buffer + us
    && (if us == [] then q == p else q.buffer != [])
  }

  /** A step that was to accept `us` failed on a write: what was sent is a prefix of what should have been. */
  ghost predicate Broken(fails: set<nat>, p: Progress, q: Progress, us: seq<Update>) {
    && p.calls < q.calls && q.calls - 1 in fails && q.buffer == []
    && SentFull(fails, p, q, q.calls - 1)
    && q.history <= p.history + p.buffer + us
  }

  /** The failed call was one that made room for more updates; otherwise it was the last flush. */
  ghost predicate Interrupted(fails: set<nat>, p: Progress, q: Progress, us: seq<Update>) {
    Broken(fails, p, q, us) && |p.buffer| + |us| > MAX_BATCH * (q.calls - p.calls)
  }

  /** Everything accepted after `p`, and the buffer before it, was sent, and only the last batch may not be full. */
  ghost predicate Delivered(fails: set<nat>, p: Progress, q: Progress, us: seq<Update>) {
    && p.calls < q.calls && NoFailure(fails, p.calls, q.calls)
    && q.history == p.history + p.buffer + us && q.buffer == []
    && |p.sizes| < |q.sizes| && ExtendsByFull(p.sizes, q.sizes[..|q.sizes| - 1])
    && q.sizes[|q.sizes| - 1] <= MAX_BATCH
    && |p.buffer| + |us| == MAX_BATCH * (q.calls - 1 - p.calls) + q.sizes[|q.sizes| - 1]
    && (if us == [] then q.calls == p.calls + 1 else q.sizes[|q.sizes| - 1] > 0)
  }

  /** The requests that carry `n` updates; an empty buffer is sent as well. */
  function Requests(n: nat): nat {
    if n == 0 then 1 else (n + MAX_BATCH - 1) / MAX_BATCH
  }

  lemma AcceptedThen(fails: set<nat>, p: Progress, q: Progress, r: Progress, us: seq<Update>, vs: seq<Update>)
    requires Accepted(fails, p, q, us) && Accepted(fails, q, r, vs)
    ensures Accepted(fails, p, r, us + vs)
  {
  }

  lemma InterruptedThen(fails: set<nat>, p: Progress, q: Progress, r: Progress, us: seq<Update>, vs: seq<Update>,
                        all: seq<Update>)
    requires Accepted(fails, p, q, us) && Interrupted(fails, q, r, vs) && us + vs <= all
    ensures Interrupted(fails, p, r, all)
  {
  }

  /** The progress after a flush. */
  function Flushed(p: Progress, failed: bool): Progress {
    if failed then Progress(p.history, p.sizes, [], p.calls + 1)
    else Progress(p.history + p.buffer, p.sizes + [|p.buffer|], [], p.calls + 1)
  }

  lemma AppendIsAccepted(fails: set<nat>, p: Progress, u: Update)
    ensures Accepted(fails, p, p.(buffer := p.buffer + [u]), [u])
  {
  }

  lemma FullFlush(fails: set<nat>, p: Progress, u: Update)
    requires |p.buffer| == MAX_BATCH
    ensures p.calls !in fails ==> Accepted(fails, p, Flushed(p, false).(buffer := [u]), [u])
    ensures p.calls in fails ==> Interrupted(fails, p, Flushed(p, true), [u])
  {
  }

  /** A run that begins at call `calls` and sends `n` updates fails iff a row cannot be decoded or a call fails. */
  ghost predicate FailsIff(fails: set<nat>, calls: nat, n: nat, undecodable: bool, failed: bool) {
    failed <==> undecodable || !NoFailure(fails, calls, calls + Requests(n))
  }

  /** The calls such a run needs: the first, and one more for every further hundred updates it begins. */
  lemma FailsIffNeededCallFails(fails: set<nat>, calls: nat, n: nat, undecodable: bool, failed: bool)
    ensures FailsIff(fails, calls, n, undecodable, failed) <==>
            (failed <==>
             || undecodable
             || exists call :: call in fails && calls <= call && (call == calls || 100 * (call - calls) < n))
  {
    forall call | call in fails
      ensures calls <= call < calls + Requests(n) <==> calls <= call && (call == calls || 100 * (call - calls) < n)
    {
    }
  }

  /** How a run whose query went well ends. */
  ghost predicate Ended(fails: set<nat>, p: Progress, q: Progress, us: seq<Update>, undecodable: bool, failed: bool) {
    && FailsIff(fails, p.calls, |p.buffer| + |us|, undecodable, failed)
    && (!failed ==> Delivered(fails, p, q, us))
    && (failed ==> (undecodable && Accepted(fails, p, q, us)) || Broken(fails, p, q, us))
  }

  lemma EndsInterrupted(fails: set<nat>, p: Progress, q: Progress, us: seq<Update>, undecodable: bool)
    requires Interrupted(fails, p, q, us)
    ensures Ended(fails, p, q, us, undecodable, true)
  {
    assert p.calls <= q.calls - 1 < p.calls + Requests(|p.buffer| + |us|);
  }

  /** The last flush is the last of the calls that the run needs. */
  lemma EndsWithFlush(fails: set<nat>, p: Progress, q: Progress, us: seq<Update>)
    requires Accepted(fails, p, q, us) && |p.buffer| <= MAX_BATCH && |q.buffer| <= MAX_BATCH
    ensures var r := Flushed(q, q.calls in fails);
            Ended(fails, p, r, us, false, q.calls in fails) && !Interrupted(fails, p, r, us)
  {
    assert q.calls + 1 == p.calls + Requests(|p.buffer| + |us|);
  }

  // ----- Prefixes of the stream -----

  lemma {:induction false} StreamOfPrefix(rows: seq<HostRow>, known: set<int>, i: nat)
    requires i <= |rows|
    ensures Stream(rows[..i], known) <= Stream(rows, known)
    decreases |rows|
  {
    if i == |rows| {
      assert rows[..i] == rows;
    } else {
      var n := |rows| - 1;
      StreamOfPrefix(rows[..n], known, i);
      assert rows[..n][..i] == rows[..i];
    }
  }

  lemma OneMoreRow(rows: seq<HostRow>, known: set<int>, i: nat)
    requires i < |rows|
    ensures var us := RowUpdates(rows[i], rows[i].orgId in known + Orgs(rows[..i]));
            && Stream(rows[..i + 1], known) == Stream(rows[..i], known) + us
            && Stream(rows[..i], known) + us <= Stream(rows, known)
    ensures Orgs(rows[..i + 1]) == Orgs(rows[..i]) + {rows[i].orgId}
  {
    assert rows[..i + 1][..i] == rows[..i];
    StreamOfPrefix(rows, known, i + 1);
    OrgsStep(rows[..i + 1]);
  }

  /** What one more row makes of the progress of the loop and of the known organizations. */
  lemma NextRowOutcome(fails: set<nat>, p: Progress, q: Progress, r: Progress, rows: seq<HostRow>, known: set<int>,
                       i: nat, before: set<int>, after: set<int>, failed: bool)
    requires i < |rows| && before == known + Orgs(rows[..i]) && Accepted(fails, p, q, Stream(rows[..i], known))
    requires var us := RowUpdates(rows[i], rows[i].orgId in before);
             if failed then Interrupted(fails, q, r, us) && before <= after <= before + {rows[i].orgId}
             else Accepted(fails, q, r, us) && after == before + {rows[i].orgId}
    ensures if failed then Interrupted(fails, p, r, Stream(rows, known)) && known <= after <= known + Orgs(rows)
            else Accepted(fails, p, r, Stream(rows[..i + 1], known)) && after == known + Orgs(rows[..i + 1])
  {
    var sofar, us := Stream(rows[..i], known), RowUpdates(rows[i], rows[i].orgId in before);
    OneMoreRow(rows, known, i);
    if failed {
      InterruptedThen(fails, p, q, r, sofar, us, Stream(rows, known));
    } else {
      AcceptedThen(fails, p, q, r, sofar, us);
    }
  }

  lemma OneMorePatch(rows: seq<PatchRow>, i: nat)
    requires i < |rows|
    ensures PatchStream(rows[..i + 1]) == PatchStream(rows[..i]) + [PatchUpdate(rows[i])]
    ensures PatchStream(rows[..i + 1]) <= PatchStream(rows)
  {
  }

  // ----- What the outcomes mean for the store -----

  /**
   However a host migration ends, starting from an empty buffer and a closed hierarchy with the
   known organizations linked, the hierarchy is closed.
   */
  lemma EveryOutcomeIsClosed(initial: Store, fails: set<nat>, p: Progress, q: Progress, rows: seq<HostRow>,
                             known: set<int>)
    requires p.buffer == [] && Closed(ApplyAll(initial, p.history))
    requires KnownAreLinked(ApplyAll(initial, p.history), rows, known)
    requires var us := Stream(rows, known);
             Accepted(fails, p, q, us) || Broken(fails, p, q, us) || Delivered(fails, p, q, us)
    ensures Closed(ApplyAll(initial, q.history))
  {
    var us := Stream(rows, known);
    var n := SentPrefix(fails, p, q, us);
    ApplyAllAppend(initial, p.history, us[..n]);
    EveryPrefixIsClosed(ApplyAll(initial, p.history), rows, known, n);
  }

  /** Whatever the outcome, the updates that reached the store are a prefix of the stream. */
  lemma SentPrefix(fails: set<nat>, p: Progress, q: Progress, us: seq<Update>) returns (n: nat)
    requires p.buffer == []
    requires Accepted(fails, p, q, us) || Broken(fails, p, q, us) || Delivered(fails, p, q, us)
    ensures n <= |us| && q.history == p.history + us[..n]
  {
    assert p.history + p.buffer == p.history;
    assert p.history <= q.history <= p.history + us;
    n := |q.history| - |p.history|;
  }

  /** A delivered host migration from the very start sent 2 * rows + 2 * organizations updates in requests of 100. */
  lemma {:induction false} DeliveredRequests(fails: set<nat>, p: Progress, q: Progress, rows: seq<HostRow>)
    requires p == Progress([], [], [], 0) && Delivered(fails, p, q, Stream(rows, {})) && Total(q.sizes) == |q.history|
    ensures var last := q.sizes[|q.sizes| - 1];
            && 2 * |rows| + 2 * |set r | r in rows :: r.orgId| == 100 * (|q.sizes| - 1) + last
            && last <= 100
    ensures forall i | 0 <= i < |q.sizes| - 1 :: q.sizes[i] == 100
  {
    StreamLength(rows, {});
    assert Orgs(rows) - {} == Orgs(rows);
    var full := q.sizes[..|q.sizes| - 1];
    TotalOfFullBatches(full);
    assert forall i | 0 <= i < |full| :: full[i] == q.sizes[i];
  }

  lemma {:induction false} TotalOfFullBatches(sizes: seq<nat>)
    requires forall i | 0 <= i < |sizes| :: sizes[i] == MAX_BATCH
    ensures Total(sizes) == MAX_BATCH * |sizes|
    decreases |sizes|
  {
    if sizes != [] {
      TotalOfFullBatches(sizes[..|sizes| - 1]);
    }
  }

  class Migrator {
    const spiceDb: SpiceDb
    var orgUngrouped: map<int, string>
    var updates: seq<Update>

    ghost predicate Valid()
      reads this, spiceDb
    {
      && spiceDb.Valid()
      && |updates| <= MAX_BATCH
      && forall org | org in orgUngrouped :: orgUngrouped[org] == UngroupedId(org)
    }

    ghost function State(): Progress
      reads this, spiceDb
    {
      Progress(spiceDb.history, spiceDb.sizes, updates, spiceDb.calls)
    }

    /** NewPSQLToSpiceDBMigration: a fresh migrator, which knows no organization. */
    constructor (spiceDb: SpiceDb)
      requires spiceDb.Valid()
      ensures Valid() && this.spiceDb == spiceDb && updates == [] && orgUngrouped == map[]
    {
      this.spiceDb := spiceDb;
      orgUngrouped := map[];
      updates := [];
    }

    /** flushUpdates: the buffer is empty afterwards whether the write succeeded or not. */
    method FlushUpdates() returns (failed: bool)
      requires Valid()
      modifies this, spiceDb
      ensures Valid() && orgUngrouped == old(orgUngrouped)
      ensures failed == (old(spiceDb.calls) in spiceDb.fails)
      ensures State() == Flushed(old(State()), failed)
    {
      failed := spiceDb.WriteRelationships(updates);
      updates := [];
    }

    /**
     addUpdate: makes room by sending a full buffer, then appends. Nothing accepted so far is
     reordered; when sending fails the buffer is lost and the update is not taken.
     */
    method AddUpdate(rel: Rel) returns (failed: bool)
      requires Valid()
      modifies this, spiceDb
      ensures Valid() && orgUngrouped == old(orgUngrouped)
      ensures !failed ==> Accepted(spiceDb.fails, old(State()), State(), [Touch(rel)])
      ensures failed ==> Interrupted(spiceDb.fails, old(State()), State(), [Touch(rel)])
    {
      ghost var p := State();
      AppendIsAccepted(spiceDb.fails, p, Touch(rel));
      if |updates| >= MAX_BATCH {
        FullFlush(spiceDb.fails, p, Touch(rel));
        failed := FlushUpdates();
        if failed {
          return;
        }
      }
      updates := updates + [Touch(rel)];
      failed := false;
    }

    /** Two updates added one after the other. */
    method AddTwo(first: Rel, second: Rel) returns (failed: bool)
      requires Valid()
      modifies this, spiceDb
      ensures Valid() && orgUngrouped == old(orgUngrouped)
      ensures !failed ==> Accepted(spiceDb.fails, old(State()), State(), [Touch(first), Touch(second)])
      ensures failed ==> Interrupted(spiceDb.fails, old(State()), State(), [Touch(first), Touch(second)])
    {
      ghost var p := State();
      failed := AddUpdate(first);
      if failed {
        return;
      }
      ghost var q := State();
      failed := AddUpdate(second);
      assert [Touch(first), Touch(second)] == [Touch(first)] + [Touch(second)];
      if failed {
        InterruptedThen(spiceDb.fails, p, q, State(), [Touch(first)], [Touch(second)], [Touch(first), Touch(second)]);
      } else {
        AcceptedThen(spiceDb.fails, p, q, State(), [Touch(first)], [Touch(second)]);
      }
    }

    /** One row: the parents of an organization that is new, then the host and its system. */
    method AddRow(row: HostRow) returns (failed: bool)
      requires Valid()
      modifies this, spiceDb
      ensures Valid()
      ensures !failed ==>
                Accepted(spiceDb.fails, old(State()), State(), RowUpdates(row, row.orgId in old(orgUngrouped)))
      ensures !failed ==> orgUngrouped.Keys == old(orgUngrouped).Keys + {row.orgId}
      ensures failed ==> old(orgUngrouped).Keys <= orgUngrouped.Keys <= old(orgUngrouped).Keys + {row.orgId}
      ensures failed ==>
                Interrupted(spiceDb.fails, old(State()), State(), RowUpdates(row, row.orgId in old(orgUngrouped)))
    {
      ghost var p, all := State(), RowUpdates(row, row.orgId in orgUngrouped);
      ghost var head: seq<Update> := [];
      var ungrouped: string;
      if row.orgId in orgUngrouped {
        ungrouped := orgUngrouped[row.orgId];
      } else {
        var root := Decimal(row.orgId) + "_root";
        ungrouped := root + "/ungrouped";
        failed := AddTwo(Rel(Workspace, root, Parent, Organization, Decimal(row.orgId), false),
                         Rel(Workspace, ungrouped, Parent, Workspace, root, false));
        head := ParentUpdates(row.orgId);
        if failed {
          InterruptedThen(spiceDb.fails, p, p, State(), [], head, all);
          return;
        }
        orgUngrouped := orgUngrouped[row.orgId := ungrouped];
      }
      ghost var q := State();
      assert all == head + HostUpdates(row);
      failed := AddTwo(Rel(Host, row.hostId, InWorkspace, Workspace, ungrouped, false),
                       Rel(System, Decimal(row.systemId), OnHost, Host, row.hostId, false));
      if failed {
        InterruptedThen(spiceDb.fails, p, q, State(), head, HostUpdates(row), all);
      } else {
        AcceptedThen(spiceDb.fails, p, q, State(), head, HostUpdates(row));
      }
    }

    /** The last flush ends a run that accepted `us` since `p`. */
    method Finish(ghost p: Progress, ghost us: seq<Update>) returns (failed: bool)
      requires Valid() && Accepted(spiceDb.fails, p, State(), us) && |p.buffer| <= MAX_BATCH
      modifies this, spiceDb
      ensures Valid() && orgUngrouped == old(orgUngrouped)
      ensures Ended(spiceDb.fails, p, State(), us, false, failed) && !Interrupted(spiceDb.fails, p, State(), us)
    {
      EndsWithFlush(spiceDb.fails, p, State(), us);
      failed := FlushUpdates();
    }

    /** The row loop of the host migration; it stops at the first error. */
    method AddRows(rows: seq<HostRow>) returns (failed: bool)
      requires Valid()
      modifies this, spiceDb
      ensures Valid()
      ensures !failed ==> Accepted(spiceDb.fails, old(State()), State(), Stream(rows, old(orgUngrouped).Keys))
      ensures !failed ==> orgUngrouped.Keys == old(orgUngrouped).Keys + Orgs(rows)
      ensures failed ==> old(orgUngrouped).Keys <= orgUngrouped.Keys <= old(orgUngrouped).Keys + Orgs(rows)
      ensures failed ==> Interrupted(spiceDb.fails, old(State()), State(), Stream(rows, old(orgUngrouped).Keys))
    {
      ghost var p, known := State(), orgUngrouped.Keys;
      failed := false;
      var count := 0;
      assert rows[..0] == [];
      while count < |rows|
        invariant 0 <= count <= |rows| && !failed
        invariant Valid() && orgUngrouped.Keys == known + Orgs(rows[..count])
        invariant Accepted(spiceDb.fails, p, State(), Stream(rows[..count], known))
      {
        failed := AddNextRow(rows, count, p, known);
        if failed {
          return;
        }
        count := count + 1;
      }
      assert rows[..|rows|] == rows;
    }

    /** One round of the row loop. */
    method AddNextRow(rows: seq<HostRow>, i: nat, ghost p: Progress, ghost known: set<int>) returns (failed: bool)
      requires Valid() && i < |rows| && orgUngrouped.Keys == known + Orgs(rows[..i])
      requires Accepted(spiceDb.fails, p, State(), Stream(rows[..i], known))
      modifies this, spiceDb
      ensures Valid()
      ensures !failed ==> orgUngrouped.Keys == known + Orgs(rows[..i + 1])
      ensures failed ==> known <= orgUngrouped.Keys <= known + Orgs(rows)
      ensures !failed ==> Accepted(spiceDb.fails, p, State(), Stream(rows[..i + 1], known))
      ensures failed ==> Interrupted(spiceDb.fails, p, State(), Stream(rows, known))
    {
      ghost var q, before := State(), orgUngrouped.Keys;
      failed := AddRow(rows[i]);
      NextRowOutcome(spiceDb.fails, p, q, State(), rows, known, i, before, orgUngrouped.Keys, failed);
    }

    /**
     MigrateContentHostsAndSystemsToSpiceDb. `rows` are the result rows that can be decoded and
     `undecodable` says that one follows that cannot; the run stops at the first error, without a
     last flush. It succeeds iff nothing fails, and then or when only the last flush is lost it
     knows every organization it met.
     */
    method MigrateContentHostsAndSystems(rows: seq<HostRow>, queryFails: bool, undecodable: bool)
      returns (failed: bool)
      requires Valid()
      modifies this, spiceDb
      ensures Valid()
      ensures queryFails ==> failed && State() == old(State()) && orgUngrouped == old(orgUngrouped)
      ensures !queryFails ==>
                Ended(spiceDb.fails, old(State()), State(), Stream(rows, old(orgUngrouped).Keys), undecodable, failed)
      ensures old(orgUngrouped).Keys <= orgUngrouped.Keys <= old(orgUngrouped).Keys + Orgs(rows)
      ensures var us := Stream(rows, old(orgUngrouped).Keys);
              !queryFails && !Interrupted(spiceDb.fails, old(State()), State(), us) ==>
                orgUngrouped.Keys == old(orgUngrouped).Keys + Orgs(rows)
    {
      if queryFails {
        return true;
      }
      ghost var p, us := State(), Stream(rows, orgUngrouped.Keys);
      failed := AddRows(rows);
      if failed {
        EndsInterrupted(spiceDb.fails, p, State(), us, undecodable);
        return;
      }
      if undecodable {
        return true;
      }
      failed := Finish(p, us);
    }

    /** MigratePackages; the arguments are those of the host migration. */
    method MigratePackages(rows: seq<PatchRow>, queryFails: bool, undecodable: bool) returns (failed: bool)
      requires Valid()
      modifies this, spiceDb
      ensures Valid() && orgUngrouped == old(orgUngrouped)
      ensures queryFails ==> failed && State() == old(State())
      ensures !queryFails ==> Ended(spiceDb.fails, old(State()), State(), PatchStream(rows), undecodable, failed)
    {
      if queryFails {
        return true;
      }
      ghost var p := State();
      var count := 0;
      assert rows[..0] == [];
      while count < |rows|
        invariant 0 <= count <= |rows|
        invariant Valid() && orgUngrouped == old(orgUngrouped)
        invariant Accepted(spiceDb.fails, p, State(), PatchStream(rows[..count]))
      {
        failed := AddNextPatch(rows, count, p);
        if failed {
          EndsInterrupted(spiceDb.fails, p, State(), PatchStream(rows), undecodable);
          return;
        }
        count := count + 1;
      }
      assert rows[..|rows|] == rows;
      if undecodable {
        return true;
      }
      failed := Finish(p, PatchStream(rows));
    }

    method AddNextPatch(rows: seq<PatchRow>, i: nat, ghost p: Progress) returns (failed: bool)
      requires Valid() && i < |rows|
      requires Accepted(spiceDb.fails, p, State(), PatchStream(rows[..i]))
      modifies this, spiceDb
      ensures Valid() && orgUngrouped == old(orgUngrouped)
      ensures !failed ==> Accepted(spiceDb.fails, p, State(), PatchStream(rows[..i + 1]))
      ensures failed ==> Interrupted(spiceDb.fails, p, State(), PatchStream(rows))
    {
      ghost var q := State();
      var row := rows[i];
      OneMorePatch(rows, i);
      failed := AddUpdate(Rel(Patch, Decimal(row.nameId), HasSystem, System, Decimal(row.systemId), false));
      if failed {
        InterruptedThen(spiceDb.fails, p, q, State(), PatchStream(rows[..i]), [PatchUpdate(row)], PatchStream(rows));
      } else {
        AcceptedThen(spiceDb.fails, p, q, State(), PatchStream(rows[..i]), [PatchUpdate(row)]);
      }
    }
  }

  /**
   The migration command: a fresh migrator and one run of it. Whatever fails, a closed hierarchy
   stays closed; on success the store has exactly the tuples of the stream added.
   */
  method MigrateToSpiceDb(spiceDb: SpiceDb, rows: seq<HostRow>, queryFails: bool,
                          undecodable: bool) returns (failed: bool)
    requires spiceDb.Valid()
    modifies spiceDb
    ensures spiceDb.Valid()
    ensures queryFails ==> failed && spiceDb.store == old(spiceDb.store)
    ensures !queryFails ==>
              (failed <==>
               || undecodable
               || exists call :: && call in spiceDb.fails && old(spiceDb.calls) <= call
                                 && (|| call == old(spiceDb.calls)
                                     || 100 * (call - old(spiceDb.calls)) <
                                        2 * |rows| + 2 * |set r | r in rows :: r.orgId|))
    ensures Closed(old(spiceDb.store)) ==> Closed(spiceDb.store)
    ensures !failed ==> spiceDb.store == ApplyAll(old(spiceDb.store), Stream(rows, {}))
    ensures !failed ==>
              forall r :: r in spiceDb.store <==>
                          || r in old(spiceDb.store)
                          || exists row :: row in rows &&
                               var root := Decimal(row.orgId) + "_root";
                               var ungrouped := root + "/ungrouped";
                               || r == Rel(Workspace, root, Parent, Organization, Decimal(row.orgId), false)
                               || r == Rel(Workspace, ungrouped, Parent, Workspace, root, false)
                               || r == Rel(Host, row.hostId, InWorkspace, Workspace, ungrouped, false)
                               || r == Rel(System, Decimal(row.systemId), OnHost, Host, row.hostId, false)
  {
    var migrator := new Migrator(spiceDb);
    ghost var p := migrator.State();
    ghost var before := spiceDb.store;
    ghost var us := Stream(rows, {});
    assert migrator.orgUngrouped.Keys == {} && |p.buffer| + |us| == |us|;
    failed := migrator.MigrateContentHostsAndSystems(rows, queryFails, undecodable);
    ghost var q := migrator.State();
    assert before == ApplyAll(spiceDb.initial, p.history) && spiceDb.store == ApplyAll(spiceDb.initial, q.history);
    StoreAfterMigration(spiceDb.initial, spiceDb.fails, p, q, rows, queryFails, undecodable, failed);
    StreamLength(rows, {});
    assert Orgs(rows) - {} == Orgs(rows);
    FailsIffNeededCallFails(spiceDb.fails, p.calls, |us|, undecodable, failed);
    if !failed {
      forall r: Rel {
        StreamTuples(before, rows, r);
      }
    }
  }

  lemma StoreAfterMigration(initial: Store, fails: set<nat>, p: Progress, q: Progress, rows: seq<HostRow>,
                            queryFails: bool, undecodable: bool, failed: bool)
    requires p.buffer == []
    requires if queryFails then failed && q == p else Ended(fails, p, q, Stream(rows, {}), undecodable, failed)
    ensures Closed(ApplyAll(initial, p.history)) ==> Closed(ApplyAll(initial, q.history))
    ensures !failed ==> ApplyAll(initial, q.history) == ApplyAll(ApplyAll(initial, p.history), Stream(rows, {}))
  {
    if !queryFails && Closed(ApplyAll(initial, p.history)) {
      EveryOutcomeIsClosed(initial, fails, p, q, rows, {});
    }
    if !failed {
      assert p.history + p.buffer == p.history;
      ApplyAllAppend(initial, p.history, Stream(rows, {}));
    }
  }

  /** In a run that fits into one request the last flush is the only call. */
  lemma OneRequestLost(fails: set<nat>, p: Progress, q: Progress, us: seq<Update>, failed: bool)
    requires p.buffer == [] && |us| <= MAX_BATCH && p.calls in fails && Ended(fails, p, q, us, false, failed)
    ensures failed && !Interrupted(fails, p, q, us)
    ensures q.history == p.history && q.buffer == [] && q.calls == p.calls + 1
  {
    assert Requests(|us|) == 1;
    assert q.calls == p.calls + 1;
  }

  /** A fresh migrator whose only flush is lost: nothing is written, but the organizations are taken for known. */
  method RunAndLoseFlush(spiceDb: SpiceDb, rows: seq<HostRow>) returns (migrator: Migrator, failed: bool)
    requires spiceDb.Valid() && |Stream(rows, {})| <= MAX_BATCH && spiceDb.calls in spiceDb.fails
    modifies spiceDb
    ensures fresh(migrator) && migrator.Valid() && migrator.spiceDb == spiceDb && failed
    ensures spiceDb.store == old(spiceDb.store)
    ensures migrator.State() == Progress(old(spiceDb.history), spiceDb.sizes, [], old(spiceDb.calls) + 1)
    ensures migrator.orgUngrouped.Keys == Orgs(rows)
  {
    migrator := new Migrator(spiceDb);
    ghost var p, us := migrator.State(), Stream(rows, {});
    assert migrator.orgUngrouped.Keys == {};
    failed := migrator.MigrateContentHostsAndSystems(rows, false, false);
    OneRequestLost(spiceDb.fails, p, migrator.State(), us, failed);
    assert {} + Orgs(rows) == Orgs(rows);
  }

  /**
   A migrator used again after its only flush was lost: the second run succeeds and leaves the
   hierarchy closed iff the organizations had been linked before the first.
   */
  method RetryAfterLostFlush(spiceDb: SpiceDb, rows: seq<HostRow>) returns (first: bool, second: bool)
    requires spiceDb.Valid() && Closed(spiceDb.store) && |Stream(rows, {})| <= MAX_BATCH
    requires spiceDb.calls in spiceDb.fails && spiceDb.calls + 1 !in spiceDb.fails
    modifies spiceDb
    ensures spiceDb.Valid() && first && !second
    ensures Closed(spiceDb.store) <==> forall r | r in rows :: Linked(old(spiceDb.store), r.orgId)
  {
    var migrator;
    migrator, first := RunAndLoseFlush(spiceDb, rows);
    ghost var p, before := migrator.State(), spiceDb.store;
    assert before == ApplyAll(spiceDb.initial, p.history);
    second := migrator.MigrateContentHostsAndSystems(rows, false, false);
    ghost var q := migrator.State();
    assert spiceDb.store == ApplyAll(spiceDb.initial, q.history);
    RetrySucceeds(spiceDb.initial, spiceDb.fails, p, q, rows, second);
  }

  /** In a run that fits into one request and whose next call succeeds everything is sent. */
  lemma OneRequestSent(fails: set<nat>, p: Progress, q: Progress, us: seq<Update>, failed: bool)
    requires p.buffer == [] && |us| <= MAX_BATCH && p.calls !in fails && Ended(fails, p, q, us, false, failed)
    ensures !failed && q.history == p.history + us
  {
    assert Requests(|us|) == 1;
    assert p.history + p.buffer == p.history;
  }

  lemma RetrySucceeds(initial: Store, fails: set<nat>, p: Progress, q: Progress, rows: seq<HostRow>, failed: bool)
    requires p.buffer == [] && |Stream(rows, {})| <= MAX_BATCH && p.calls !in fails
    requires Ended(fails, p, q, Stream(rows, Orgs(rows)), false, failed)
    requires Closed(ApplyAll(initial, p.history))
    ensures !failed
    ensures Closed(ApplyAll(initial, q.history)) <==>
            forall r | r in rows :: Linked(ApplyAll(initial, p.history), r.orgId)
  {
    var store, us := ApplyAll(initial, p.history), Stream(rows, Orgs(rows));
    StreamLength(rows, {});
    StreamLength(rows, Orgs(rows));
    OneRequestSent(fails, p, q, us, failed);
    ApplyAllAppend(initial, p.history, us);
    KnownOrganizationsMustBeLinkedIff(store, rows, Orgs(rows));
    assert KnownAreLinked(store, rows, Orgs(rows)) <==> forall r | r in rows :: Linked(store, r.orgId);
  }

  /** The shortest such run: one host, an empty store, and a first call that fails. */
  method LostFlushOpensHierarchy(row: HostRow) returns (spiceDb: SpiceDb)
    ensures fresh(spiceDb) && !Closed(spiceDb.store)
  {
    spiceDb := new SpiceDb({}, {0});
    StreamLength([row], {});
    assert Orgs([row]) == {row.orgId};
    var first, second := RetryAfterLostFlush(spiceDb, [row]);
    assert row in [row];
  }

  // ----- Using a migrator again, in general -----

  /** What a run of a fresh migrator wrote, together with what it left in the buffer, is a prefix of its stream. */
  lemma FirstRunSent(initial: Store, fails: set<nat>, p: Progress, q: Progress, rows: seq<HostRow>,
                     queryFails: bool, undecodable: bool, failed: bool) returns (n: nat)
    requires p.buffer == []
    requires if queryFails then failed && q == p else Ended(fails, p, q, Stream(rows, {}), undecodable, failed)
    ensures n <= |Stream(rows, {})| && (!failed ==> n == |Stream(rows, {})|)
    ensures ApplyAll(ApplyAll(initial, q.history), q.buffer) ==
            ApplyAll(ApplyAll(initial, p.history), Stream(rows, {})[..n])
  {
    var us := Stream(rows, {});
    n := |q.history| + |q.buffer| - |p.history|;
    assert p.history + p.buffer == p.history;
    assert p.history + us[..n] == q.history + q.buffer;
    ApplyAllAppend(initial, q.history, q.buffer);
    ApplyAllAppend(initial, p.history, us[..n]);
  }

  /** A later run that succeeds sends that buffer and its own stream. */
  lemma SecondRunIsClosedIff(initial: Store, fails: set<nat>, q: Progress, r: Progress, again: seq<HostRow>,
                             known: set<int>)
    requires Delivered(fails, q, r, Stream(again, known))
    requires Closed(ApplyAll(ApplyAll(initial, q.history), q.buffer))
    ensures Closed(ApplyAll(initial, r.history)) <==>
            KnownAreLinked(ApplyAll(ApplyAll(initial, q.history), q.buffer), again, known)
  {
    ApplyAllAppend(initial, q.history, q.buffer);
    ApplyAllAppend(initial, q.history + q.buffer, Stream(again, known));
    KnownOrganizationsMustBeLinkedIff(ApplyAll(initial, q.history + q.buffer), again, known);
  }

  /**
   Any run of a fresh migrator, failed or not, and a second run on other rows that succeeds: the
   hierarchy is closed iff the organizations that the first run came to know and the second meets
   are linked by the part of its stream that the first run wrote or left in the buffer.
   */
  method MigrateAgain(spiceDb: SpiceDb, rows: seq<HostRow>, again: seq<HostRow>, queryFails: bool, undecodable: bool)
    returns (first: bool, second: bool, ghost sent: nat, ghost known: set<int>)
    requires spiceDb.Valid() && Closed(spiceDb.store)
    modifies spiceDb
    ensures spiceDb.Valid()
    ensures sent <= |Stream(rows, {})| && (!first ==> sent == |Stream(rows, {})|) && known <= Orgs(rows)
    ensures !second ==>
              (Closed(spiceDb.store) <==>
               KnownAreLinked(ApplyAll(old(spiceDb.store), Stream(rows, {})[..sent]), again, known))
  {
    var migrator := new Migrator(spiceDb);
    ghost var p := migrator.State();
    assert migrator.orgUngrouped.Keys == {} && spiceDb.store == ApplyAll(spiceDb.initial, p.history);
    first := migrator.MigrateContentHostsAndSystems(rows, queryFails, undecodable);
    ghost var q := migrator.State();
    known := migrator.orgUngrouped.Keys;
    sent := FirstRunSent(spiceDb.initial, spiceDb.fails, p, q, rows, queryFails, undecodable, first);
    EveryPrefixIsClosed(ApplyAll(spiceDb.initial, p.history), rows, {}, sent);
    second := migrator.MigrateContentHostsAndSystems(again, false, false);
    ghost var r := migrator.State();
    assert spiceDb.store == ApplyAll(spiceDb.initial, r.history);
    if !second {
      SecondRunIsClosedIff(spiceDb.initial, spiceDb.fails, q, r, again, known);
    }
  }
}

/** MoveSystemsMigration: the row loop, one database transaction and one write to the relationship store. */
module MoveSystems {
  import opened Common
  import opened Keys
  import opened Naming
  import opened Relationships
  import opened MoveTables
  import opened MoveRelations

  /** The steps of MoveSystems that can fail. */
  datatype Stage =
    | Query | Decode(row: AccKey) | Begin
    | Repos | Advisories | SystemRows | Baselines
    | Write | Commit

  /** `Panicked` is the call on the missing transaction that follows a failed begin. */
  datatype Outcome = Moved | Panicked | Failed(stage: Stage)

  /** Whether the relationships were written. */
  predicate Wrote(o: Outcome) {
    o == Moved || o == Failed(Commit)
  }

  /** Whether the database ended up with the move in it. */
  predicate TookEffect(o: Outcome, commit: TxOutcome) {
    o == Moved || (o == Failed(Commit) && commit == CommitLost)
  }

  function JoinedSystems(c: Content, hosts: set<string>, acc: int): set<AccKey> {
    set s | s in c.systems && s.acc == acc && c.systems[s].inventoryId in hosts
  }

  /** Whether the query and the decoding of every row go well. */
  predicate RowsRead(c: Content, e: Surroundings, from: int, faults: set<Stage>) {
    Query !in faults && forall s | s in JoinedSystems(c, e.hosts, from) :: Decode(s) !in faults
  }

  /** The first statement that is made to fail or that the database does not accept after those before it. */
  function FirstFailing(c: Content, e: Surroundings, from: int, to: int, faults: set<Stage>): (stage: Option<Stage>)
    ensures stage.None? <==> faults !! {Repos, Advisories, SystemRows, Baselines} && AcceptsMove(e, c, from, to)
    ensures stage == Some(Repos) <==> Repos in faults || !AcceptsRepos(e, c, from, to)
    ensures stage == Some(Advisories) ==> Repos !in faults
    ensures stage == Some(SystemRows) ==> faults !! {Repos, Advisories}
    ensures stage == Some(Baselines) ==> faults !! {Repos, Advisories, SystemRows}
  {
    if Repos in faults || !AcceptsRepos(e, c, from, to) then Some(Repos)
    else
      var c1 := MoveRepos(c, from, to);
      if Advisories in faults || !AcceptsAdvisories(e, c1, from, to) then Some(Advisories)
      else
        var c2 := MoveAdvisories(c1, from, to);
        if SystemRows in faults || !AcceptsSystems(e, c2, from, to) then Some(SystemRows)
        else if Baselines in faults || !AcceptsBaselines(e, MoveSystemRows(c2, from, to), from, to) then Some(Baselines)
        else None
  }

  /** Whether everything before the write goes well. */
  predicate ReachesWrite(c: Content, e: Surroundings, from: int, to: int, faults: set<Stage>) {
    RowsRead(c, e, from, faults) && Begin !in faults && FirstFailing(c, e, from, to, faults).None?
  }

  /** What a run with these faults returns: the first step that goes wrong decides. */
  ghost predicate EndsWith(c: Content, e: Surroundings, from: int, to: int, faults: set<Stage>, writeFails: bool,
                           commit: TxOutcome, o: Outcome) {
    if Query in faults then o == Failed(Query)
    else if !RowsRead(c, e, from, faults) then
      exists s :: s in JoinedSystems(c, e.hosts, from) && Decode(s) in faults && o == Failed(Decode(s))
    else if Begin in faults then o == Panicked
    else
      var stage := FirstFailing(c, e, from, to, faults);
      if stage.Some? then o == Failed(stage.value)
      else if writeFails then o == Failed(Write)
      else if commit != Committed then o == Failed(Commit)
      else o == Moved
  }

  class MoveSystemsMigration {
    var db: Content
    const spiceDb: SpiceDb

    constructor (db: Content, spiceDb: SpiceDb)
      ensures this.db == db && this.spiceDb == spiceDb
    {
      this.db, this.spiceDb := db, spiceDb;
    }

    /** The row loop: a delete and a touch for the host of every joined system, in any row order. */
    method CollectUpdates(e: Surroundings, from: int, to: int, faults: set<Stage>)
      returns (undecodable: Option<AccKey>, updates: seq<Update>, ghost hs: seq<string>)
      ensures undecodable.None? <==> forall s | s in JoinedSystems(db, e.hosts, from) :: Decode(s) !in faults
      ensures undecodable.Some? ==> && Decode(undecodable.value) in faults
                                    && undecodable.value in JoinedSystems(db, e.hosts, from)
      ensures undecodable.None? ==> && updates == MoveUpdates(hs, from, to)
                                    && SetOf(hs) == HostsOf(db.systems, e.hosts, from)
    {
      updates, hs := [], [];
      var rows := JoinedSystems(db, e.hosts, from);
      ghost var all := rows;
      while rows != {}
        invariant rows <= all
        invariant forall s | s in all - rows :: Decode(s) !in faults
        invariant updates == MoveUpdates(hs, from, to)
        invariant forall s | s in all - rows :: db.systems[s].inventoryId in hs
        invariant forall h | h in hs :: h in HostsOf(db.systems, e.hosts, from)
        decreases rows
      {
        var s :| s in rows;
        if Decode(s) in faults {
          undecodable := Some(s);
          return;
        }
        var host := db.systems[s].inventoryId;
        updates := updates + [Delete(HostWorkspace(host, UngroupedId(from)))];
        updates := updates + [Touch(HostWorkspace(host, UngroupedId(to)))];
        ghost var done := hs;
        hs := hs + [host];
        assert hs[..|hs| - 1] == done;
        assert updates == MoveUpdates(done, from, to) + HostMove(host, from, to);
        assert host in hs && forall h | h in hs :: h in done || h == host;
        rows := rows - {s};
      }
      undecodable := None;
    }

    /** The four statements on the transaction's own copy of the tables; the first that fails ends it. */
    method Execute(e: Surroundings, from: int, to: int, faults: set<Stage>) returns (failed: Option<Stage>, tx: Content)
      ensures failed == FirstFailing(db, e, from, to, faults)
      ensures failed.None? ==> tx == MoveTables.Moved(db, from, to)
    {
      tx := db;
      if Repos in faults || !AcceptsRepos(e, tx, from, to) {
        return Some(Repos), tx;
      }
      tx := MoveRepos(tx, from, to);
      if Advisories in faults || !AcceptsAdvisories(e, tx, from, to) {
        return Some(Advisories), tx;
      }
      tx := MoveAdvisories(tx, from, to);
      if SystemRows in faults || !AcceptsSystems(e, tx, from, to) {
        return Some(SystemRows), tx;
      }
      tx := MoveSystemRows(tx, from, to);
      if Baselines in faults || !AcceptsBaselines(e, tx, from, to) {
        return Some(Baselines), tx;
      }
      tx := MoveBaselines(tx, from, to);
      failed := None;
    }

    /**
     MoveSystems. `faults` are the steps that the environment makes fail, `commit` is what becomes
     of the commit, and the store's own `fails` decides about the write.
     */
    method MoveSystems(e: Surroundings, from: int, to: int, faults: set<Stage>,
                       commit: TxOutcome) returns (o: Outcome)
      requires spiceDb.Valid()
      modifies this, spiceDb
      ensures spiceDb.Valid()
      ensures EndsWith(old(db), e, from, to, faults, old(spiceDb.calls) in spiceDb.fails, commit, o)
      ensures o == Moved <==>
              && faults !! {Query, Begin, Repos, Advisories, SystemRows, Baselines}
              && (forall s | s in old(db).systems && s.acc == from && old(db).systems[s].inventoryId in e.hosts ::
                    Decode(s) !in faults)
              && AcceptsMove(e, old(db), from, to)
              && old(spiceDb.calls) !in spiceDb.fails && commit == Committed
      ensures Query in faults ==> o == Failed(Query)
      ensures o == Panicked ==> Begin in faults && Query !in faults
      ensures o == Failed(Write) ==> old(spiceDb.calls) in spiceDb.fails
      ensures o == Failed(Commit) ==> commit != Committed && old(spiceDb.calls) !in spiceDb.fails
      ensures Wrote(o) <==> ReachesWrite(old(db), e, from, to, faults) && old(spiceDb.calls) !in spiceDb.fails
      ensures spiceDb.calls == old(spiceDb.calls) + if ReachesWrite(old(db), e, from, to, faults) then 1 else 0
      ensures Wrote(o) ==> AcceptsMove(e, old(db), from, to)
      ensures db == if TookEffect(o, commit) then MoveTables.Moved(old(db), from, to) else old(db)
      ensures spiceDb.store == if Wrote(o)
                               then MovedHosts(old(spiceDb.store), HostsOf(old(db).systems, e.hosts, from), from, to)
                               else old(spiceDb.store)
      ensures o == Moved || (o == Failed(Commit) && commit == CommitLost) ==> db == MoveTables.Moved(old(db), from, to)
      ensures !(o == Moved || (o == Failed(Commit) && commit == CommitLost)) ==> db == old(db)
      ensures o != Moved && o != Failed(Commit) ==> spiceDb.store == old(spiceDb.store)
    {
      if Query in faults {
        return Failed(Query);
      }
      var undecodable, updates, hs := CollectUpdates(e, from, to, faults);
      if undecodable.Some? {
        return Failed(Decode(undecodable.value));
      }
      if Begin in faults {
        return Panicked;
      }
      var stage, tx := Execute(e, from, to, faults);
      if stage.Some? {
        return Failed(stage.value);
      }
      MoveUpdatesMoveHosts(spiceDb.store, hs, from, to);
      var writeFailed := spiceDb.WriteRelationships(updates);
      if writeFailed {
        return Failed(Write);
      }
      if TakesEffect(commit) {
        db := tx;
      }
      o := if commit == Committed then Moved else Failed(Commit);
    }
  }

  /**
   Starting in step, the only way out of step is a commit that failed and took no effect after
   the write, and it is one iff there was a host to move.
   */
  lemma OutcomesInStep(c: Content, e: Surroundings, store: Store, from: int, to: int, o: Outcome, commit: TxOutcome)
    requires from != to && InStep(store, c.systems, e.hosts) && (Wrote(o) ==> AcceptsMove(e, c, from, to))
    ensures var store' := if Wrote(o) then MovedHosts(store, HostsOf(c.systems, e.hosts, from), from, to) else store;
            var c' := if TookEffect(o, commit) then MoveTables.Moved(c, from, to) else c;
            InStep(store', c'.systems, e.hosts) <==>
            !(o == Failed(Commit) && commit != CommitLost && HostsOf(c.systems, e.hosts, from) != {})
  {
    if Wrote(o) {
      MoveKeepsInStep(store, c.systems, e.hosts, from, to);
    }
    LostCommitDivergesIff(store, c.systems, e.hosts, from, to);
  }
}

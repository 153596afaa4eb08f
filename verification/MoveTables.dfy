/**
 The four UPDATE statements of MoveSystems on tables as values: when the database accepts them,
 and what they do to the composite foreign keys.
 */
module MoveTables {
  import opened Common
  import opened Keys
  import opened Tables

  /** baseline, by (rh_account_id, id); the value is its name. */
  type BaselineTable = map<AccKey, string>

  datatype Content = Content(
    systems: SystemTable, advisories: AdvisoryTable, repos: set<LinkKey>, baselines: BaselineTable)

  /** What the statements do not change: other tables, and whether the droppable constraints are in place. */
  datatype Surroundings = Surroundings(hosts: set<string>, accounts: set<int>, packages2: set<LinkKey>, enforced: bool)

  // ----- `UPDATE ... SET rh_account_id = to WHERE rh_account_id = from` -----

  function MoveKey(k: AccKey, from: int, to: int): AccKey {
    if k.acc == from then AccKey(to, k.id) else k
  }

  function MoveLink(l: LinkKey, from: int, to: int): LinkKey {
    if l.acc == from then LinkKey(to, l.system, l.item) else l
  }

  function MovedKeys(ks: set<AccKey>, from: int, to: int): set<AccKey> {
    set k | k in ks :: MoveKey(k, from, to)
  }

  function MovedLinks(ls: set<LinkKey>, from: int, to: int): set<LinkKey> {
    set l | l in ls :: MoveLink(l, from, to)
  }

  /** No two rows would get the same key. */
  predicate NoKeyCollision(ks: set<AccKey>, from: int, to: int) {
    from != to ==> forall k | k in ks && k.acc == from :: AccKey(to, k.id) !in ks
  }

  predicate NoLinkCollision(ls: set<LinkKey>, from: int, to: int) {
    from != to ==> forall l | l in ls && l.acc == from :: LinkKey(to, l.system, l.item) !in ls
  }

  function MovedRows<V>(rows: map<AccKey, V>, from: int, to: int): (r: map<AccKey, V>)
    requires NoKeyCollision(rows.Keys, from, to)
    ensures r.Keys == MovedKeys(rows.Keys, from, to)
  {
    map k | k in rows :: MoveKey(k, from, to) := rows[k]
  }

  function MovedLinkRows<V>(rows: map<LinkKey, V>, from: int, to: int): (r: map<LinkKey, V>)
    requires NoLinkCollision(rows.Keys, from, to)
    ensures r.Keys == MovedLinks(rows.Keys, from, to)
  {
    map l | l in rows :: MoveLink(l, from, to) := rows[l]
  }

  /** A row goes to its moved key and is otherwise unchanged. */
  lemma MovedRowAt<V>(rows: map<AccKey, V>, from: int, to: int, k: AccKey)
    requires NoKeyCollision(rows.Keys, from, to) && k in rows
    ensures MoveKey(k, from, to) in MovedRows(rows, from, to)
    ensures MovedRows(rows, from, to)[MoveKey(k, from, to)] == rows[k]
  {
  }

  lemma MovedRowFrom<V>(rows: map<AccKey, V>, from: int, to: int, k': AccKey) returns (k: AccKey)
    requires NoKeyCollision(rows.Keys, from, to) && k' in MovedRows(rows, from, to)
    ensures k in rows && k' == MoveKey(k, from, to) && MovedRows(rows, from, to)[k'] == rows[k]
  {
    k :| k in rows && k' == MoveKey(k, from, to);
    MovedRowAt(rows, from, to, k);
  }

  // ----- The four statements -----

  function MoveRepos(c: Content, from: int, to: int): Content {
    c.(repos := MovedLinks(c.repos, from, to))
  }

  function MoveAdvisories(c: Content, from: int, to: int): Content
    requires NoLinkCollision(c.advisories.Keys, from, to)
  {
    c.(advisories := MovedLinkRows(c.advisories, from, to))
  }

  function MoveSystemRows(c: Content, from: int, to: int): Content
    requires NoKeyCollision(c.systems.Keys, from, to)
  {
    c.(systems := MovedRows(c.systems, from, to))
  }

  function MoveBaselines(c: Content, from: int, to: int): Content
    requires NoKeyCollision(c.baselines.Keys, from, to)
  {
    c.(baselines := MovedRows(c.baselines, from, to))
  }

  predicate NoCollisions(c: Content, from: int, to: int) {
    && NoLinkCollision(c.advisories.Keys, from, to)
    && NoKeyCollision(c.systems.Keys, from, to)
    && NoKeyCollision(c.baselines.Keys, from, to)
  }

  /** All four statements. */
  function Moved(c: Content, from: int, to: int): Content
    requires NoCollisions(c, from, to)
  {
    MoveBaselines(MoveSystemRows(MoveAdvisories(MoveRepos(c, from, to), from, to), from, to), from, to)
  }

  lemma MovedRowsOf<V>(rows: map<AccKey, V>, from: int, to: int, k: AccKey)
    requires from != to && NoKeyCollision(rows.Keys, from, to)
    ensures Lookup(MovedRows(rows, from, to), k) ==
            if k.acc == from then None
            else if k.acc == to && AccKey(from, k.id) in rows then Some(rows[AccKey(from, k.id)])
            else Lookup(rows, k)
  {
    if k in rows {
      MovedRowAt(rows, from, to, k);
    }
    if k.acc == to && AccKey(from, k.id) in rows {
      MovedRowAt(rows, from, to, AccKey(from, k.id));
    }
    if k in MovedRows(rows, from, to) {
      var j := MovedRowFrom(rows, from, to, k);
    }
  }

  lemma MovedLinkRowsOf<V>(rows: map<LinkKey, V>, from: int, to: int, l: LinkKey)
    requires from != to && NoLinkCollision(rows.Keys, from, to)
    ensures Lookup(MovedLinkRows(rows, from, to), l) ==
            if l.acc == from then None
            else if l.acc == to && LinkKey(from, l.system, l.item) in rows
            then Some(rows[LinkKey(from, l.system, l.item)])
            else Lookup(rows, l)
  {
    if l in rows {
      assert MoveLink(l, from, to) in MovedLinkRows(rows, from, to);
    }
    var source := LinkKey(from, l.system, l.item);
    if l.acc == to && source in rows {
      assert MoveLink(source, from, to) == l;
    }
  }

  lemma MovedLinksOf(ls: set<LinkKey>, from: int, to: int, l: LinkKey)
    requires from != to
    ensures l in MovedLinks(ls, from, to) <==>
            l.acc != from && (l in ls || (l.acc == to && LinkKey(from, l.system, l.item) in ls))
  {
    if l in ls {
      assert MoveLink(l, from, to) in MovedLinks(ls, from, to);
    }
    var source := LinkKey(from, l.system, l.item);
    if l.acc == to && source in ls {
      assert MoveLink(source, from, to) == l;
    }
  }

  /**
   All four statements, row by row: the old account keeps nothing, the new one has its own rows and,
   under its own number, those of the old account with every other column as it was, and no other
   account changes.
   */
  lemma MovedTables(c: Content, from: int, to: int, k: AccKey, l: LinkKey)
    requires from != to && NoCollisions(c, from, to)
    ensures var m := Moved(c, from, to);
            && Lookup(m.systems, k) == (if k.acc == from then None
                                        else if k.acc == to && AccKey(from, k.id) in c.systems
                                        then Some(c.systems[AccKey(from, k.id)])
                                        else Lookup(c.systems, k))
            && Lookup(m.baselines, k) == (if k.acc == from then None
                                          else if k.acc == to && AccKey(from, k.id) in c.baselines
                                          then Some(c.baselines[AccKey(from, k.id)])
                                          else Lookup(c.baselines, k))
            && Lookup(m.advisories, l) == (if l.acc == from then None
                                           else if l.acc == to && LinkKey(from, l.system, l.item) in c.advisories
                                           then Some(c.advisories[LinkKey(from, l.system, l.item)])
                                           else Lookup(c.advisories, l))
            && (l in m.repos <==>
                l.acc != from && (l in c.repos || (l.acc == to && LinkKey(from, l.system, l.item) in c.repos)))
  {
    MovedRowsOf(c.systems, from, to, k);
    MovedRowsOf(c.baselines, from, to, k);
    MovedLinkRowsOf(c.advisories, from, to, l);
    MovedLinksOf(c.repos, from, to, l);
  }

  // ----- The constraints -----

  /** FOREIGN KEY (rh_account_id, system_id) of a table with these keys. */
  predicate LinksInto(ls: set<LinkKey>, systems: set<AccKey>) {
    forall l | l in ls :: SystemOf(l) in systems
  }

  /** FOREIGN KEY (rh_account_id, baseline_id) of system_platform. */
  predicate BaselinesLinked(systems: SystemTable, baselines: set<AccKey>) {
    forall s | s in systems && systems[s].baselineId.Some? :: AccKey(s.acc, systems[s].baselineId.value) in baselines
  }

  /** The three composite foreign keys that readd_foreign_keys.sql restores. */
  predicate ForeignKeysHold(c: Content) {
    && LinksInto(c.repos, c.systems.Keys)
    && LinksInto(c.advisories.Keys, c.systems.Keys)
    && BaselinesLinked(c.systems, c.baselines.Keys)
  }

  predicate NamesUnique(baselines: BaselineTable) {
    forall a, b | a in baselines && b in baselines && a.acc == b.acc && baselines[a] == baselines[b] :: a == b
  }

  predicate AccountsExist(ks: set<AccKey>, accounts: set<int>) {
    forall k | k in ks :: k.acc in accounts
  }

  /** A statement is accepted if no key repeats and the constraints in place hold after it. */
  predicate AcceptsRepos(e: Surroundings, c: Content, from: int, to: int) {
    NoLinkCollision(c.repos, from, to) && (e.enforced ==> ForeignKeysHold(MoveRepos(c, from, to)))
  }

  predicate AcceptsAdvisories(e: Surroundings, c: Content, from: int, to: int) {
    && NoLinkCollision(c.advisories.Keys, from, to)
    && (e.enforced ==> ForeignKeysHold(MoveAdvisories(c, from, to)))
  }

  predicate AcceptsSystems(e: Surroundings, c: Content, from: int, to: int) {
    && NoKeyCollision(c.systems.Keys, from, to)
    && var after := MoveSystemRows(c, from, to);
       && InventoryUnique(after.systems)
       && AccountsExist(after.systems.Keys, e.accounts)
       && LinksInto(e.packages2, after.systems.Keys)
       && (e.enforced ==> ForeignKeysHold(after))
  }

  predicate AcceptsBaselines(e: Surroundings, c: Content, from: int, to: int) {
    && NoKeyCollision(c.baselines.Keys, from, to)
    && var after := MoveBaselines(c, from, to);
       && NamesUnique(after.baselines)
       && AccountsExist(after.baselines.Keys, e.accounts)
       && (e.enforced ==> ForeignKeysHold(after))
  }

  predicate AcceptsMove(e: Surroundings, c: Content, from: int, to: int)
    ensures AcceptsMove(e, c, from, to) ==> NoCollisions(c, from, to)
  {
    && AcceptsRepos(e, c, from, to)
    && var c1 := MoveRepos(c, from, to);
    && AcceptsAdvisories(e, c1, from, to)
    && var c2 := MoveAdvisories(c1, from, to);
    && AcceptsSystems(e, c2, from, to)
    && var c3 := MoveSystemRows(c2, from, to);
       AcceptsBaselines(e, c3, from, to)
  }

  // ----- Foreign keys after the move -----

  lemma MovedLinksInto(ls: set<LinkKey>, ks: set<AccKey>, from: int, to: int)
    requires LinksInto(ls, ks)
    ensures LinksInto(MovedLinks(ls, from, to), MovedKeys(ks, from, to))
  {
  }

  lemma MovedBaselinesLinked(systems: SystemTable, baselines: set<AccKey>, from: int, to: int)
    requires NoKeyCollision(systems.Keys, from, to) && BaselinesLinked(systems, baselines)
    ensures BaselinesLinked(MovedRows(systems, from, to), MovedKeys(baselines, from, to))
  {
  }

  /** On a move without collisions the three foreign keys hold afterwards if they held before. */
  lemma MoveKeepsForeignKeys(c: Content, from: int, to: int)
    requires NoCollisions(c, from, to) && ForeignKeysHold(c)
    ensures ForeignKeysHold(Moved(c, from, to))
  {
    MovedLinksInto(c.repos, c.systems.Keys, from, to);
    MovedLinksInto(c.advisories.Keys, c.systems.Keys, from, to);
    MovedBaselinesLinked(c.systems, c.baselines.Keys, from, to);
  }

  // ----- Moving with the foreign keys in place -----

  predicate NoLinkOf(ls: set<LinkKey>, acc: int) {
    forall l | l in ls :: l.acc != acc
  }

  predicate NoBaselineOf(systems: SystemTable, acc: int) {
    forall s | s in systems && s.acc == acc :: systems[s].baselineId.None?
  }

  /** Nothing of account `from` takes part in one of the three foreign keys. */
  predicate NoDependents(c: Content, from: int) {
    NoLinkOf(c.repos, from) && NoLinkOf(c.advisories.Keys, from) && NoBaselineOf(c.systems, from)
  }

  /** Moving the links before the systems breaks the foreign key iff there is a link to move. */
  lemma LinksFirstIff(ls: set<LinkKey>, ks: set<AccKey>, from: int, to: int)
    requires from != to && LinksInto(ls, ks) && NoKeyCollision(ks, from, to)
    ensures LinksInto(MovedLinks(ls, from, to), ks) <==> NoLinkOf(ls, from)
    ensures NoLinkOf(ls, from) ==> MovedLinks(ls, from, to) == ls && LinksInto(ls, MovedKeys(ks, from, to))
  {
    if l :| l in ls && l.acc == from {
      assert MoveLink(l, from, to) in MovedLinks(ls, from, to);
      assert SystemOf(MoveLink(l, from, to)) !in ks;
    } else {
      assert forall l | l in ls :: MoveLink(l, from, to) == l;
      MovedLinksInto(ls, ks, from, to);
    }
  }

  /** Moving the systems before the baselines breaks the foreign key iff a moved system has a baseline. */
  lemma SystemsFirstIff(systems: SystemTable, baselines: set<AccKey>, from: int, to: int)
    requires from != to && BaselinesLinked(systems, baselines)
    requires NoKeyCollision(systems.Keys, from, to) && NoKeyCollision(baselines, from, to)
    ensures BaselinesLinked(MovedRows(systems, from, to), baselines) <==> NoBaselineOf(systems, from)
  {
    var systems' := MovedRows(systems, from, to);
    if s :| s in systems && s.acc == from && systems[s].baselineId.Some? {
      MovedRowAt(systems, from, to, s);
      assert AccKey(from, systems[s].baselineId.value) in baselines;
      assert AccKey(to, systems'[MoveKey(s, from, to)].baselineId.value) !in baselines;
    } else {
      forall s' | s' in systems' && systems'[s'].baselineId.Some?
        ensures AccKey(s'.acc, systems'[s'].baselineId.value) in baselines
      {
        var s := MovedRowFrom(systems, from, to, s');
        assert s.acc != from;
      }
    }
  }

  lemma EnforcedStepsHold(c: Content, from: int, to: int)
    requires from != to && ForeignKeysHold(c) && NoDependents(c, from) && NoCollisions(c, from, to)
    ensures ForeignKeysHold(MoveRepos(c, from, to))
    ensures ForeignKeysHold(MoveAdvisories(MoveRepos(c, from, to), from, to))
    ensures ForeignKeysHold(MoveSystemRows(MoveAdvisories(MoveRepos(c, from, to), from, to), from, to))
    ensures ForeignKeysHold(Moved(c, from, to))
  {
    LinksFirstIff(c.repos, c.systems.Keys, from, to);
    LinksFirstIff(c.advisories.Keys, c.systems.Keys, from, to);
    SystemsFirstIff(c.systems, c.baselines.Keys, from, to);
    MoveKeepsForeignKeys(c, from, to);
  }

  lemma EnforcedStepsNeed(c: Content, from: int, to: int)
    requires from != to && ForeignKeysHold(c) && NoCollisions(c, from, to)
    requires ForeignKeysHold(MoveAdvisories(MoveRepos(c, from, to), from, to))
    requires ForeignKeysHold(MoveSystemRows(MoveAdvisories(MoveRepos(c, from, to), from, to), from, to))
    ensures NoDependents(c, from)
  {
    LinksFirstIff(c.repos, c.systems.Keys, from, to);
    LinksFirstIff(c.advisories.Keys, c.systems.Keys, from, to);
    SystemsFirstIff(c.systems, c.baselines.Keys, from, to);
  }

  /** What the database requires of a move apart from the droppable constraints. */
  predicate AcceptsUnconstrained(e: Surroundings, c: Content, from: int, to: int) {
    && NoLinkCollision(c.repos, from, to)
    && NoCollisions(c, from, to)
    && var m := Moved(c, from, to);
       && InventoryUnique(m.systems)
       && AccountsExist(m.systems.Keys, e.accounts)
       && LinksInto(e.packages2, m.systems.Keys)
       && NamesUnique(m.baselines)
       && AccountsExist(m.baselines.Keys, e.accounts)
  }

  lemma AcceptsMoveSteps(e: Surroundings, c: Content, from: int, to: int)
    ensures AcceptsMove(e, c, from, to) <==>
            && AcceptsUnconstrained(e, c, from, to)
            && (e.enforced ==>
                  && ForeignKeysHold(MoveRepos(c, from, to))
                  && ForeignKeysHold(MoveAdvisories(MoveRepos(c, from, to), from, to))
                  && ForeignKeysHold(MoveSystemRows(MoveAdvisories(MoveRepos(c, from, to), from, to), from, to))
                  && ForeignKeysHold(Moved(c, from, to)))
  {
  }

  lemma EnforcedMove(e: Surroundings, c: Content, from: int, to: int)
    requires from != to && ForeignKeysHold(c)
    ensures AcceptsMove(e.(enforced := true), c, from, to) <==>
            AcceptsMove(e.(enforced := false), c, from, to) && NoDependents(c, from)
  {
    var strict, lax := e.(enforced := true), e.(enforced := false);
    AcceptsMoveSteps(strict, c, from, to);
    AcceptsMoveSteps(lax, c, from, to);
    assert AcceptsUnconstrained(strict, c, from, to) == AcceptsUnconstrained(lax, c, from, to);
    if AcceptsMove(strict, c, from, to) {
      EnforcedStepsNeed(c, from, to);
    } else if AcceptsMove(lax, c, from, to) && NoDependents(c, from) {
      EnforcedStepsHold(c, from, to);
    }
  }

  /**
   With the foreign keys left in place the database accepts a move to another account iff it would
   accept it without them and the account has no row that they govern: the first statement that
   meets one already breaks them.
   */
  lemma EnforcedMoveIff(e: Surroundings, c: Content, from: int, to: int)
    requires from != to
    requires forall l | l in c.repos :: AccKey(l.acc, l.system) in c.systems
    requires forall l | l in c.advisories :: AccKey(l.acc, l.system) in c.systems
    requires forall s | s in c.systems && c.systems[s].baselineId.Some? ::
               AccKey(s.acc, c.systems[s].baselineId.value) in c.baselines
    ensures AcceptsMove(e.(enforced := true), c, from, to) <==>
            && AcceptsMove(e.(enforced := false), c, from, to)
            && (forall l | l in c.repos :: l.acc != from)
            && (forall l | l in c.advisories :: l.acc != from)
            && (forall s | s in c.systems && s.acc == from :: c.systems[s].baselineId.None?)
  {
    assert forall l: LinkKey :: SystemOf(l) == AccKey(l.acc, l.system);
    assert ForeignKeysHold(c);
    EnforcedMove(e, c, from, to);
  }

  // ----- When a move is accepted -----

  lemma MovedPair(systems: SystemTable, from: int, to: int, s': AccKey, t': AccKey)
    requires from != to && NoKeyCollision(systems.Keys, from, to) && InventoryUnique(systems)
    requires forall s, t | s in systems && t in systems && s.acc == from && t.acc == to ::
               systems[s].inventoryId != systems[t].inventoryId
    requires var after := MovedRows(systems, from, to);
             s' in after && t' in after && s'.acc == t'.acc && after[s'].inventoryId == after[t'].inventoryId
    ensures s' == t'
  {
    var s := MovedRowFrom(systems, from, to, s');
    var t := MovedRowFrom(systems, from, to, t');
    assert s.acc == t.acc;
  }

  lemma MovedKeysUnique(systems: SystemTable, from: int, to: int)
    requires from != to && NoKeyCollision(systems.Keys, from, to) && InventoryUnique(systems)
    ensures InventoryUnique(MovedRows(systems, from, to)) <==>
            forall s, t | s in systems && t in systems && s.acc == from && t.acc == to ::
              systems[s].inventoryId != systems[t].inventoryId
  {
    var after := MovedRows(systems, from, to);
    if s, t :| && s in systems && t in systems && s.acc == from && t.acc == to
               && systems[s].inventoryId == systems[t].inventoryId {
      MovedRowAt(systems, from, to, s);
      MovedRowAt(systems, from, to, t);
    } else {
      forall s', t' | s' in after && t' in after && s'.acc == t'.acc && after[s'].inventoryId == after[t'].inventoryId
        ensures s' == t'
      {
        MovedPair(systems, from, to, s', t');
      }
    }
  }

  lemma MovedNamesUnique(baselines: BaselineTable, from: int, to: int)
    requires from != to && NoKeyCollision(baselines.Keys, from, to) && NamesUnique(baselines)
    ensures NamesUnique(MovedRows(baselines, from, to)) <==>
            forall a, b | a in baselines && b in baselines && a.acc == from && b.acc == to ::
              baselines[a] != baselines[b]
  {
    var after := MovedRows(baselines, from, to);
    if a, b :| a in baselines && b in baselines && a.acc == from && b.acc == to && baselines[a] == baselines[b] {
      MovedRowAt(baselines, from, to, a);
      MovedRowAt(baselines, from, to, b);
    } else {
      forall a', b' | a' in after && b' in after && a'.acc == b'.acc && after[a'] == after[b'] ensures a' == b' {
        var a := MovedRowFrom(baselines, from, to, a');
        var b := MovedRowFrom(baselines, from, to, b');
        assert a.acc == b.acc;
      }
    }
  }

  lemma MovedAccountsExist(ks: set<AccKey>, accounts: set<int>, from: int, to: int)
    requires AccountsExist(ks, accounts)
    ensures AccountsExist(MovedKeys(ks, from, to), accounts) <==>
            (forall k | k in ks :: k.acc != from) || to in accounts
  {
    if k :| k in ks && k.acc == from {
      assert MoveKey(k, from, to) in MovedKeys(ks, from, to);
    }
  }

  lemma LeftLinksInto(ls: set<LinkKey>, ks: set<AccKey>, from: int, to: int)
    requires from != to && LinksInto(ls, ks)
    ensures LinksInto(ls, MovedKeys(ks, from, to)) <==> forall l | l in ls :: l.acc != from
  {
    forall l | l in ls && l.acc != from ensures SystemOf(l) in MovedKeys(ks, from, to) {
      assert MoveKey(SystemOf(l), from, to) == SystemOf(l);
    }
  }

  /**
   When the database accepts a move to another account with the three foreign keys dropped, given
   that its other constraints held before: the rows to move meet no row with their key under the new
   account, no system meets one with its inventory id and no baseline one with its name, the new
   account exists if a system or a baseline moves, and no row of system_package2, which no statement
   moves, refers to the old account.
   */
  lemma MoveIsAcceptedIff(e: Surroundings, c: Content, from: int, to: int)
    requires from != to && !e.enforced
    requires forall s, t | && s in c.systems && t in c.systems && s.acc == t.acc
                           && c.systems[s].inventoryId == c.systems[t].inventoryId :: s == t
    requires forall a, b | a in c.baselines && b in c.baselines && a.acc == b.acc && c.baselines[a] == c.baselines[b] ::
               a == b
    requires forall s | s in c.systems :: s.acc in e.accounts
    requires forall b | b in c.baselines :: b.acc in e.accounts
    requires forall l | l in e.packages2 :: AccKey(l.acc, l.system) in c.systems
    ensures AcceptsMove(e, c, from, to) <==>
            && (forall l | l in c.repos && l.acc == from :: LinkKey(to, l.system, l.item) !in c.repos)
            && (forall l | l in c.advisories && l.acc == from :: LinkKey(to, l.system, l.item) !in c.advisories)
            && (forall s | s in c.systems && s.acc == from :: AccKey(to, s.id) !in c.systems)
            && (forall b | b in c.baselines && b.acc == from :: AccKey(to, b.id) !in c.baselines)
            && (forall s, t | s in c.systems && t in c.systems && s.acc == from && t.acc == to ::
                  c.systems[s].inventoryId != c.systems[t].inventoryId)
            && (forall a, b | a in c.baselines && b in c.baselines && a.acc == from && b.acc == to ::
                  c.baselines[a] != c.baselines[b])
            && (to in e.accounts || forall s | s in c.systems.Keys + c.baselines.Keys :: s.acc != from)
            && (forall l | l in e.packages2 :: l.acc != from)
  {
    AcceptsMoveSteps(e, c, from, to);
    if NoLinkCollision(c.repos, from, to) && NoCollisions(c, from, to) {
      MovedKeysUnique(c.systems, from, to);
      MovedNamesUnique(c.baselines, from, to);
      MovedAccountsExist(c.systems.Keys, e.accounts, from, to);
      MovedAccountsExist(c.baselines.Keys, e.accounts, from, to);
      LeftLinksInto(e.packages2, c.systems.Keys, from, to);
      assert SystemOf(LinkKey(0, 0, 0)) == AccKey(0, 0);
    }
  }

  /** One system with one advisory in account 1, and nothing else. */
  predicate OneAdvisory(c: Content) {
    && c.systems.Keys == {AccKey(1, 1)} && c.systems[AccKey(1, 1)].baselineId.None?
    && c.advisories.Keys == {LinkKey(1, 1, 5)} && c.repos == {} && c.baselines.Keys == {}
  }

  lemma OneAdvisoryMoves(c: Content)
    requires OneAdvisory(c)
    ensures ForeignKeysHold(c) && AcceptsUnconstrained(Surroundings({}, {1, 2}, {}, false), c, 1, 2)
  {
    assert NoCollisions(c, 1, 2);
    var m := Moved(c, 1, 2);
    assert forall k | k in m.systems :: k == AccKey(2, 1);
  }

  /** The rejected move at a real input: the database takes it without the constraints and not with them. */
  lemma EnforcedKeyRejectsMove(c: Content)
    requires OneAdvisory(c)
    ensures ForeignKeysHold(c)
    ensures AcceptsMove(Surroundings({}, {1, 2}, {}, false), c, 1, 2)
    ensures !AcceptsMove(Surroundings({}, {1, 2}, {}, true), c, 1, 2)
  {
    var e := Surroundings({}, {1, 2}, {}, false);
    OneAdvisoryMoves(c);
    AcceptsMoveSteps(e, c, 1, 2);
    EnforcedMoveIff(e, c, 1, 2);
    assert LinkKey(1, 1, 5) in c.advisories.Keys;
  }

  lemma OneAdvisoryExists(row: System)
    requires row.baselineId.None?
    ensures OneAdvisory(Content(map[AccKey(1, 1) := row], map[LinkKey(1, 1, 5) := INSTALLABLE_STATUS], {}, map[]))
  {
  }
}

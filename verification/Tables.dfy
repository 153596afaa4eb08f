/** The tables of the content database that more than one component reads. */
module Tables {
  import opened Common
  import opened Keys

  /** The four counters kept per status on a row of system_platform. */
  datatype Counters = Counters(total: int, enhancement: int, bugfix: int, security: int)

  /** A row of system_platform; timestamps are integers and NULL is None. */
  datatype System = System(
    inventoryId: string,
    stale: bool,
    lastEvaluation: Option<int>,
    staleWarning: Option<int>,
    packagesInstalled: int,
    baselineId: Option<int>,
    installable: Counters,
    applicable: Counters)
  {
    predicate Evaluated() { lastEvaluation.Some? }

    /** The condition under which the advisory counters include a system. */
    predicate IsCounted() { Evaluated() && !stale }
  }

  /** system_platform, by (rh_account_id, id). */
  type SystemTable = map<AccKey, System>

  /** system_advisories, by (rh_account_id, system_id, advisory_id); the value is status_id. */
  type AdvisoryTable = map<LinkKey, int>

  const INSTALLABLE_STATUS := 0

  function Counted(systems: SystemTable): set<AccKey> {
    set s | s in systems && systems[s].IsCounted()
  }

  /** UNIQUE (rh_account_id, inventory_id) on system_platform. */
  predicate InventoryUnique(systems: SystemTable) {
    forall s, t | s in systems && t in systems && s.acc == t.acc &&
                  systems[s].inventoryId == systems[t].inventoryId :: s == t
  }
}

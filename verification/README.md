# Content cache and SpiceDB migration: a verified model

This project models the data layer of a content-advisor prototype and proves properties of it in
Dafny. Two stores are involved: a PostgreSQL database with systems, advisories and packages, and a
SpiceDB relationship store that decides which hosts a user may see. The model has five parts.

* **Advisory counters** (`Tables`, `AdvisoryCache`, `AdvisoryRuns`, `SystemCounters`, `AdvisoryDb`).
  `advisory_account_data` is maintained incrementally by the trigger `on_system_update` and from
  scratch by `refresh_advisory_caches_multi`. A cache is *exact* when a row exists precisely for the
  advisories that affect a counted (evaluated and not stale) system, and holds the exact counts. The
  main results say when the trigger keeps a cache exact, that runs and batches of updates agree with
  recomputation, and that the per-system and per-advisory counters balance.
* **Package counters** (`PackageQueries`, `PackageAnswers`, `Unnest`, `PackageCache`, `PackageCacheDb`,
  `Partition`).
  `RefreshPackagesCaches` goes through four separately committed steps per account, each of which can
  fail, be rolled back, or commit although the client sees an error. The main results are safety over
  every run, the exact condition for it, what becomes of every row and flag whatever fails, what each
  grouped query counts and how the alternative forms agree, the round trip of the transposed bulk
  insert, and the partition arithmetic behind the account order.
* **Migration** (`Naming`, `Relationships`, `MigrationStream`, `Migration`, `PackageMigration`). Rows of
  a join become TOUCH updates written in batches of 100. The batches are related to an unbatched
  stream, the workspace hierarchy in the store is closed wherever a migration stops, and after both
  migrations a package is read through the systems of its rows.
* **Moving an account** (`MoveTables`, `MoveCounts`, `MovedPackages`, `MoveRelations`, `MoveSystems`).
  Four UPDATE statements in one transaction, a relationship write, and a commit. The results cover
  foreign keys, conservation of advisory counts, the loss of package counts, the outcomes that leave
  the two stores out of step, and that migrating and moving commute.
* **Permissions and the pre-filter server** (`Reach`, `Permissions`, `PermissionTuples`, `PreFilter`).
  The recursive permissions of the schema are evaluated on acyclic workspace and group graphs and
  shown to mean reachability, spelled out as chains of tuples. Together with the migration and the
  queries this gives an end-to-end comparison of the pre-filter server and the baseline server.

Code that changes tables, buffers or stores step by step is a class with methods, each specified by
a function of the old state; queries, triggers seen row by row, and permissions are functions. What
such a function means is stated once more on the rows and tuples themselves, without naming it.
Everything the environment decides (failing statements, lost commits, row order, failing writes, the
hash of an account id) is a parameter or a free choice, so the contracts hold for every environment.

Some properties one might expect are false of the code. Each is stated as a condition that holds if
and only if the code meets the property, with a lemma or method at an input that fails:

* the trigger reads evaluation from the new row only, so an update that changes whether a non-stale
  system is evaluated makes the cache drift (`AdvisoryCache.UpdateKeepsExactIff`; a system that gets
  evaluated: `EvaluatingDrifts`);
* an account without any package counts is flagged valid with its old rows if `NOT IN` an empty list
  matches nothing (`PackageCache.AllRunsSafeIff`; one leftover row: `LeftoverIsFlagged`);
* the move is rejected with the droppable foreign keys in place as soon as the account has a row they
  govern (`MoveTables.EnforcedMoveIff`; one advisory: `EnforcedKeyRejectsMove`);
* a migrator that is used again after its last flush was lost skips the parents of the organizations
  it met (`MigrationStream.KnownOrganizationsMustBeLinkedIff`, `Migration.MigrateAgain`; one
  host and an empty store: `LostFlushOpensHierarchy`). The commands in main.go use a migrator once;
* a move into an account that was never migrated leaves its hosts without a way up to an organization
  (`MoveRelations.MoveKeepsClosedIff`; one migrated host: `UnlinkedTargetOpensHierarchy`);
* a move whose commit is rolled back after the relationships were written leaves the stores out of
  step as soon as there was a host to move (`MoveRelations.LostCommitDivergesIff`; one host:
  `LostCommitDiverges`);
* the advisory cache is not exact after a move until both accounts are refreshed, unless the old
  account had no row in it (`MoveCounts.MoveAloneIsExactIff`; one system with one advisory:
  `UnrefreshedMoveDrifts`);
* a move loses the package counts of the moved systems in the answers of both servers, because it
  leaves their `system_package` rows behind (`MovedPackages.CountsKeptIff`; one package:
  `MovedCountsAreLost`);
* the unnest form of the package query counts a host once for every time it is listed
  (`PackageQueries.UnnestIsCteIff`; one host listed twice: `RepeatedHostDiffers`);
* the pre-filter answer is the baseline answer only if the hosts of the account are ungrouped, as the
  comment at server/server.go:276 takes for granted (`PreFilter.PreFilterIsBaselineIff`; one grouped
  host: `GroupedHostDiffers`).

In the comment of `hash_partition_id` (test_data.sql:517-522) the two decimal values stand under each
other's constant; the model follows the code on line 523.

## Model

| member | source | states |
|---|---|---|
| `AdvisoryCache.GroupRowsCountSystems` | test_data.sql:192-203 | counting the joined `system_advisories` rows of a group (all, and those with status 0) counts the affected systems, because (account, system, advisory) is the key |
| `AdvisoryCache.AfterTriggerAt` | test_data.sql:126-175 | the table after the trigger, looked up at any key: a linked row gains the change and goes when both counts reach zero, a missing one is inserted on +1, every other row is untouched |
| `AdvisoryCache.UpdatedRow` | test_data.sql:98-178 | the trigger function on any table, for one row: no change if `stale` is the same, the new row is unevaluated or the system does not list the advisory; going stale takes one from the applicable count, and from the installable one for status 0, and drops a row without counts; becoming fresh adds the same, to a new row without `notified` if there was none |
| `AdvisoryCache.TriggerCountsUp` | test_data.sql:119-175 | the +1 trigger takes a cache that is exact for a set of counted systems to one that is exact with the system added |
| `AdvisoryCache.TriggerCountsDown` | test_data.sql:117-158 | the -1 trigger takes an exact cache to one that is exact without the system, rows at zero deleted |
| `AdvisoryCache.UpdateKeepsExactIff` | test_data.sql:98-178 | for every update of a system row: an exact cache stays exact iff the system lists no advisory, or its evaluation does not change, or it was stale, or it is evaluated and goes stale at once with no row there to count down |
| `AdvisoryCache.EvaluatingDrifts` | test_data.sql:108-111 | evaluating a non-stale system with one advisory takes an exact cache to one that is not |
| `AdvisoryDb.StatementIsTrigger` | test_data.sql:126-175 | the WITH statement, its three data-modifying parts each reading the table as it was before, has the row-wise effect of the trigger |
| `AdvisoryDb.ContentTables.OnSystemUpdate` | test_data.sql:98-178 | the trigger function changes the cache to what the row-wise specification says, including the cases where it returns early |
| `AdvisoryDb.ContentTables.UpdateSystem` | test_data.sql:98-178 | an UPDATE of one row with its trigger: new row, new cache, and exactness kept iff the trigger applies |
| `AdvisoryDb.ContentTables.CurrentCounts` | test_data.sql:192-204 | the grouped join yields a group exactly for the affecting advisories in scope, with the exact counts |
| `AdvisoryDb.ContentTables.RefreshAdvisoryCachesMulti` | test_data.sql:180-218 | the refresh makes every key in scope exact and leaves the others alone, `notified` kept on rows that stay |
| `AdvisoryDb.ContentTables.RefreshAdvisoryCaches` | test_data.sql:220-231 | one advisory or all of them, passed on to the refresh of several |
| `AdvisoryDb.ContentTables.SystemAdvisoriesCount` | test_data.sql:240-259 | the two left joins grouped by system give one group for each system in scope, with the counts of its linked advisories |
| `SystemCounters.EverySystemIsGrouped` | test_data.sql:250-257 | the left joins keep every system in scope, those without an advisory included, and no other |
| `SystemCounters.PassingCountsLinks` | test_data.sql:242-254 | each filtered COUNT over the joined rows of a system is the number of its links that pass, because a metadata id is a key |
| `SystemCounters.GroupsGiveCounters` | test_data.sql:260-272 | the UPDATE joined with the groups sets the counters of the systems in scope and of no other |
| `SystemCounters.CountersFromTables` | test_data.sql:240-272 | for one system: in scope of the id and the account it gets the numbers of its advisories with status 0 and of all of them, in total and by metadata type 1, 2 and 3; no other column and no other row changes |
| `AdvisoryDb.ContentTables.RefreshSystemCaches` | test_data.sql:233-277 | the grouped counters are written to the systems in scope, which gives each its counts of linked advisories by status and type; the row count is theirs, and the triggers of the UPDATE leave the advisory cache as it was |
| `AdvisoryDb.ContentTables.FireWithoutChange` | test_data.sql:113-124 | row triggers of an UPDATE that keeps `stale` change nothing |
| `AdvisoryDb.ContentTables.RefreshAllCachedCounts` | test_data.sql:292-300 | from any state the cache becomes exact, and in every account the per-advisory counters sum to the per-system ones |
| `AdvisoryDb.ContentTables.MarkStaleSystems` | test_data.sql:488-511 | a negative limit is an error without effect; otherwise the first overdue systems in key order go stale, their number is returned, the cache loses exactly the counted ones of them in whatever order the triggers run, and exactness is kept |
| `AdvisoryDb.ContentTables.FireForEach` | test_data.sql:98-178 | the row triggers of one UPDATE, in any order, uncount the batch |
| `AdvisoryDb.ContentTables.FireOne` | test_data.sql:113-124 | one trigger of the batch adds its system to the uncounted ones iff it was counted |
| `AdvisoryDb.ContentTables.RemoveSystem` | test_data.sql:386-415 | the system goes; from the advisory, repository and two package tables exactly the rows with its account and its id go, and the others stay as they were; the cache is what the trigger made of the staleness flip, and an exact cache stays exact |
| `AdvisoryDb.ContentTables.DeleteSystem` | test_data.sql:362-416 | not found leaves everything alone; an id beyond INT is an error without effect; otherwise exactly one matching system goes, and with it exactly the rows with its account and its id |
| `AdvisoryRuns.RefreshMakesScopeExact` | test_data.sql:180-218 | a refresh makes its scope exact, leaves other rows alone and keeps `notified` |
| `AdvisoryRuns.RefreshedFromTables` | test_data.sql:180-218 | for one key: in scope of the advisory ids and the account, a row has the number of evaluated non-stale systems of the account that list the advisory, and of those with status 0, and there is no row without one; out of scope nothing changes |
| `AdvisoryRuns.ExactIffRefreshIsIdentity` | test_data.sql:180-218 | a cache is exact iff the full refresh changes nothing, and then no refresh of any scope does |
| `AdvisoryRuns.RunKeepsExact` | test_data.sql:98-178 | every sequence of updates that keeps evaluation takes an exact cache to an exact cache |
| `AdvisoryRuns.RunAgreesWithRefresh` | test_data.sql:98-218 | after such a sequence the incremental table has the rows and counts that a full refresh of any table computes |
| `AdvisoryRuns.NotifiedAfterRun` | test_data.sql:140-175 | `notified` survives a sequence of updates on a row that was there throughout and is NULL on a row that was ever dropped |
| `AdvisoryRuns.BatchesCompose` | test_data.sql:126-158 | uncounting two disjoint batches one after the other is uncounting their union |
| `AdvisoryRuns.BatchIsOrderIndependent` | test_data.sql:98-178 | the trigger fired for a batch in any order computes one and the same table, exact or not |
| `AdvisoryRuns.BatchKeepsExact` | test_data.sql:495-507 | a batch of counted systems going stale keeps the cache exact |
| `AdvisoryRuns.NextBatch` | test_data.sql:495-502 | a further call marks new overdue systems, as many as the limit allows |
| `AdvisoryRuns.MarkedInOrder` | test_data.sql:495-507 | for one system: it is marked iff its stale warning lies before now, it is not stale, and fewer than `limit` such systems come before it by account and id; no other column and no other row changes |
| `AdvisoryRuns.MarkStaleConverges` | test_data.sql:488-511 | at a fixed clock, calls whose limits add up to the number of overdue systems leave none, and end in the state of one call without a limit |
| `AdvisoryRuns.DeleteKeepsExact` | test_data.sql:386-414 | flipping `stale` first and deleting afterwards keeps the cache exact for counted, unevaluated and already stale systems |
| `SystemCounters.CountersKeepCounted` | test_data.sql:260-272 | refreshing the counters changes neither staleness nor which systems are counted |
| `SystemCounters.TypedCountersPartitionTotal` | test_data.sql:242-249 | the three typed counters never exceed the total, and add up to it iff every listed advisory has one of the three types |
| `SystemCounters.DoubleCounting` | test_data.sql:180-277 | for an exact cache and counted systems with the right totals, the sum of the counts over the advisories of an account equals the sum of the totals over its counted systems, for both counters |
| `SystemCounters.RefreshAllBalances` | test_data.sql:292-300 | refreshing systems and then advisories from any state establishes exactness and that law in every account |
| `Keys.SelectFirst` | test_data.sql:495-501 | `ORDER BY rh_account_id, id LIMIT n` selects n keys, or all, that precede all others |
| `Keys.FirstByRank` | test_data.sql:500-501 | a key is selected iff fewer than n keys come before it by account and id |
| `Keys.FirstIsUnique` | test_data.sql:500-501 | that selection is unique |
| `Keys.Sorted` | server/server.go:266-267 | the ordered list has every key once, in order |
| `Keys.OrderIsUnique` | server/server.go:266-267 | there is only one such list |
| `Partition.PartitionInRange` | test_data.sql:513-525 | for every hash and up to 2^30 partitions the result is (hash + 5305509591434766563) modulo the partitions, between 0 and the last partition |
| `Partition.CastIsSafeIff` | test_data.sql:523 | the int cast succeeds for every signed 64-bit hash iff there are at most 2^30 partitions |
| `Partition.PartitionIsRoutingIff` | test_data.sql:513-525 | the signed arithmetic agrees with unsigned 64-bit wraparound routing for every hash iff the number of partitions divides 2^64 |
| `PackageQueries.PackagesByHostIDsTempTable` | server/server.go:337-379 | begin, the statements and the commit follow in order and the first failing one is reported; without a failure the result is the join with one row per list entry |
| `PackageQueries.SameGroups` | server/server.go:266-267 | joins whose rows correspond one to one, package by package, have the same groups and counts |
| `PackageQueries.CteIsFullJoin` | server/server.go:300-335 | the CTE form is the full join although it leaves `rh_account` out, by the foreign key of test_data.sql:988-991 |
| `PackageQueries.AccountFilterSelectsGroups` | server/server.go:264-266 | filtering joined rows by account selects whole groups |
| `PackageQueries.HostIDsIsCteRestricted` | server/server.go:251-273 | the IN-list form is the CTE result restricted to the account |
| `PackageQueries.NoCountsIsKeyProjection` | server/server.go:414-432 | the form without counts is the key projection of the CTE form |
| `PackageQueries.TempTableIsUnnest` | server/server.go:337-412 | the temp-table and unnest forms agree on every list, and count each joined row as often as its host is listed |
| `PackageQueries.UnnestIsCteIff` | server/server.go:381-412 | the unnest form is the CTE form iff no joined host is listed twice, in particular on distinct lists |
| `PackageQueries.RepeatedHostDiffers` | server/server.go:381-412 | for one host with a package, listed twice, the two forms differ |
| `PackageQueries.RefreshCountsAreHostCounts` | cachecontent/refresh_packages_caches.go:68-98 | the refresh counts of an account are the host query on its active hosts, because an inventory id names one system of an account |
| `PackageQueries.CountsAreOrdered` | server/server.go:256-260 | in every group of every form 0 <= installable <= applicable <= installed, and installed is positive |
| `PackageQueries.SameGroupsIffSameRows` | server/server.go:275-298 | restricting the joined rows keeps groups and counts iff it drops no row |
| `PackageAnswers.StatusOfUpdates` | test_data.sql:629-645 | a package is installable iff its list has an update with status Installable, and applicable iff its list is neither NULL nor empty |
| `PackageAnswers.HostAnswer` | server/server.go:251-273 | a name is answered iff the account has a package row with it on one of the hosts; the counts are the numbers of those rows, of those with an installable update, and of those with any update |
| `PackageAnswers.AccountAnswer` | server/server.go:275-298 | the same for the package rows on hosts whose `groups` is an empty list |
| `PackageAnswers.CteAnswer` | server/server.go:300-335 | the same for the package rows of every account on the hosts, whether or not `rh_account` has the account |
| `PackageAnswers.NamesAnswer` | server/server.go:414-432 | the keys of the package rows on the hosts, in the accounts that `rh_account` has |
| `PackageAnswers.UnnestAnswer` | server/server.go:381-412 | the same counts with every package row taken once for each position of the list that names its host |
| `PackageAnswers.RefreshAnswer` | cachecontent/refresh_packages_caches.go:68-98 | the same for the package rows of systems that are not stale and have packages installed, of one account or of the accounts with an invalid cache |
| `Unnest.Transpose` | cachecontent/batch.go:32-45 | the nested loops build the columns of the rows, one cell at a time |
| `Unnest.TransposeRoundTripIff` | cachecontent/batch.go:28-48 | unnesting the columns gives the rows back in order iff there is no row or at least one field |
| `PackageCache.UpsertOverwritesBatch` | cachecontent/refresh_packages_caches.go:100-113 | the upsert of the transposed batch overwrites exactly the keys of the batch, and fails iff a key repeats |
| `PackageCache.FlaggedIsExactIff` | cachecontent/refresh_packages_caches.go:28-46 | when counting, upsert and delete were committed the account has exactly its counts iff it has counts, or the empty list deletes all, or nothing was left to delete |
| `PackageCache.AccountKeepsSafe` | cachecontent/refresh_packages_caches.go:25-48 | one round keeps "flagged valid implies exact" under every fault, if the empty case is handled |
| `PackageCache.SuccessfulRefreshIsExactIff` | cachecontent/refresh_packages_caches.go:115-139 | a round that reports success leaves exactly the counts of the account iff the empty case is handled |
| `PackageCache.FlagOnlyAfterThreeSteps` | cachecontent/refresh_packages_caches.go:28-46 | a flag only ever goes from false to true, for the account of the round, after its first three steps were committed |
| `PackageCache.RunKeepsSafe` | cachecontent/refresh_packages_caches.go:10-51 | whatever fails at any step of any account, a safe state stays safe |
| `PackageCache.RunFrame` | cachecontent/refresh_packages_caches.go:25-48 | a run changes rows and flags of listed accounts only, and a flag only in a round that earned it |
| `PackageCache.CountedRowAfterRun` | cachecontent/refresh_packages_caches.go:25-48 | over every fault assignment, a cached row with a count has that count after the run iff some round of its account counted and had its upsert take effect; else it is as before |
| `PackageCache.LeftoverAfterRun` | cachecontent/refresh_packages_caches.go:25-48 | a row without a count goes iff some round of its account counted, upserted and had its DELETE take effect, and the account has counts or an empty list deletes all; else it is as before |
| `PackageCache.FlagAfterRun` | cachecontent/refresh_packages_caches.go:25-48 | a flag is set iff it was, or some round of its account went through three steps and had the last take effect, and the account has counts or an empty list is not refused |
| `PackageCache.CommittedRound` | cachecontent/refresh_packages_caches.go:25-48 | a round whose four steps commit decides its account whatever happens in every other round: it ends up flagged iff it was, or has counts, or an empty list is not refused; it ends up exact iff it has counts, or an empty list deletes all, or it had no rows |
| `PackageCache.RunSucceedsIff` | cachecontent/refresh_packages_caches.go:10-51 | a run reports success iff it had no account, or its last round committed all four steps and no empty list was refused |
| `PackageCache.FailedCountSkipsOneAccount` | cachecontent/refresh_packages_caches.go:28-31 | two accounts, the count of the first rolled back: the second is refreshed and flagged, the first keeps its rows, and the run reports success |
| `PackageCache.AllRunsSafeIff` | cachecontent/refresh_packages_caches.go:10-139 | every run from a safe state is safe iff each listed account has counts, or the empty list deletes all or is refused, or there is nothing left over |
| `PackageCache.LeftoverIsFlagged` | cachecontent/refresh_packages_caches.go:115-153 | an account that lost its last package is flagged valid with its old row when the empty list matches nothing |
| `PackageCache.FaultlessRound` | cachecontent/refresh_packages_caches.go:28-46 | one round without faults: when it sets the flag, when it leaves exactly the counts |
| `PackageCache.FaultlessRun` | cachecontent/refresh_packages_caches.go:25-48 | after a run without faults a listed account is flagged iff it was, or has counts, or an empty list is not refused; it is exact iff it has counts, or an empty list deletes all, or it had no rows |
| `PackageCache.FaultlessRunSucceedsIff` | cachecontent/refresh_packages_caches.go:25-48 | a listed account that was not flagged ends up flagged and exact iff its empty case is handled and not refused |
| `PackageCacheDb.RowsRoundTrip` | cachecontent/refresh_packages_caches.go:86-95 | the result rows have distinct keys and give the grouped counts back |
| `PackageCacheDb.RowsCarryCounts` | cachecontent/refresh_packages_caches.go:75-81 | a result row is there iff the counts of its account and package are its three fields |
| `PackageCacheDb.BatchOverwrites` | cachecontent/refresh_packages_caches.go:100-113 | writing a batch gives the cached row of each account and package in it its three counts and changes no other |
| `PackageCacheDb.InvalidAccountsProperties` | cachecontent/refresh_packages_caches.go:53-66 | the account list has every account with an invalid cache once, ordered by (hash + 5305509591434766563) modulo 128 and then by id, so that the accounts of one partition are side by side |
| `PackageCacheDb.DroppedAreLeftovers` | cachecontent/refresh_packages_caches.go:115-139 | for the counts of one account the DELETE hits exactly the rows of that account that have no count |
| `PackageCacheDb.DeletedRows` | cachecontent/refresh_packages_caches.go:115-139 | a cached row is deleted iff no listed row has its account and package, the list is not empty or an empty one deletes all, and its account is the given one or, without one, that of a listed row |
| `PackageCacheDb.Scan` | cachecontent/refresh_packages_caches.go:95 | result rows come in key order, one for each group |
| `PackageCacheDb.PackageDatabase.AccountsWithoutCache` | cachecontent/refresh_packages_caches.go:53-66 | the accounts with an invalid cache in (partition, id) order, or an error |
| `PackageCacheDb.PackageDatabase.GetCounts` | cachecontent/refresh_packages_caches.go:68-98 | one result row, with the three counts in their fields, for each group of one account, or of all with an invalid cache, or an error; what the groups count is `PackageAnswers.RefreshAnswer` |
| `PackageCacheDb.PackageDatabase.CommitCache` | cachecontent/common.go:18-25 | a failing statement is rolled back; otherwise the effect is kept unless the commit did not happen, and any commit error is reported |
| `PackageCacheDb.PackageDatabase.UpdatePackageAccountData` | cachecontent/refresh_packages_caches.go:100-113 | the cache is overwritten at the keys of the rows, or unchanged |
| `PackageCacheDb.PackageDatabase.DeleteOldCache` | cachecontent/refresh_packages_caches.go:115-139 | rows outside the given pairs go, for the account or for the accounts of the pairs, with the parameter deciding about an empty list |
| `PackageCacheDb.PackageDatabase.UpdatePkgCacheValidity` | cachecontent/refresh_packages_caches.go:141-153 | sets the flag of the account, or of all accounts, and of no other |
| `PackageCacheDb.PackageDatabase.Store` | cachecontent/refresh_packages_caches.go:33-46 | the three writing steps of a round, stopping at the first failure |
| `PackageCacheDb.PackageDatabase.RefreshOne` | cachecontent/refresh_packages_caches.go:26-48 | one round of the loop is one step of the fault model |
| `PackageCacheDb.PackageDatabase.RefreshPackagesCaches` | cachecontent/refresh_packages_caches.go:10-51 | the loop tries every account; tables and result are those of the fault model, whose rows, flags and result after any run are `PackageCache.CountedRowAfterRun`, `LeftoverAfterRun`, `FlagAfterRun` and `RunSucceedsIff` |
| `Naming.DecimalInjective` | migration/psql_to_spicedb.go:95 | different numbers have different decimal forms |
| `Naming.DecimalExamples` | migration/psql_to_spicedb.go:95 | the decimal forms of 0, 7, 1024 and -120 |
| `Naming.WorkspaceNamesDistinct` | migration/psql_to_spicedb.go:92-93 | root and ungrouped workspace names of all organizations are told apart |
| `Relationships.TouchesAdd` | migration/psql_to_spicedb.go:132-149 | writing touches adds exactly the touched tuples |
| `Relationships.SpiceDb.WriteRelationships` | migration/psql_to_spicedb.go:153-161 | a write applies all its updates in order, or fails and applies none |
| `MigrationStream.StreamMembers` | migration/psql_to_spicedb.go:74-113 | the stream has, for every row, its host and system tuple and, for new organizations, two parent tuples, and nothing else |
| `MigrationStream.StreamLength` | migration/psql_to_spicedb.go:74-121 | the stream has two updates per row and two per new organization |
| `MigrationStream.ParentsOnce` | migration/psql_to_spicedb.go:90-104 | each parent tuple of a new organization is emitted exactly once, of a known one never |
| `MigrationStream.ParentsBeforeHosts` | migration/psql_to_spicedb.go:90-109 | the two parent tuples of a new organization come before every host of it |
| `MigrationStream.HostBeforeSystem` | migration/psql_to_spicedb.go:106-113 | a host is put into a workspace before a system is linked to it |
| `MigrationStream.StreamAdds` | migration/psql_to_spicedb.go:65-122 | the stream adds exactly its tuples to any store |
| `MigrationStream.StreamTuples` | migration/psql_to_spicedb.go:65-122 | in tuples: each row adds workspace N_root with parent organization N, workspace N_root/ungrouped with parent N_root, its host in that workspace and its system on that host, and nothing else is added |
| `MigrationStream.StreamOfOneMore` | migration/psql_to_spicedb.go:88-113 | one more row, update by update: the parent of N_root and then that of N_root/ungrouped, unless the organization is known or met before, then the host, then the system |
| `MigrationStream.EveryPrefixIsClosed` | migration/psql_to_spicedb.go:65-161 | however far the stream got, every host in the store has its ungrouped workspace linked up to the organization, and the host of every system is in a workspace |
| `MigrationStream.KnownOrganizationsMustBeLinkedIff` | migration/psql_to_spicedb.go:90-104 | a migrator that already knows organizations keeps that at every point, and equally at the end, iff the known ones it meets are linked in the store |
| `Migration.Migrator.constructor` | migration/psql_to_spicedb.go:24-31 | a fresh migrator has an empty buffer and knows no organization |
| `Migration.Migrator.FlushUpdates` | migration/psql_to_spicedb.go:153-161 | the buffer is sent in one request and emptied, whether or not the request fails |
| `Migration.Migrator.AddUpdate` | migration/psql_to_spicedb.go:124-151 | the update is accepted behind everything before it, after sending a full batch if the buffer has 100; on failure what was sent is a prefix |
| `Migration.Migrator.AddTwo` | migration/psql_to_spicedb.go:95-101 | two updates in order, the second only if the first was accepted |
| `Migration.Migrator.AddRow` | migration/psql_to_spicedb.go:88-113 | a row adds the parents of an unknown organization, then its host and its system, and the organization is known afterwards; after a failure at most this organization is new |
| `Migration.Migrator.Finish` | migration/psql_to_spicedb.go:121 | the last flush is the last call the run needs: it delivers the whole stream, or only the last batch is lost |
| `Migration.Migrator.AddRows` | migration/psql_to_spicedb.go:74-119 | the row loop accepts the stream of the rows and knows their organizations, or stops at a failed full batch knowing some of them |
| `Migration.Migrator.AddNextRow` | migration/psql_to_spicedb.go:88-119 | one round of the row loop, failed or not, with the organizations known after it |
| `Migration.Migrator.MigrateContentHostsAndSystems` | migration/psql_to_spicedb.go:65-122 | fails iff the query fails, a row cannot be decoded, or one of the calls it needs fails; a failed query changes nothing; on success the requests concatenate to the stream, all but the last of 100 updates; on failure a prefix was sent; all organizations it met are known unless a full batch was lost |
| `Migration.Migrator.MigratePackages` | migration/psql_to_spicedb.go:33-63 | fails iff the query fails, a row cannot be decoded, or one of the calls it needs fails; the requests concatenate to one update per row in order, or to a prefix on failure, without touching the known organizations; the tuples are `PackageMigration.PackagesAdd` |
| `Migration.Migrator.AddNextPatch` | migration/psql_to_spicedb.go:42-58 | one round of the package loop accepts the update of its row behind everything before it, or stops at a lost full batch |
| `PackageMigration.PackagesAdd` | migration/psql_to_spicedb.go:42-61 | the package stream adds the tuple package#system@system for each row, the package from its name id and the system from its system id, and nothing else |
| `PackageMigration.PackagesWritten` | migration/psql_to_spicedb.go:33-63 | however the run ends the store has the tuples of some first rows added, and of all rows on success |
| `PackageMigration.MigratePackagesToSpiceDb` | main.go:72-79 | a fresh migrator fails iff the query fails, a row cannot be decoded or a call among one for every hundred rows fails; it adds the package tuples of some first rows, of all rows on success |
| `PackageMigration.PackagesKeepPermissions` | schema/spicedb_bootstrap.yaml:977-1029 | package tuples change no permission on hosts and systems |
| `PackageMigration.MigratedPackageIsRead` | schema/spicedb_bootstrap.yaml:1025-1029 | after migrating packages into a store without package tuples, a user reads a package iff one of its rows has a system that the user reads |
| `PackageMigration.PackageReadAfterMigrations` | migration/psql_to_spicedb.go:33-122 | after both migrations, with one host per system, a user reads a package iff one of its rows has a system whose migrated host grants the user both `read` and `patch_system_read` |
| `Migration.EndsInterrupted` | migration/psql_to_spicedb.go:124-130 | a lost full batch is a failure before the last call the run needs |
| `Migration.EndsWithFlush` | migration/psql_to_spicedb.go:121 | the last flush is call number (updates + 99) / 100 of the run, and the run fails iff it does |
| `Migration.FailsIffNeededCallFails` | migration/psql_to_spicedb.go:124-161 | a run of n updates needs its first call and one more for each further hundred that begins, and fails iff one of them or a row does |
| `Migration.EveryOutcomeIsClosed` | migration/psql_to_spicedb.go:65-161 | accepted, broken or delivered: the hierarchy in the store is closed |
| `Migration.SentPrefix` | migration/psql_to_spicedb.go:124-161 | whatever the outcome, what was sent is a prefix of the stream |
| `Migration.DeliveredRequests` | migration/psql_to_spicedb.go:14 | 2 * rows + 2 * organizations updates, all requests but the last of 100 updates and the last of at most 100 |
| `Migration.MigrateToSpiceDb` | main.go:64-71 | a fresh migrator fails iff the query, a row or one of the needed calls fails, which are one for every hundred of 2 * rows + 2 * organizations updates; it keeps a closed hierarchy closed whatever fails, and on success adds exactly the four tuples of each row |
| `Migration.RunAndLoseFlush` | migration/psql_to_spicedb.go:103-121 | a fresh migrator whose only flush is lost writes nothing and takes the organizations it met for known |
| `Migration.RetryAfterLostFlush` | migration/psql_to_spicedb.go:90-121 | running it again succeeds and leaves the hierarchy closed iff those organizations had been linked before |
| `Migration.LostFlushOpensHierarchy` | migration/psql_to_spicedb.go:90-121 | one host, an empty store and a failing first call: the second run succeeds and the hierarchy is not closed |
| `Migration.FirstRunSent` | migration/psql_to_spicedb.go:65-161 | what a run of a fresh migrator wrote or left in its buffer is a prefix of its stream, all of it on success |
| `Migration.SecondRunIsClosedIff` | migration/psql_to_spicedb.go:90-104 | a later run that succeeds leaves the hierarchy closed iff the known organizations it meets were linked before it |
| `Migration.MigrateAgain` | migration/psql_to_spicedb.go:65-161 | any run of a fresh migrator and any second run that succeeds: the hierarchy is closed iff what the first run wrote or buffered links the organizations that it came to know and the second meets |
| `MoveTables.MovedRowAt` | migration/move_systems.go:99 | a row goes to its key in the new account and is otherwise unchanged |
| `MoveTables.MovedRowFrom` | migration/move_systems.go:99 | every row after the statement comes from one before it |
| `MoveTables.MovedTables` | migration/move_systems.go:82-104 | row by row for the four tables: nothing is left under the old account, the new one has its own rows and those of the old account unchanged, other accounts keep theirs |
| `MoveTables.MoveKeepsForeignKeys` | migration/move_systems.go:93-104 | after all four statements the three composite foreign keys hold again |
| `MoveTables.LinksFirstIff` | migration/move_systems.go:93-98 | moving repository or advisory rows before the systems breaks their foreign key iff there is one to move |
| `MoveTables.SystemsFirstIff` | migration/move_systems.go:99-104 | moving systems before baselines breaks the baseline foreign key iff a moved system has a baseline |
| `MoveTables.MoveIsAcceptedIff` | migration/move_systems.go:82-104 | with the droppable keys dropped and the other constraints held before, a move is accepted iff no row meets its key, inventory id or baseline name under the new account, the new account exists if a system or baseline moves, and `system_package2` has no row of the old account |
| `MoveTables.EnforcedMoveIff` | readd_foreign_keys.sql:1-14 | with these keys in place and holding, the database accepts a move to another account iff it accepts it without them and the account has no repository row, no advisory row and no system with a baseline |
| `MoveTables.EnforcedKeyRejectsMove` | readd_foreign_keys.sql:6-9 | one system with one advisory: accepted without the keys, rejected with them |
| `MoveTables.OneAdvisoryExists` | readd_foreign_keys.sql:6-9 | there is such a database |
| `MoveCounts.CountedMoves` | migration/move_systems.go:99 | the counted systems after the move are the moved counted systems |
| `MoveCounts.MovedListing` | migration/move_systems.go:96-101 | after the move the systems that list an advisory under the new account are those of both accounts before, moved; none is left under the old account and other accounts keep theirs |
| `MoveCounts.MovedCount` | migration/move_systems.go:96-101 | for every advisory and status: nothing under the old account, the sum of both accounts under the new one, no change elsewhere |
| `MoveCounts.MoveTriggersChangeNothing` | test_data.sql:113-124 | the row triggers that the move fires, whichever rows fire them in whatever order, see no change of `stale` and leave the cache alone |
| `MoveCounts.MoveThenRefresh` | migration/move_systems.go:82-112 | a move, with the row triggers of its UPDATE, and a refresh of both accounts give each advisory the old count of both under the new account, leave the old account no row, leave other accounts untouched, and make the cache exact |
| `MoveCounts.MoveAloneIsExactIff` | migration/move_systems.go:82-112 | the move by itself, with its triggers, leaves the cache exact iff the emptied account had no row in it |
| `MoveCounts.OneAdvisoryIsCached` | test_data.sql:180-218 | the refreshed cache of one counted system with one advisory is exact and has a row |
| `MoveCounts.UnrefreshedMoveDrifts` | migration/move_systems.go:82-112 | moving that system leaves that cache not exact |
| `MovedPackages.HostRowsUnderTo` | migration/move_systems.go:93-104 | the joined package rows of the new account after a move are those before it and those of left-over package rows that a moved system meets |
| `MovedPackages.OldAccountHasNoAnswer` | migration/move_systems.go:99 | after a move the host query of the old account is empty for every list of hosts |
| `MovedPackages.NewAccountAnswersAsBeforeIff` | migration/move_systems.go:93-104 | the host query of the new account answers as before the move, moved hosts or not, iff no left-over package row is met on the hosts asked for |
| `MovedPackages.BaselineIsHostQuery` | server/server.go:275-298 | the account query is the host query on the ungrouped hosts |
| `MovedPackages.CountsKeptIff` | migration/move_systems.go:93-104 | the two accounts together keep their package counts on given hosts iff no joined package row of the old account is on one of them |
| `MovedPackages.BaselineLosesAll` | migration/move_systems.go:93-104 | moving into an account without systems leaves both accounts without a package in the baseline answer |
| `MovedPackages.MovedCountsAreLost` | migration/move_systems.go:93-104 | one package on an ungrouped host is counted before the move and under neither account after it |
| `MoveRelations.MoveUpdatesMoveHosts` | migration/move_systems.go:63-79 | the deletes and touches, applied in order, take exactly the listed hosts from one ungrouped workspace to the other |
| `MoveRelations.MovedTuples` | migration/move_systems.go:47-79 | in tuples: every joined system of the old account has its host taken out of the old N_root/ungrouped workspace and put into the new one, and nothing else changes |
| `MoveRelations.MovedHostTuples` | migration/move_systems.go:25-113 | moving rows and reading off host tuples is reading them off and moving hosts |
| `MoveRelations.MovedHostsOf` | migration/move_systems.go:99 | after a move the new account has the hosts of both accounts |
| `MoveRelations.MoveKeepsInStep` | migration/move_systems.go:99-112 | a completed move keeps the host tuples of the store those of the database |
| `MoveRelations.LostCommitDivergesIff` | migration/move_systems.go:105-112 | a move whose commit is rolled back after the write leaves the two out of step iff there was a host to move |
| `MoveRelations.LostCommitDiverges` | migration/move_systems.go:105-112 | one host: in step before, out of step when the write went through and the commit was rolled back |
| `MoveRelations.MoveKeepsClosedIff` | migration/move_systems.go:63-79 | a move keeps the workspace hierarchy closed iff it moves no host or the new account has been linked |
| `MoveRelations.UnlinkedTargetOpensHierarchy` | migration/move_systems.go:63-79 | one migrated host moved to an account that was never migrated: closed before, not closed after |
| `MoveRelations.MigratedHosts` | migration/psql_to_spicedb.go:106-109 | a migration makes the host tuples of the store the old ones and those of the database |
| `MoveRelations.MigratedSystems` | migration/psql_to_spicedb.go:111-113 | a migration makes the system tuples of the store the old ones and those of the database |
| `MoveRelations.MovedSystemTuples` | migration/move_systems.go:99 | a move changes no system tuple |
| `MoveRelations.MigrateAndMoveCommute` | migration/move_systems.go:25-113 | migrating then moving gives the same host and system tuples as moving then migrating, from any store, in any row order |
| `MoveSystems.MoveSystemsMigration.CollectUpdates` | migration/move_systems.go:47-80 | the row loop fails iff a joined row cannot be decoded, and otherwise lists a delete and a touch for every joined host of the account |
| `MoveSystems.FirstFailing` | migration/move_systems.go:82-104 | no statement fails iff none is made to fail and the database accepts the whole move; a later statement fails only if none before it is made to |
| `MoveSystems.MoveSystemsMigration.Execute` | migration/move_systems.go:82-104 | the first statement that is made to fail or is not accepted is reported; without one the tables are moved |
| `MoveSystems.MoveSystemsMigration.MoveSystems` | migration/move_systems.go:25-113 | the outcome of every run: which step it fails at, when it panics, when it is moved; the relationships are written iff everything before the write and the write itself go well, the database changes iff in addition the commit takes effect, and every other run leaves both stores as they were |
| `MoveSystems.OutcomesInStep` | migration/move_systems.go:82-112 | starting in step, any outcome is out of step iff the commit failed without effect and there was a host to move |
| `Reach.EdgeDescends` | schema/spicedb_bootstrap.yaml:35-37 | on an acyclic graph what lies below a node shrinks along every edge, so the recursion terminates |
| `Reach.TerminatesIffAcyclic` | schema/spicedb_bootstrap.yaml:450-454 | the recursion over the edges terminates, that is some rank falls along every edge, iff they form no cycle |
| `Reach.HoldsIffReaches` | schema/spicedb_bootstrap.yaml:576 | a permission of the form `here + along->permission` holds iff a node where it holds at once can be reached |
| `Reach.HoldsMonotone` | schema/spicedb_bootstrap.yaml:576 | more edges and more such nodes never take it away |
| `Reach.EdgeKeepsAcyclicIff` | schema/spicedb_bootstrap.yaml:450-454 | a new edge closes a cycle iff its end already led to its start |
| `Permissions.SubjectIffIncludes` | schema/spicedb_bootstrap.yaml:237-239 | a binding has the user as subject iff the user is listed or is a member of a group reached through nested groups; in tuples: `PermissionTuples.SubjectInTuples` |
| `Permissions.GrantingIffGrants` | schema/spicedb_bootstrap.yaml:346-352 | `user_grant->permission` holds at a workspace iff a binding there includes the user and its role lists the permission for every user |
| `Permissions.HostPermitsIff` | schema/spicedb_bootstrap.yaml:568-577 | `workspace->permission` holds for a host iff an ancestor workspace grants it |
| `Permissions.HostReadIff` | schema/spicedb_bootstrap.yaml:977-985 | `read` on a host holds iff an ancestor of its workspace grants one of the four read permissions to the user; in tuples: `PermissionTuples.HostReadInTuples` |
| `Permissions.HostPatchReadIff` | schema/spicedb_bootstrap.yaml:977-982 | `patch_system_read` holds iff an ancestor grants one of the two patch permissions |
| `Permissions.SystemReadIff` | schema/spicedb_bootstrap.yaml:1018-1023 | with one host per system, `read` on a system means that its host grants both |
| `Permissions.PatchReadIff` | schema/spicedb_bootstrap.yaml:1025-1029 | with one host per system, `read` on a package holds iff a linked system has a host that grants both |
| `Permissions.AddingNeverRevokes` | schema/spicedb_bootstrap.yaml:977-1029 | adding tuples never revokes a read of a host or of a package |
| `PermissionTuples.WellFoundedInTuples` | schema/spicedb_bootstrap.yaml:35-37 | evaluation is defined iff no chain of tuples group#member@group#member or workspace#parent@workspace comes back to its start |
| `PermissionTuples.SubjectInTuples` | schema/spicedb_bootstrap.yaml:237-239 | a user is a subject of a binding iff a tuple says so, or a chain of tuples outer#member@inner#member leads from a group of the binding to a group with the user as member |
| `PermissionTuples.HostPermitsInTuples` | schema/spicedb_bootstrap.yaml:568-577 | a permission holds on a host iff there is a chain of workspace parents upwards from its workspace, a binding on the last, a role of the binding that lists the permission for every user, and the user as subject, directly or through a chain of groups |
| `PermissionTuples.HostReadInTuples` | schema/spicedb_bootstrap.yaml:977-985 | `read` on a host in tuples: such a chain for one of the four read permissions |
| `PermissionTuples.SystemReadInTuples` | schema/spicedb_bootstrap.yaml:1018-1023 | `read` on a system: one of its host tuples leads to a host that is read, and one to a host with a patch permission |
| `PermissionTuples.PatchReadInTuples` | schema/spicedb_bootstrap.yaml:1025-1029 | `read` on a package: one of its system tuples leads to a system that is read |
| `PermissionTuples.NestedMemberIsSubject` | schema/spicedb_bootstrap.yaml:35-37 | three tuples: the member of a group inside the group of a binding is a subject of the binding |
| `PreFilter.Receive` | server/server.go:129-141 | the Recv loop returns every id in order up to the end of the stream, or the first error |
| `PreFilter.GetPackagesPayload` | server/server.go:196-203 | the payload is the result rows in order |
| `PreFilter.GetContentPackages` | server/server.go:100-158 | an error of the lookup, else of the stream, else of the query is returned; otherwise there is one row, with the three counts in their fields, for each group of the host query on the set of received ids, in key order; what the groups count is `PackageAnswers.HostAnswer` |
| `PreFilter.GetContentPackagesBaseline` | server/server.go:166-194 | one row, with the three counts in their fields, for each group of the account query in key order, or its error; what the groups count is `PackageAnswers.AccountAnswer` |
| `PreFilter.MigratedParentEdge` | migration/psql_to_spicedb.go:95-101 | a migration adds the workspace edge of every organization it meets and no other |
| `PreFilter.MigrationKeepsWellFoundedIff` | migration/psql_to_spicedb.go:90-104 | the permissions are well founded after a migration iff they were before and no root workspace is, when its row comes, already below its own ungrouped workspace |
| `PreFilter.MigrationKeepsWellFounded` | migration/psql_to_spicedb.go:90-104 | in particular a migration closes no cycle when no root workspace it touches has been put below another workspace |
| `PreFilter.MigratedOneHostIff` | migration/psql_to_spicedb.go:111-113 | after a migration into any store every system has one host iff the rows give no system two hosts and disagree with no tuple that was there |
| `PreFilter.RootGrantReadsUngrouped` | schema/spicedb_bootstrap.yaml:450-454 | a user granted a host read on the root workspace of an account reads every host in its ungrouped workspace |
| `PreFilter.MigratedAccount` | migration/psql_to_spicedb.go:90-113 | a migration puts every host of a system of an account into its ungrouped workspace, below its root workspace |
| `PreFilter.LookupIsBaselineIff` | server/server.go:251-298 | for such a user and any store that holds the account, the lookup returns every host of the account, and the query on the looked-up hosts is the account query iff every joined host is ungrouped |
| `PreFilter.RootGrantReadsHosts` | schema/spicedb_bootstrap.yaml:450-454 | after a migration, a user granted a host read on the root workspace of an account reads every joined host of the account |
| `PreFilter.PreFilterIsBaselineIff` | server/server.go:251-298 | after a migration, for such a user, the pre-filter query on the looked-up hosts returns exactly the baseline result iff every joined host of the account is ungrouped |
| `PreFilter.MoveKeepsEdges` | migration/move_systems.go:63-79 | a move changes no group, no workspace edge and no link to an organization |
| `PreFilter.MoveKeepsGrants` | migration/move_systems.go:63-79 | a move changes no grant |
| `PreFilter.MovedAccount` | migration/move_systems.go:25-113 | after migrating and moving, every host of a system of the new account, moved systems included, is in its ungrouped workspace |
| `PreFilter.MovedHostsAreRead` | migration/move_systems.go:25-113 | after migrating and moving into a linked account, a user granted on its root workspace reads the hosts of both accounts |
| `PreFilter.AnswersWithoutMoved` | migration/move_systems.go:93-104 | after a move both servers answer for both accounts as if the moved systems did not exist |
| `PreFilter.PreFilterAfterMove` | migration/move_systems.go:25-113 | that user looks up the moved hosts and yet gets, for the new account, the counts of its own systems only and, for the old one, nothing; this is the baseline answer iff the hosts that the new account counted before are ungrouped |
| `PreFilter.GroupedHostDiffers` | server/server.go:289 | for one host with a package that is in an inventory group, the two answers differ |

## Left out

- `delete_systems` and `delete_culled_systems` (test_data.sql:418-486): they update and delete the same rows in one statement, whose effect PostgreSQL leaves open (section 7.8.4 of its documentation, "Data-Modifying Statements in WITH").
- Row locks, concurrent sessions, `work_mem`, tracing and printing: every committed transaction is one atomic step.
- Counters are unbounded integers: the overflow of the INT counter columns and of Go's int is not modelled, because a counter is bounded by the number of systems.
- Foreign keys to `advisory_metadata`, `package_name`, `status` and `reporter`, NOT NULL and CHECK constraints on columns the model does not hold, and the timestamp triggers: they neither read nor change the modelled columns.
- `refresh_account_cached_counts` and the other wrappers of test_data.sql:280-287 and 302-359: each looks up an id and calls a procedure that is modelled.
- The value of `hashint4extended`: any signed 64-bit number.
- The ORDER BY of the query variants is left out where they are compared with each other; the server and the refresh read their result rows in key order. The CTE form selects `name_id` without the alias that the result struct expects, so the comparison is on the relations.
- `IN` with an empty host list is taken to match no row.
- gorm and the PostgreSQL driver: what `NOT IN` does with an empty list is a parameter with three values.
- SpiceDB: a write is atomic, a TOUCH inserts, a DELETE removes, repeated updates in one request are accepted, a failed write changes nothing, and a lookup returns exactly the readable hosts. Its depth limit, consistency tokens, caveats and expiring relationships are not modelled.
- PackageCacheDb.PackageDatabase.RefreshPackagesCaches: the result tells about the last account only, as in the code, so it does not state that success means that every account was refreshed.
- Result sets are complete: a connection that breaks in the middle of a row loop, which the loops do not check for, is not modelled beyond the rows that cannot be decoded.
- MoveSystems.MoveSystemsMigration.MoveSystems: with equal accounts it writes a DELETE and a TOUCH of the same tuple, which SpiceDB may refuse; the model lets it through. The results on counts, foreign keys and relationships are for distinct accounts.
- `system_package` in a move: the code does not move it, and the schema has no foreign key from it to `system_platform`. `MovedPackages.CountsKeptIff` and `PreFilter.PreFilterAfterMove` are for databases without package rows of systems that do not exist; what such rows change is stated by `MovedPackages.NewAccountAnswersAsBeforeIff`. `system_package2` keeps a foreign key to the moved systems and appears only in that check.
- Permissions.HostRead: evaluated on acyclic graphs only, because the schema's recursion has no value on a cycle. The several hundred permissions of the same shape are represented by one permission that is a parameter.
- `GetContentPackagesWithDatabase`, identity headers, the generated HTTP code, clients, configuration and telemetry: plumbing.
- `BulkInsert` and its reflection helpers in cachecontent/batch.go: not called by the modelled code.

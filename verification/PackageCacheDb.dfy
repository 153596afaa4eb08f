/** The refresh job of cachecontent/refresh_packages_caches.go, on tables updated in place. */
module PackageCacheDb {
  import opened Common
  import opened Keys
  import opened PackageQueries
  import opened PackageCache
  import opened Unnest
  import opened Partition

  const PACKAGE_PARTITIONS := 128

  // ----- Result rows -----

  function RowFor(k: AccKey, n: Counts): PackageAccountData {
    PackageAccountData(k.acc, k.id, n.installed, n.installable, n.applicable)
  }

  /** The result rows of a grouped query, in the order of its keys. */
  ghost function RowsOf(counts: Cache): seq<PackageAccountData> {
    var ks := Sorted(counts.Keys);
    seq(|ks|, i requires 0 <= i < |ks| => RowFor(ks[i], counts[ks[i]]))
  }

  lemma {:induction false} AsMapContents(rows: seq<PackageAccountData>)
    requires DistinctKeys(rows)
    ensures forall i | 0 <= i < |rows| :: rows[i].Key() in AsMap(rows) && AsMap(rows)[rows[i].Key()] == rows[i].Cell()
    ensures forall k | k in AsMap(rows) :: exists i :: 0 <= i < |rows| && rows[i].Key() == k
    decreases |rows|
  {
    if rows != [] {
      var n := |rows| - 1;
      AsMapContents(rows[..n]);
      forall k | k in AsMap(rows) ensures exists i :: 0 <= i < |rows| && rows[i].Key() == k {
        if k != rows[n].Key() {
          var i :| 0 <= i < n && rows[..n][i].Key() == k;
          assert rows[i].Key() == k;
        }
      }
    }
  }

  /** Reading the grouped counts into rows loses nothing: the keys are distinct and the rows give the counts back. */
  lemma RowsRoundTrip(counts: Cache)
    ensures DistinctKeys(RowsOf(counts)) && AsMap(RowsOf(counts)) == counts
  {
    var rows := RowsOf(counts);
    var ks := Sorted(counts.Keys);
    forall i, j | 0 <= i < j < |rows| ensures rows[i].Key() != rows[j].Key() {
      assert Before(ks[i], ks[j]);
    }
    AsMapContents(rows);
    forall k ensures Lookup(AsMap(rows), k) == Lookup(counts, k) {
      if k in counts {
        assert k in ks;
        var i :| 0 <= i < |ks| && ks[i] == k;
        assert rows[i].Key() == k;
      }
      if k in AsMap(rows) {
        var i :| 0 <= i < |rows| && rows[i].Key() == k;
        assert ks[i] in ks;
      }
    }
    SameMap(AsMap(rows), counts);
  }

  /** A batch overwrites the cached row of its account and package with its three counts, and no other row. */
  lemma BatchOverwrites(cache: Cache, rows: seq<PackageAccountData>, k: AccKey)
    requires DistinctKeys(rows)
    ensures forall r | r in rows && r.accId == k.acc && r.pkgNameId == k.id ::
              Lookup(cache + AsMap(rows), k) == Some(Counts(r.sysInstalled, r.sysInstallable, r.sysApplicable))
    ensures (forall r | r in rows :: r.accId != k.acc || r.pkgNameId != k.id) ==>
              Lookup(cache + AsMap(rows), k) == Lookup(cache, k)
  {
    AsMapContents(rows);
    if r :| r in rows && r.accId == k.acc && r.pkgNameId == k.id {
      var i :| 0 <= i < |rows| && rows[i] == r;
      assert rows[i].Key() == k;
    }
  }

  /** The rows carry the counts of their keys, field by field, and there is one for every key. */
  lemma RowsCarryCounts(counts: Cache)
    ensures forall r :: r in RowsOf(counts) <==>
                        Lookup(counts, AccKey(r.accId, r.pkgNameId)) ==
                        Some(Counts(r.sysInstalled, r.sysInstallable, r.sysApplicable))
  {
    var ks := Sorted(counts.Keys);
    forall r
      ensures r in RowsOf(counts) <==>
              Lookup(counts, AccKey(r.accId, r.pkgNameId)) ==
              Some(Counts(r.sysInstalled, r.sysInstallable, r.sysApplicable))
    {
      if r in RowsOf(counts) {
        var i :| 0 <= i < |ks| && RowsOf(counts)[i] == r;
        assert ks[i] in ks;
      }
      var k := AccKey(r.accId, r.pkgNameId);
      if k in counts && counts[k] == Counts(r.sysInstalled, r.sysInstallable, r.sysApplicable) {
        assert k in ks;
        var i :| 0 <= i < |ks| && ks[i] == k;
        assert RowsOf(counts)[i] == r;
      }
    }
  }

  // ----- The account list -----

  function PartitionKey(account: int, hash: int -> int): AccKey
  {
    PartitionInRange(hash(account), PACKAGE_PARTITIONS);
    AccKey(HashPartitionId(hash(account), PACKAGE_PARTITIONS).value, account)
  }

  function InvalidKeys(valid: map<int, bool>, hash: int -> int): set<AccKey> {
    set a | a in valid && !valid[a] :: PartitionKey(a, hash)
  }

  /** `WHERE valid_package_cache = FALSE ORDER BY hash_partition_id(id, 128), id` */
  ghost function InvalidAccounts(valid: map<int, bool>, hash: int -> int): seq<int> {
    var ks := Sorted(InvalidKeys(valid, hash));
    seq(|ks|, i requires 0 <= i < |ks| => ks[i].id)
  }

  /**
   The list has every account with an invalid cache once, ordered by partition number and then by
   account, so the accounts of one partition are side by side.
   */
  lemma InvalidAccountsProperties(valid: map<int, bool>, hash: int -> int)
    ensures var accs := InvalidAccounts(valid, hash);
            && (forall a :: a in accs <==> a in valid && !valid[a])
            && (forall i, j | 0 <= i < j < |accs| ::
                  var p, q := (hash(accs[i]) + 5305509591434766563) % 128, (hash(accs[j]) + 5305509591434766563) % 128;
                  accs[i] != accs[j] && (p < q || (p == q && accs[i] < accs[j])))
            && (forall i, j, k | 0 <= i < j < k < |accs| &&
                  PartitionKey(accs[i], hash).acc == PartitionKey(accs[k], hash).acc ::
                  PartitionKey(accs[j], hash).acc == PartitionKey(accs[i], hash).acc)
  {
    var ks := Sorted(InvalidKeys(valid, hash));
    var accs := InvalidAccounts(valid, hash);
    forall i | 0 <= i < |ks| ensures ks[i] == PartitionKey(accs[i], hash) && accs[i] in valid && !valid[accs[i]] {
      assert ks[i] in ks;
      var a :| a in valid && !valid[a] && ks[i] == PartitionKey(a, hash);
    }
    forall a ensures a in accs <==> a in valid && !valid[a] {
      if a in valid && !valid[a] {
        assert PartitionKey(a, hash) in InvalidKeys(valid, hash);
        assert PartitionKey(a, hash) in ks;
        var i :| 0 <= i < |ks| && ks[i] == PartitionKey(a, hash);
        assert accs[i] == a;
      }
    }
    forall i, j | 0 <= i < j < |accs|
      ensures var p, q := (hash(accs[i]) + COMBINE) % 128, (hash(accs[j]) + COMBINE) % 128;
              p < q || (p == q && accs[i] < accs[j])
    {
      PartitionInRange(hash(accs[i]), PACKAGE_PARTITIONS);
      PartitionInRange(hash(accs[j]), PACKAGE_PARTITIONS);
      assert Before(ks[i], ks[j]);
      assert ks[i] == PartitionKey(accs[i], hash) && ks[j] == PartitionKey(accs[j], hash);
    }
    forall i, j, k | 0 <= i < j < k < |accs| && PartitionKey(accs[i], hash).acc == PartitionKey(accs[k], hash).acc
      ensures PartitionKey(accs[j], hash).acc == PartitionKey(accs[i], hash).acc
    {
      assert ks[i] == PartitionKey(accs[i], hash) && ks[j] == PartitionKey(accs[j], hash);
      assert ks[k] == PartitionKey(accs[k], hash);
      PartitionsAreContiguous(ks, i, j, k);
    }
  }

  // ----- The statements of the third and the fourth step -----

  /** The rows that match `NOT IN` the given pairs and belong to the account, or to the accounts of the pairs. */
  function Dropped(cache: Cache, rows: seq<PackageAccountData>, accID: Option<int>, e: EmptyNotIn): set<AccKey> {
    set k | && k in cache
            && (if rows == [] then e == DeletesAll else forall r | r in rows :: r.Key() != k)
            && (if accID.Some? then k.acc == accID.value else exists r :: r in rows && r.accId == k.acc)
  }

  /**
   Which rows the statement deletes: those of the accounts in question that match none of the
   listed packages; nothing, if the list is empty and the driver lets an empty list match nothing.
   */
  lemma DeletedRows(cache: Cache, rows: seq<PackageAccountData>, accID: Option<int>, e: EmptyNotIn, k: AccKey)
    ensures Lookup(cache - Dropped(cache, rows, accID, e), k) ==
            if && (forall r | r in rows :: r.accId != k.acc || r.pkgNameId != k.id)
               && (rows == [] ==> e == DeletesAll)
               && (accID == Some(k.acc) || (accID == None && exists r :: r in rows && r.accId == k.acc))
            then None else Lookup(cache, k)
  {
    if exists r :: r in rows && r.accId == k.acc && r.pkgNameId == k.id {
      var r :| r in rows && r.accId == k.acc && r.pkgNameId == k.id;
      assert r.Key() == k;
    }
  }

  function Flagged(valid: map<int, bool>, accID: Option<int>): map<int, bool> {
    map a | a in valid :: valid[a] || accID.None? || a == accID.value
  }

  lemma FlaggedOne(valid: map<int, bool>, account: int)
    ensures Flagged(valid, Some(account)) == if account in valid then valid[account := true] else valid
  {
  }

  lemma WantedIgnoresFlags(c: Content, account: int, valid: map<int, bool>)
    ensures PackageQueries.GetCounts(c, Some(account), valid) == Wanted(c, account)
  {
    assert ActiveRows(c, Some(account), valid) == ActiveRows(c, Some(account), map[]);
  }

  lemma RowsNonEmpty(counts: Cache)
    ensures RowsOf(counts) == [] <==> counts == map[]
  {
  }

  /** For the rows of one account the statement deletes the leftovers of that account. */
  lemma DroppedAreLeftovers(cache: Cache, account: int, counts: Cache, e: EmptyNotIn)
    ensures Dropped(cache, RowsOf(counts), Some(account), e) == Leftovers(cache, account, counts, e)
  {
    RowsNonEmpty(counts);
    var rows := RowsOf(counts);
    var ks := Sorted(counts.Keys);
    forall k ensures k in counts <==> exists r :: r in rows && r.Key() == k {
      if k in counts {
        assert k in ks;
        var i :| 0 <= i < |ks| && ks[i] == k;
        assert rows[i] in rows && rows[i].Key() == k;
      }
      if r :| r in rows && r.Key() == k {
        var i :| 0 <= i < |rows| && rows[i] == r;
        assert ks[i] in ks;
      }
    }
  }

  // ----- The refresh -----

  /** Reads a query result, group by group, into a slice. */
  method Scan(counts: Cache) returns (rows: seq<PackageAccountData>)
    ensures rows == RowsOf(counts)
  {
    var ks := SortKeys(counts.Keys);
    rows := [];
    assert forall h | 0 <= h < |ks| :: ks[h] in ks;
    for i := 0 to |ks|
      invariant |rows| == i
      invariant forall h | 0 <= h < i :: rows[h] == RowFor(ks[h], counts[ks[h]])
    {
      rows := rows + [RowFor(ks[i], counts[ks[i]])];
    }
  }

  class PackageDatabase {
    const content: Content
    const emptyNotIn: EmptyNotIn
    var cache: Cache
    var valid: map<int, bool>

    constructor (content: Content, emptyNotIn: EmptyNotIn, cache: Cache, valid: map<int, bool>)
      ensures this.content == content && this.emptyNotIn == emptyNotIn && this.cache == cache && this.valid == valid
    {
      this.content, this.emptyNotIn, this.cache, this.valid := content, emptyNotIn, cache, valid;
    }

    ghost function Tables(): State
      reads this
    {
      State(cache, valid)
    }

    /** accountsWithoutCache */
    method AccountsWithoutCache(hash: int -> int, tx: TxOutcome) returns (accs: seq<int>, failed: bool)
      ensures failed <==> tx != Committed
      ensures !failed ==> accs == InvalidAccounts(valid, hash)
    {
      var ks := SortKeys(InvalidKeys(valid, hash));
      accs := [];
      for i := 0 to |ks|
        invariant |accs| == i
        invariant forall h | 0 <= h < i :: accs[h] == ks[h].id
      {
        accs := accs + [ks[i].id];
      }
      failed := tx != Committed;
    }

    /** getCounts */
    method GetCounts(accID: Option<int>, tx: TxOutcome) returns (rows: seq<PackageAccountData>, failed: bool)
      ensures failed <==> tx != Committed
      ensures !failed ==> rows == RowsOf(PackageQueries.GetCounts(content, accID, valid))
      ensures !failed ==>
                forall r :: r in rows <==>
                            Lookup(PackageQueries.GetCounts(content, accID, valid), AccKey(r.accId, r.pkgNameId)) ==
                            Some(Counts(r.sysInstalled, r.sysInstallable, r.sysApplicable))
    {
      RowsCarryCounts(PackageQueries.GetCounts(content, accID, valid));
      rows := Scan(PackageQueries.GetCounts(content, accID, valid));
      failed := tx != Committed;
    }

    /** withTx around one statement on the cache table: commit its effect, or roll back. */
    method CommitCache(result: Result<Cache, SqlError>, tx: TxOutcome) returns (failed: bool)
      modifies this`cache
      ensures failed <==> result.Err? || tx != Committed
      ensures cache == if result.Ok? && TakesEffect(tx) then result.value else old(cache)
    {
      if result.Err? {
        return true;
      }
      if TakesEffect(tx) {
        cache := result.value;
      }
      failed := tx != Committed;
    }

    /** updatePackageAccountData, with UnnestInsert */
    method UpdatePackageAccountData(rows: seq<PackageAccountData>, tx: TxOutcome) returns (failed: bool)
      modifies this`cache
      ensures failed <==> !DistinctKeys(rows) || tx != Committed
      ensures cache == if DistinctKeys(rows) && TakesEffect(tx) then old(cache) + AsMap(rows) else old(cache)
    {
      var result: Result<Cache, SqlError> := Ok(cache);
      if |rows| != 0 {
        FieldsAreUniform(rows);
        var column := Transpose(AllFields(rows), FIELDS);
        UpsertOverwritesBatch(cache, rows);
        result := Upsert(cache, UnnestRows(column));
      }
      failed := CommitCache(result, tx);
    }

    /** deleteOldCache; without an account id the accounts are those of the given rows. */
    method DeleteOldCache(rows: seq<PackageAccountData>, accID: Option<int>, tx: TxOutcome) returns (failed: bool)
      modifies this`cache
      ensures failed <==> (rows == [] && emptyNotIn == Fails) || tx != Committed
      ensures cache == if !(rows == [] && emptyNotIn == Fails) && TakesEffect(tx)
                       then old(cache) - Dropped(old(cache), rows, accID, emptyNotIn) else old(cache)
    {
      var seen: set<int> := {};
      var accs: seq<int> := [];
      var pkgAcc: seq<AccKey> := [];
      for i := 0 to |rows|
        invariant seen == set a | a in accs
        invariant forall a :: a in accs <==> exists r :: r in rows[..i] && r.accId == a
        invariant |pkgAcc| == i
        invariant forall h | 0 <= h < i :: pkgAcc[h] == rows[h].Key()
      {
        var r := rows[i];
        pkgAcc := pkgAcc + [AccKey(r.accId, r.pkgNameId)];
        assert rows[..i + 1] == rows[..i] + [r];
        if r.accId !in seen {
          seen := seen + {r.accId};
          accs := accs + [r.accId];
        }
      }
      assert rows[..|rows|] == rows;
      if pkgAcc == [] && emptyNotIn == Fails {
        failed := CommitCache(Err(EmptyList), tx);
        return;
      }
      assert forall k :: k in pkgAcc <==> exists r :: r in rows && r.Key() == k by {
        forall k | k in pkgAcc ensures exists r :: r in rows && r.Key() == k {
          var h :| 0 <= h < |pkgAcc| && pkgAcc[h] == k;
          assert rows[h] in rows;
        }
        forall r | r in rows ensures r.Key() in pkgAcc {
          var h :| 0 <= h < |rows| && rows[h] == r;
          assert pkgAcc[h] in pkgAcc;
        }
      }
      var dropped := set k | && k in cache
                             && (if pkgAcc == [] then emptyNotIn == DeletesAll else k !in pkgAcc)
                             && (if accID.Some? then k.acc == accID.value else k.acc in accs);
      assert dropped == Dropped(cache, rows, accID, emptyNotIn);
      failed := CommitCache(Ok(cache - dropped), tx);
    }

    /** updatePkgCacheValidity; without an account id it flags every account. */
    method UpdatePkgCacheValidity(accID: Option<int>, tx: TxOutcome) returns (failed: bool)
      modifies this`valid
      ensures failed <==> tx != Committed
      ensures valid == if TakesEffect(tx) then Flagged(old(valid), accID) else old(valid)
      ensures !failed ==>
                && valid.Keys == old(valid).Keys
                && forall a | a in valid :: valid[a] <==> old(valid)[a] || accID == None || accID == Some(a)
    {
      if TakesEffect(tx) {
        var invalid := set a | a in valid && valid[a] == false && (accID.Some? ==> a == accID.value);
        valid := map a | a in valid :: if a in invalid then true else valid[a];
      }
      failed := tx != Committed;
    }

    /** The three writing steps of a round. */
    method Store(pkgSysCounts: seq<PackageAccountData>, acc: int, f: Faults,
                 ghost counts: Cache) returns (failed: bool)
      requires pkgSysCounts == RowsOf(counts)
      modifies this
      ensures (Tables(), !failed) == StoreSteps(counts, emptyNotIn, old(Tables()), acc, f)
    {
      RowsRoundTrip(counts);
      RowsNonEmpty(counts);
      failed := UpdatePackageAccountData(pkgSysCounts, f(Write));
      if failed {
        return;
      }
      DroppedAreLeftovers(cache, acc, counts, emptyNotIn);
      failed := DeleteOldCache(pkgSysCounts, Some(acc), f(DropLeftovers));
      if failed {
        return;
      }
      FlaggedOne(valid, acc);
      failed := UpdatePkgCacheValidity(Some(acc), f(SetFlag));
    }

    /** One round of the loop. */
    method RefreshOne(acc: int, f: Faults) returns (failed: bool)
      modifies this
      ensures (Tables(), !failed) == RefreshAccount(content, emptyNotIn, old(Tables()), acc, f)
    {
      var pkgSysCounts;
      pkgSysCounts, failed := GetCounts(Some(acc), f(Count));
      WantedIgnoresFlags(content, acc, valid);
      if failed {
        return;
      }
      failed := Store(pkgSysCounts, acc, f, Wanted(content, acc));
    }

    /**
     RefreshPackagesCaches. Every account is tried whatever failed before it; the result tells only
     whether listing failed or, if it did not, whether the last account failed.
     */
    method RefreshPackagesCaches(accID: Option<int>, listing: TxOutcome, hash: int -> int, faults: nat -> Faults)
      returns (failed: bool)
      modifies this
      ensures accID.None? && listing != Committed ==> failed && Tables() == old(Tables())
      ensures accID.Some? || listing == Committed ==>
                var accs := if accID.Some? then [accID.value] else InvalidAccounts(old(valid), hash);
                (Tables(), !failed) == RefreshAll(content, emptyNotIn, old(Tables()), accs, faults)
    {
      var accs: seq<int>;
      if accID.None? {
        accs, failed := AccountsWithoutCache(hash, listing);
        if failed {
          return;
        }
      } else {
        accs := [accID.value];
      }
      failed := false;
      for i := 0 to |accs|
        invariant (Tables(), !failed) == RefreshAll(content, emptyNotIn, old(Tables()), accs[..i], faults)
      {
        assert accs[..i + 1][..i] == accs[..i];
        failed := RefreshOne(accs[i], faults(i));
      }
      assert accs[..|accs|] == accs;
    }
  }
}

/**
 The package counter cache package_account_data and the flag rh_account.valid_package_cache as
 values: the steps of a refresh, each with every outcome its transaction can have, and what holds
 over all runs whatever fails.
 */
module PackageCache {
  import opened Common
  import opened Keys
  import opened PackageQueries
  import opened Unnest

  type Cache = map<AccKey, Counts>

  /** The Go struct; reflection reads its fields in this order. */
  datatype PackageAccountData = PackageAccountData(
    accId: int, pkgNameId: int, sysInstalled: int, sysInstallable: int, sysApplicable: int)
  {
    function Key(): AccKey { AccKey(accId, pkgNameId) }

    function Cell(): Counts { Counts(sysInstalled, sysInstallable, sysApplicable) }

    function Fields(): seq<int> { [accId, pkgNameId, sysInstalled, sysInstallable, sysApplicable] }
  }

  const FIELDS := 5

  predicate DistinctKeys(rows: seq<PackageAccountData>) {
    forall i, j | 0 <= i < j < |rows| :: rows[i].Key() != rows[j].Key()
  }

  function AsMap(rows: seq<PackageAccountData>): Cache {
    if rows == [] then map[]
    else
      var last := rows[|rows| - 1];
      AsMap(rows[..|rows| - 1])[last.Key() := last.Cell()]
  }

  function AllFields(rows: seq<PackageAccountData>): seq<seq<int>> {
    seq(|rows|, i requires 0 <= i < |rows| => rows[i].Fields())
  }

  // ----- INSERT .. SELECT * FROM unnest($1, .., $5) ON CONFLICT DO UPDATE -----

  datatype SqlError = NullValue | RowUpdatedTwice | EmptyList

  predicate Complete(r: seq<Option<int>>) {
    |r| == FIELDS && forall i | 0 <= i < FIELDS :: r[i].Some?
  }

  /** The column list (rh_account_id, package_name_id, systems_installed, systems_installable, systems_applicable). */
  function TargetKey(r: seq<Option<int>>): AccKey
    requires Complete(r)
  {
    AccKey(r[0].value, r[1].value)
  }

  function TargetCell(r: seq<Option<int>>): Counts
    requires Complete(r)
  {
    Counts(r[2].value, r[3].value, r[4].value)
  }

  function InsertedCells(rows: seq<seq<Option<int>>>): Cache
    requires forall i | 0 <= i < |rows| :: Complete(rows[i])
  {
    if rows == [] then map[]
    else
      var last := rows[|rows| - 1];
      InsertedCells(rows[..|rows| - 1])[TargetKey(last) := TargetCell(last)]
  }

  /** The statement fails on a NULL, and when one command would change a row twice. */
  function Upsert(cache: Cache, rows: seq<seq<Option<int>>>): Result<Cache, SqlError> {
    if exists i | 0 <= i < |rows| :: !Complete(rows[i]) then Err(NullValue)
    else if exists i, j | 0 <= i < j < |rows| :: TargetKey(rows[i]) == TargetKey(rows[j]) then Err(RowUpdatedTwice)
    else Ok(cache + InsertedCells(rows))
  }

  /** `sent` carries the rows of the batch, column by column in the right place. */
  ghost predicate Carries(sent: seq<seq<Option<int>>>, rows: seq<PackageAccountData>) {
    && |sent| == |rows|
    && forall i | 0 <= i < |rows| ::
         Complete(sent[i]) && TargetKey(sent[i]) == rows[i].Key() && TargetCell(sent[i]) == rows[i].Cell()
  }

  lemma TransposeCarries(rows: seq<PackageAccountData>)
    requires Uniform(AllFields(rows), FIELDS)
    ensures Carries(UnnestRows(Columns(AllFields(rows), FIELDS)), rows)
  {
    TransposeRoundTripIff(AllFields(rows), FIELDS);
    var sent := NotNull(AllFields(rows));
    forall i | 0 <= i < |rows|
      ensures Complete(sent[i]) && TargetKey(sent[i]) == rows[i].Key() && TargetCell(sent[i]) == rows[i].Cell()
    {
      assert AllFields(rows)[i] == rows[i].Fields();
    }
  }

  lemma {:induction false} CarriedCells(sent: seq<seq<Option<int>>>, rows: seq<PackageAccountData>)
    requires Carries(sent, rows)
    ensures InsertedCells(sent) == AsMap(rows)
    decreases |rows|
  {
    if rows != [] {
      var n := |rows| - 1;
      CarriedCells(sent[..n], rows[..n]);
    }
  }

  lemma UpsertOfCarried(cache: Cache, sent: seq<seq<Option<int>>>, rows: seq<PackageAccountData>)
    requires Carries(sent, rows)
    ensures Upsert(cache, sent) == if DistinctKeys(rows) then Ok(cache + AsMap(rows)) else Err(RowUpdatedTwice)
  {
    CarriedCells(sent, rows);
    if !DistinctKeys(rows) {
      var i, j :| 0 <= i < j < |rows| && rows[i].Key() == rows[j].Key();
      assert TargetKey(sent[i]) == TargetKey(sent[j]);
    }
  }

  /**
   Transposing a batch and upserting it overwrites the keys of the batch with its counts and leaves
   every other row; a key that occurs twice makes the statement fail.
   */
  lemma UpsertOverwritesBatch(cache: Cache, rows: seq<PackageAccountData>)
    requires Uniform(AllFields(rows), FIELDS)
    ensures Upsert(cache, UnnestRows(Columns(AllFields(rows), FIELDS))) ==
            if DistinctKeys(rows) then Ok(cache + AsMap(rows)) else Err(RowUpdatedTwice)
  {
    TransposeCarries(rows);
    UpsertOfCarried(cache, UnnestRows(Columns(AllFields(rows), FIELDS)), rows);
  }

  lemma FieldsAreUniform(rows: seq<PackageAccountData>)
    ensures Uniform(AllFields(rows), FIELDS)
  {
  }

  // ----- Runs -----

  datatype Step = Count | Write | DropLeftovers | SetFlag

  type Faults = Step -> TxOutcome

  /** What `NOT IN ?` does with an empty list; the driver decides. */
  datatype EmptyNotIn = DeletesNothing | DeletesAll | Fails

  datatype State = State(cache: Cache, valid: map<int, bool>)

  function CacheOf(cache: Cache, account: int): Cache {
    map k | k in cache && k.acc == account :: cache[k]
  }

  function Wanted(c: Content, account: int): Cache {
    GetCounts(c, Some(account), map[])
  }

  /** The rows that the third step deletes. */
  function Leftovers(cache: Cache, account: int, counts: Cache, e: EmptyNotIn): set<AccKey> {
    set k | k in cache && k.acc == account && (if counts == map[] then e == DeletesAll else k !in counts)
  }

  /** The three writing steps for an account with the grouped counts `counts`; the flag says whether all succeeded. */
  function StoreSteps(counts: Cache, e: EmptyNotIn, s: State, account: int, f: Faults): (State, bool) {
    var written := if TakesEffect(f(Write)) then s.(cache := s.cache + counts) else s;
    if f(Write) != Committed then (written, false)
    else if counts == map[] && e == Fails then (written, false)
    else
      var dropped := if TakesEffect(f(DropLeftovers))
                     then written.(cache := written.cache - Leftovers(written.cache, account, counts, e))
                     else written;
      if f(DropLeftovers) != Committed then (dropped, false)
      else
        var flagged := if TakesEffect(f(SetFlag)) && account in dropped.valid
                       then dropped.(valid := dropped.valid[account := true]) else dropped;
        (flagged, f(SetFlag) == Committed)
  }

  /** All four steps: nothing is written when counting fails. */
  function FourSteps(counts: Cache, e: EmptyNotIn, s: State, account: int, f: Faults): (State, bool) {
    if f(Count) != Committed then (s, false) else StoreSteps(counts, e, s, account, f)
  }

  function RefreshAccount(c: Content, e: EmptyNotIn, s: State, account: int, f: Faults): (State, bool) {
    FourSteps(Wanted(c, account), e, s, account, f)
  }

  /** The loop over the accounts; a failing account does not stop it, and the last account decides the result. */
  function RefreshAll(c: Content, e: EmptyNotIn, s: State, accs: seq<int>, faults: nat -> Faults): (State, bool) {
    if accs == [] then (s, true)
    else
      var n := |accs| - 1;
      RefreshAccount(c, e, RefreshAll(c, e, s, accs[..n], faults).0, accs[n], faults(n))
  }

  /** Every account flagged valid has exactly its grouped counts cached. */
  ghost predicate Safe(c: Content, s: State) {
    forall a | a in s.valid && s.valid[a] :: CacheOf(s.cache, a) == Wanted(c, a)
  }

  /** An account without any counts is refreshed correctly only if its leftover rows are deleted or there are none. */
  predicate EmptyIsHandled(c: Content, e: EmptyNotIn, cache: Cache, account: int) {
    Wanted(c, account) != map[] || e != DeletesNothing || CacheOf(cache, account) == map[]
  }

  lemma WantedIsOwn(c: Content, account: int)
    ensures forall k | k in Wanted(c, account) :: k.acc == account
  {
  }

  ghost predicate Owned(counts: Cache, account: int) {
    forall k | k in counts :: k.acc == account
  }

  /** The steps touch the rows and the flag of their account and no other. */
  lemma StepsFrame(counts: Cache, e: EmptyNotIn, s: State, account: int, f: Faults, other: int)
    requires other != account && Owned(counts, account)
    ensures var s' := FourSteps(counts, e, s, account, f).0;
            CacheOf(s'.cache, other) == CacheOf(s.cache, other) && Lookup(s'.valid, other) == Lookup(s.valid, other)
  {
    assert CacheOf(s.cache + counts, other) == CacheOf(s.cache, other);
    DropFrame(s.cache + counts, Leftovers(s.cache + counts, account, counts, e), other);
  }

  lemma DropFrame(cache: Cache, dropped: set<AccKey>, other: int)
    requires forall k | k in dropped :: k.acc != other
    ensures CacheOf(cache - dropped, other) == CacheOf(cache, other)
  {
  }

  lemma AccountFrame(c: Content, e: EmptyNotIn, s: State, account: int, f: Faults, other: int)
    requires other != account
    ensures var s' := RefreshAccount(c, e, s, account, f).0;
            CacheOf(s'.cache, other) == CacheOf(s.cache, other) && Lookup(s'.valid, other) == Lookup(s.valid, other)
  {
    WantedIsOwn(c, account);
    StepsFrame(Wanted(c, account), e, s, account, f, other);
  }

  /** What the two steps that write rows make of the rows of the account. */
  lemma WrittenRows(counts: Cache, cache: Cache, account: int, e: EmptyNotIn)
    requires Owned(counts, account)
    ensures CacheOf(cache + counts, account) == CacheOf(cache, account) + counts
    ensures CacheOf(cache + counts - Leftovers(cache + counts, account, counts, e), account) ==
            if counts != map[] || e == DeletesAll then counts else CacheOf(cache, account)
  {
  }

  /** If the account was exact, every prefix of its steps leaves it exact. */
  lemma ExactStaysExact(counts: Cache, e: EmptyNotIn, s: State, account: int, f: Faults)
    requires Owned(counts, account) && CacheOf(s.cache, account) == counts
    ensures CacheOf(FourSteps(counts, e, s, account, f).0.cache, account) == counts
  {
    WrittenRows(counts, s.cache, account, e);
    assert counts + counts == counts;
  }

  /** If the steps set the flag, the account is exact unless its leftovers survived an empty list. */
  lemma FlaggedIsExactIff(counts: Cache, e: EmptyNotIn, s: State, account: int, f: Faults)
    requires Owned(counts, account)
    requires f(Count) == Committed && f(Write) == Committed && f(DropLeftovers) == Committed
    requires !(counts == map[] && e == Fails)
    ensures CacheOf(FourSteps(counts, e, s, account, f).0.cache, account) == counts <==>
            counts != map[] || e == DeletesAll || CacheOf(s.cache, account) == map[]
  {
    WrittenRows(counts, s.cache, account, e);
  }

  /** One account keeps safety under every fault if its empty case is handled. */
  lemma AccountKeepsSafe(c: Content, e: EmptyNotIn, s: State, account: int, f: Faults)
    requires Safe(c, s)
    requires account in s.valid ==> EmptyIsHandled(c, e, s.cache, account)
    ensures Safe(c, RefreshAccount(c, e, s, account, f).0)
  {
    var s' := RefreshAccount(c, e, s, account, f).0;
    var counts := Wanted(c, account);
    WantedIsOwn(c, account);
    forall a | a in s'.valid && s'.valid[a] ensures CacheOf(s'.cache, a) == Wanted(c, a) {
      if a != account {
        AccountFrame(c, e, s, account, f, a);
        assert Lookup(s'.valid, a) == Lookup(s.valid, a);
      } else if s.valid[a] {
        ExactStaysExact(counts, e, s, account, f);
      } else {
        FlaggedIsExactIff(counts, e, s, account, f);
      }
    }
  }

  /** A refresh of an account that reports success leaves exactly its counts iff the empty case is handled. */
  lemma SuccessfulRefreshIsExactIff(c: Content, e: EmptyNotIn, s: State, account: int, f: Faults)
    requires RefreshAccount(c, e, s, account, f).1
    ensures CacheOf(RefreshAccount(c, e, s, account, f).0.cache, account) == Wanted(c, account) <==>
            EmptyIsHandled(c, e, s.cache, account)
  {
    WantedIsOwn(c, account);
    FlaggedIsExactIff(Wanted(c, account), e, s, account, f);
  }

  lemma FlagStep(counts: Cache, e: EmptyNotIn, s: State, account: int, f: Faults)
    ensures var s' := FourSteps(counts, e, s, account, f).0;
            || s'.valid == s.valid
            || (&& account in s.valid && s'.valid == s.valid[account := true]
                && f(Count) == Committed && f(Write) == Committed && f(DropLeftovers) == Committed
                && TakesEffect(f(SetFlag)))
  {
  }

  /** A flag changes only from false to true, and only after the first three steps of its account were committed. */
  lemma FlagOnlyAfterThreeSteps(c: Content, e: EmptyNotIn, s: State, account: int, f: Faults, a: int)
    ensures var s' := RefreshAccount(c, e, s, account, f).0;
            && s'.valid.Keys == s.valid.Keys
            && (Lookup(s'.valid, a) != Lookup(s.valid, a) ==>
                  && a == account && !s.valid[a] && s'.valid[a]
                  && f(Count) == Committed && f(Write) == Committed && f(DropLeftovers) == Committed
                  && TakesEffect(f(SetFlag)))
  {
    FlagStep(Wanted(c, account), e, s, account, f);
  }

  lemma EmptyStaysHandled(c: Content, e: EmptyNotIn, s: State, account: int, f: Faults, a: int)
    requires EmptyIsHandled(c, e, s.cache, a)
    ensures EmptyIsHandled(c, e, RefreshAccount(c, e, s, account, f).0.cache, a)
  {
    if a != account {
      AccountFrame(c, e, s, account, f, a);
    } else {
      WantedIsOwn(c, account);
      WrittenRows(Wanted(c, account), s.cache, account, e);
    }
  }

  /** Safety over all runs: whatever fails in whichever account, a safe state stays safe. */
  lemma {:induction false} RunKeepsSafe(c: Content, e: EmptyNotIn, s: State, accs: seq<int>, faults: nat -> Faults)
    requires Safe(c, s)
    requires forall a | a in accs && a in s.valid :: EmptyIsHandled(c, e, s.cache, a)
    ensures var s' := RefreshAll(c, e, s, accs, faults).0;
            && Safe(c, s')
            && s'.valid.Keys == s.valid.Keys
            && forall a | EmptyIsHandled(c, e, s.cache, a) :: EmptyIsHandled(c, e, s'.cache, a)
    decreases |accs|
  {
    if accs != [] {
      var n := |accs| - 1;
      RunKeepsSafe(c, e, s, accs[..n], faults);
      var before := RefreshAll(c, e, s, accs[..n], faults).0;
      assert accs[n] in accs;
      AccountKeepsSafe(c, e, before, accs[n], faults(n));
      FlagOnlyAfterThreeSteps(c, e, before, accs[n], faults(n), accs[n]);
      forall a | EmptyIsHandled(c, e, s.cache, a)
        ensures EmptyIsHandled(c, e, RefreshAll(c, e, s, accs, faults).0.cache, a)
      {
        EmptyStaysHandled(c, e, before, accs[n], faults(n), a);
      }
    }
  }

  /** A run changes rows and flags of listed accounts only, and sets a flag only in a round that earned it. */
  lemma {:induction false} RunFrame(c: Content, e: EmptyNotIn, s: State, accs: seq<int>, faults: nat -> Faults,
                                    a: int)
    ensures var s' := RefreshAll(c, e, s, accs, faults).0;
            && (a !in accs ==> CacheOf(s'.cache, a) == CacheOf(s.cache, a) && Lookup(s'.valid, a) == Lookup(s.valid, a))
            && (Lookup(s'.valid, a) != Lookup(s.valid, a) ==>
                  && Lookup(s.valid, a) == Some(false) && Lookup(s'.valid, a) == Some(true)
                  && exists i :: && 0 <= i < |accs| && accs[i] == a
                                 && faults(i)(Count) == Committed && faults(i)(Write) == Committed
                                 && faults(i)(DropLeftovers) == Committed && TakesEffect(faults(i)(SetFlag)))
    decreases |accs|
  {
    if accs != [] {
      var n := |accs| - 1;
      RunFrame(c, e, s, accs[..n], faults, a);
      var before := RefreshAll(c, e, s, accs[..n], faults).0;
      FlagOnlyAfterThreeSteps(c, e, before, accs[n], faults(n), a);
      assert accs == accs[..n] + [accs[n]];
      if a != accs[n] {
        AccountFrame(c, e, before, accs[n], faults(n), a);
      }
    }
  }

  /** No fault anywhere. */
  ghost predicate AllCommitted(faults: nat -> Faults) {
    forall n: nat, step :: faults(n)(step) == Committed
  }

  lemma UnhandledEmptyRound(c: Content, e: EmptyNotIn, s: State, account: int, f: Faults, a: int)
    requires (forall step :: f(step) == Committed) && a in s.valid && !EmptyIsHandled(c, e, s.cache, a)
    ensures var s' := RefreshAccount(c, e, s, account, f).0;
            && s'.valid.Keys == s.valid.Keys
            && CacheOf(s'.cache, a) == CacheOf(s.cache, a)
            && s'.valid[a] == (s.valid[a] || a == account)
  {
    FlagOnlyAfterThreeSteps(c, e, s, account, f, a);
    if a != account {
      AccountFrame(c, e, s, account, f, a);
      assert Lookup(RefreshAccount(c, e, s, account, f).0.valid, a) == Lookup(s.valid, a);
    } else {
      WantedIsOwn(c, a);
      WrittenRows(Wanted(c, a), s.cache, a, e);
    }
  }

  /** An unhandled empty account is flagged by a run without faults, with its stale rows still cached. */
  lemma {:induction false} UnhandledEmptyIsFlagged(c: Content, e: EmptyNotIn, s: State, accs: seq<int>,
                                                   faults: nat -> Faults, a: int)
    requires AllCommitted(faults) && a in s.valid && !EmptyIsHandled(c, e, s.cache, a)
    ensures var s' := RefreshAll(c, e, s, accs, faults).0;
            && s'.valid.Keys == s.valid.Keys
            && CacheOf(s'.cache, a) == CacheOf(s.cache, a)
            && (a in accs ==> s'.valid[a])
    decreases |accs|
  {
    if accs != [] {
      var n := |accs| - 1;
      UnhandledEmptyIsFlagged(c, e, s, accs[..n], faults, a);
      var before := RefreshAll(c, e, s, accs[..n], faults).0;
      assert accs == accs[..n] + [accs[n]];
      UnhandledEmptyRound(c, e, before, accs[n], faults(n), a);
    }
  }

  function NoFaults(): nat -> Faults {
    _ => _ => Committed
  }

  lemma UnhandledEmptyBreaksSafety(c: Content, e: EmptyNotIn, s: State, accs: seq<int>, a: int)
    requires a in accs && a in s.valid && !EmptyIsHandled(c, e, s.cache, a)
    ensures !Safe(c, RefreshAll(c, e, s, accs, NoFaults()).0)
  {
    assert AllCommitted(NoFaults());
    UnhandledEmptyIsFlagged(c, e, s, accs, NoFaults(), a);
  }

  /** The boundary: every run from a safe state is safe iff every listed account has its empty case handled. */
  lemma AllRunsSafeIff(c: Content, e: EmptyNotIn, s: State, accs: seq<int>)
    requires Safe(c, s)
    ensures (forall faults: nat -> Faults :: Safe(c, RefreshAll(c, e, s, accs, faults).0)) <==>
            forall a | a in accs && a in s.valid :: EmptyIsHandled(c, e, s.cache, a)
  {
    if forall a | a in accs && a in s.valid :: EmptyIsHandled(c, e, s.cache, a) {
      forall faults: nat -> Faults ensures Safe(c, RefreshAll(c, e, s, accs, faults).0) {
        RunKeepsSafe(c, e, s, accs, faults);
      }
    } else {
      var a :| a in accs && a in s.valid && !EmptyIsHandled(c, e, s.cache, a);
      UnhandledEmptyBreaksSafety(c, e, s, accs, a);
    }
  }

  /** The failing run at a real input: an account that lost its last package keeps the old row and is flagged valid. */
  lemma LeftoverIsFlagged()
    ensures var c := Content(map[], map[], {1}, map[]);
            var s := State(map[AccKey(1, 5) := Counts(1, 0, 0)], map[1 := false]);
            && Safe(c, s)
            && !Safe(c, RefreshAll(c, DeletesNothing, s, [1], NoFaults()).0)
  {
    var c := Content(map[], map[], {1}, map[]);
    var s := State(map[AccKey(1, 5) := Counts(1, 0, 0)], map[1 := false]);
    assert Wanted(c, 1) == map[] by {
      assert FullJoin(c) == {};
      forall k ensures k !in Wanted(c, 1) {
        GroupedByAt(c, ActiveRows(c, Some(1), map[]), PackageOf, k);
      }
    }
    assert AccKey(1, 5) in CacheOf(s.cache, 1);
    UnhandledEmptyBreaksSafety(c, DeletesNothing, s, [1], 1);
  }

  // ----- What a run does, row by row and flag by flag -----

  /** The steps of a round, for one row of their account: the rows they write, the rows they delete, and the rest. */
  lemma RowAfterSteps(counts: Cache, e: EmptyNotIn, s: State, f: Faults, k: AccKey)
    ensures Lookup(FourSteps(counts, e, s, k.acc, f).0.cache, k) ==
            if k in counts
            then if f(Count) == Committed && f(Write) != RolledBack then Some(counts[k]) else Lookup(s.cache, k)
            else if && f(Count) == Committed && f(Write) == Committed && f(DropLeftovers) != RolledBack
                    && (counts != map[] || e == DeletesAll) then None
            else Lookup(s.cache, k)
  {
  }

  lemma RowOfCache(a: Cache, b: Cache, k: AccKey)
    requires CacheOf(a, k.acc) == CacheOf(b, k.acc)
    ensures Lookup(a, k) == Lookup(b, k)
  {
    assert Lookup(CacheOf(a, k.acc), k) == Lookup(a, k);
    assert Lookup(CacheOf(b, k.acc), k) == Lookup(b, k);
  }

  /** A round leaves the rows of other accounts, and its own as its steps leave them. */
  lemma RowAfterRound(c: Content, e: EmptyNotIn, s: State, account: int, f: Faults, k: AccKey)
    ensures Lookup(RefreshAccount(c, e, s, account, f).0.cache, k) ==
            if k.acc != account then Lookup(s.cache, k)
            else if k in Wanted(c, account)
            then if f(Count) == Committed && f(Write) != RolledBack then Some(Wanted(c, account)[k])
                 else Lookup(s.cache, k)
            else if && f(Count) == Committed && f(Write) == Committed && f(DropLeftovers) != RolledBack
                    && (Wanted(c, account) != map[] || e == DeletesAll) then None
            else Lookup(s.cache, k)
  {
    if k.acc == account {
      RowAfterSteps(Wanted(c, account), e, s, f, k);
    } else {
      AccountFrame(c, e, s, account, f, k.acc);
      RowOfCache(RefreshAccount(c, e, s, account, f).0.cache, s.cache, k);
    }
  }

  /** A round sets the flag of its account when it gets that far. */
  lemma FlagAfterRound(c: Content, e: EmptyNotIn, s: State, account: int, f: Faults, a: int)
    requires a in s.valid
    ensures Lookup(RefreshAccount(c, e, s, account, f).0.valid, a) ==
            if && a == account && f(Count) == Committed && f(Write) == Committed
               && f(DropLeftovers) == Committed && f(SetFlag) != RolledBack && (Wanted(c, a) != map[] || e != Fails)
            then Some(true) else Lookup(s.valid, a)
  {
  }

  /** The steps before `step` were committed and `step` took effect. */
  predicate GetsTo(f: Faults, step: Step) {
    match step
    case Count => TakesEffect(f(Count))
    case Write => f(Count) == Committed && TakesEffect(f(Write))
    case DropLeftovers => f(Count) == Committed && f(Write) == Committed && TakesEffect(f(DropLeftovers))
    case SetFlag =>
      && f(Count) == Committed && f(Write) == Committed && f(DropLeftovers) == Committed
      && TakesEffect(f(SetFlag))
  }

  predicate SomeRoundGetsTo(accs: seq<int>, faults: nat -> Faults, a: int, step: Step) {
    && accs != []
    && var n := |accs| - 1;
       SomeRoundGetsTo(accs[..n], faults, a, step) || (accs[n] == a && GetsTo(faults(n), step))
  }

  lemma {:induction false} SomeRoundIff(accs: seq<int>, faults: nat -> Faults, a: int, step: Step)
    ensures SomeRoundGetsTo(accs, faults, a, step) <==>
            exists i :: 0 <= i < |accs| && accs[i] == a && GetsTo(faults(i), step)
    decreases |accs|
  {
    if accs != [] {
      SomeRoundIff(accs[..|accs| - 1], faults, a, step);
      assert accs == accs[..|accs| - 1] + [accs[|accs| - 1]];
    }
  }

  lemma {:induction false} CountedRow(c: Content, e: EmptyNotIn, s: State, accs: seq<int>, faults: nat -> Faults,
                                      k: AccKey)
    requires k in Wanted(c, k.acc)
    ensures Lookup(RefreshAll(c, e, s, accs, faults).0.cache, k) ==
            if SomeRoundGetsTo(accs, faults, k.acc, Write) then Some(Wanted(c, k.acc)[k]) else Lookup(s.cache, k)
    decreases |accs|
  {
    if accs != [] {
      var n := |accs| - 1;
      CountedRow(c, e, s, accs[..n], faults, k);
      RowAfterRound(c, e, RefreshAll(c, e, s, accs[..n], faults).0, accs[n], faults(n), k);
    }
  }

  lemma {:induction false} LeftoverRow(c: Content, e: EmptyNotIn, s: State, accs: seq<int>, faults: nat -> Faults,
                                       k: AccKey)
    requires k !in Wanted(c, k.acc)
    ensures Lookup(RefreshAll(c, e, s, accs, faults).0.cache, k) ==
            if (Wanted(c, k.acc) != map[] || e == DeletesAll) && SomeRoundGetsTo(accs, faults, k.acc, DropLeftovers)
            then None else Lookup(s.cache, k)
    decreases |accs|
  {
    if accs != [] {
      var n := |accs| - 1;
      LeftoverRow(c, e, s, accs[..n], faults, k);
      RowAfterRound(c, e, RefreshAll(c, e, s, accs[..n], faults).0, accs[n], faults(n), k);
    }
  }

  lemma {:induction false} FlagOf(c: Content, e: EmptyNotIn, s: State, accs: seq<int>, faults: nat -> Faults, a: int)
    requires a in s.valid
    ensures Lookup(RefreshAll(c, e, s, accs, faults).0.valid, a) ==
            if (Wanted(c, a) != map[] || e != Fails) && SomeRoundGetsTo(accs, faults, a, SetFlag)
            then Some(true) else Lookup(s.valid, a)
    decreases |accs|
  {
    if accs != [] {
      var n := |accs| - 1;
      FlagOf(c, e, s, accs[..n], faults, a);
      FlagAfterRound(c, e, RefreshAll(c, e, s, accs[..n], faults).0, accs[n], faults(n), a);
    }
  }

  /** A counted row has its counts as soon as one round for its account counted and wrote, whatever else fails. */
  lemma CountedRowAfterRun(c: Content, e: EmptyNotIn, s: State, accs: seq<int>, faults: nat -> Faults, k: AccKey)
    requires k in Wanted(c, k.acc)
    ensures Lookup(RefreshAll(c, e, s, accs, faults).0.cache, k) ==
            if exists i :: && 0 <= i < |accs| && accs[i] == k.acc
                           && faults(i)(Count) == Committed && faults(i)(Write) != RolledBack
            then Some(Wanted(c, k.acc)[k]) else Lookup(s.cache, k)
  {
    CountedRow(c, e, s, accs, faults, k);
    SomeRoundIff(accs, faults, k.acc, Write);
  }

  /** A row without counts goes as soon as one round for its account got as far as deleting, and never otherwise. */
  lemma LeftoverAfterRun(c: Content, e: EmptyNotIn, s: State, accs: seq<int>, faults: nat -> Faults, k: AccKey)
    requires k !in Wanted(c, k.acc)
    ensures Lookup(RefreshAll(c, e, s, accs, faults).0.cache, k) ==
            if && (Wanted(c, k.acc) != map[] || e == DeletesAll)
               && exists i :: && 0 <= i < |accs| && accs[i] == k.acc
                              && faults(i)(Count) == Committed && faults(i)(Write) == Committed
                              && faults(i)(DropLeftovers) != RolledBack
            then None else Lookup(s.cache, k)
  {
    LeftoverRow(c, e, s, accs, faults, k);
    SomeRoundIff(accs, faults, k.acc, DropLeftovers);
  }

  /** A flag is set by the rounds for its account that got as far as setting it. */
  lemma FlagAfterRun(c: Content, e: EmptyNotIn, s: State, accs: seq<int>, faults: nat -> Faults, a: int)
    requires a in s.valid
    ensures Lookup(RefreshAll(c, e, s, accs, faults).0.valid, a) ==
            if && (Wanted(c, a) != map[] || e != Fails)
               && exists i :: && 0 <= i < |accs| && accs[i] == a
                              && faults(i)(Count) == Committed && faults(i)(Write) == Committed
                              && faults(i)(DropLeftovers) == Committed && faults(i)(SetFlag) != RolledBack
            then Some(true) else Lookup(s.valid, a)
  {
    FlagOf(c, e, s, accs, faults, a);
    SomeRoundIff(accs, faults, a, SetFlag);
  }

  /**
   One round whose four steps commit decides its account, whatever becomes of every other round: the
   account ends up flagged iff it was, or it has counts, or an empty list is not refused; and it ends
   up exact iff it has counts, or an empty list deletes all, or it had no rows.
   */
  lemma CommittedRound(c: Content, e: EmptyNotIn, s: State, accs: seq<int>, faults: nat -> Faults, i: nat)
    requires i < |accs| && accs[i] in s.valid
    requires forall step :: faults(i)(step) == Committed
    ensures var s' := RefreshAll(c, e, s, accs, faults).0;
            var a := accs[i];
            && a in s'.valid
            && (s'.valid[a] <==> s.valid[a] || Wanted(c, a) != map[] || e != Fails)
            && ((forall k: AccKey | k.acc == a :: Lookup(s'.cache, k) == Lookup(Wanted(c, a), k)) <==>
                Wanted(c, a) != map[] || e == DeletesAll || forall k: AccKey | k.acc == a :: k !in s.cache)
  {
    var s' := RefreshAll(c, e, s, accs, faults).0;
    var a := accs[i];
    FlagAfterRun(c, e, s, accs, faults, a);
    forall k: AccKey | k.acc == a
      ensures Lookup(s'.cache, k) ==
              if k in Wanted(c, a) then Some(Wanted(c, a)[k])
              else if Wanted(c, a) != map[] || e == DeletesAll then None
              else Lookup(s.cache, k)
    {
      if k in Wanted(c, a) {
        CountedRowAfterRun(c, e, s, accs, faults, k);
      } else {
        LeftoverAfterRun(c, e, s, accs, faults, k);
      }
    }
    if k :| k in s.cache && k.acc == a {
      assert Lookup(s.cache, k) != None;
    }
  }

  /**
   A run reports success iff it had no account, or its last round committed all steps and no empty
   list was refused.
   */
  lemma RunSucceedsIff(c: Content, e: EmptyNotIn, s: State, accs: seq<int>, faults: nat -> Faults)
    ensures RefreshAll(c, e, s, accs, faults).1 <==>
            || accs == []
            || var f := faults(|accs| - 1);
               && f(Count) == Committed && f(Write) == Committed
               && f(DropLeftovers) == Committed && f(SetFlag) == Committed
               && (Wanted(c, accs[|accs| - 1]) != map[] || e != Fails)
  {
  }

  /**
   Two accounts with counts of which only the second is counted: the second is refreshed and the run
   reports success.
   */
  lemma FailedCountSkipsOneAccount(c: Content, e: EmptyNotIn, s: State, a: int, b: int, faults: nat -> Faults)
    requires a != b && b in s.valid && Wanted(c, b) != map[]
    requires faults(0)(Count) == RolledBack && forall step :: faults(1)(step) == Committed
    ensures var (s', succeeded) := RefreshAll(c, e, s, [a, b], faults);
            && succeeded && b in s'.valid && s'.valid[b]
            && (forall k: AccKey | k.acc == b :: Lookup(s'.cache, k) == Lookup(Wanted(c, b), k))
            && (forall k: AccKey | k.acc == a :: Lookup(s'.cache, k) == Lookup(s.cache, k))
  {
    CommittedRound(c, e, s, [a, b], faults, 1);
    RunSucceedsIff(c, e, s, [a, b], faults);
    assert forall i | 0 <= i < 2 && [a, b][i] == a :: i == 0;
    forall k: AccKey | k.acc == a
      ensures Lookup(RefreshAll(c, e, s, [a, b], faults).0.cache, k) == Lookup(s.cache, k)
    {
      if k in Wanted(c, a) {
        CountedRowAfterRun(c, e, s, [a, b], faults, k);
      } else {
        LeftoverAfterRun(c, e, s, [a, b], faults, k);
      }
    }
  }

  // ----- Runs without faults -----

  /** Whether a round without faults gets to set the flag. */
  predicate GetsFlagged(c: Content, e: EmptyNotIn, account: int) {
    Wanted(c, account) != map[] || e != Fails
  }

  /** Whether a round without faults leaves exactly the counts of the account. */
  predicate GetsExact(c: Content, e: EmptyNotIn, cache: Cache, account: int) {
    Wanted(c, account) != map[] || e == DeletesAll || CacheOf(cache, account) == map[]
  }

  lemma FaultlessRound(c: Content, e: EmptyNotIn, s: State, account: int, f: Faults)
    requires (forall step :: f(step) == Committed) && account in s.valid
    ensures var s' := RefreshAccount(c, e, s, account, f).0;
            && account in s'.valid && (s'.valid[account] <==> s.valid[account] || GetsFlagged(c, e, account))
            && (CacheOf(s'.cache, account) == Wanted(c, account) <==> GetsExact(c, e, s.cache, account))
            && (GetsExact(c, e, s'.cache, account) <==> GetsExact(c, e, s.cache, account))
  {
    WantedIsOwn(c, account);
    WrittenRows(Wanted(c, account), s.cache, account, e);
  }

  /**
   What a run without faults achieves: a listed account ends up flagged iff it was, or it has
   counts, or an empty list is not refused; and it ends up exact iff it has counts, or an empty
   list deletes all, or it had no rows.
   */
  lemma {:induction false} FaultlessRun(c: Content, e: EmptyNotIn, s: State, accs: seq<int>, faults: nat -> Faults,
                                        a: int)
    requires AllCommitted(faults) && a in s.valid && a in accs
    ensures var s' := RefreshAll(c, e, s, accs, faults).0;
            && a in s'.valid && (s'.valid[a] <==> s.valid[a] || GetsFlagged(c, e, a))
            && (CacheOf(s'.cache, a) == Wanted(c, a) <==> GetsExact(c, e, s.cache, a))
            && (GetsExact(c, e, s'.cache, a) <==> GetsExact(c, e, s.cache, a))
    decreases |accs|
  {
    var n := |accs| - 1;
    var before := RefreshAll(c, e, s, accs[..n], faults).0;
    assert accs == accs[..n] + [accs[n]];
    if a in accs[..n] {
      FaultlessRun(c, e, s, accs[..n], faults, a);
    } else {
      RunFrame(c, e, s, accs[..n], faults, a);
      assert Lookup(before.valid, a) == Lookup(s.valid, a);
    }
    if a == accs[n] {
      FaultlessRound(c, e, before, a, faults(n));
    } else {
      AccountFrame(c, e, before, accs[n], faults(n), a);
      assert Lookup(RefreshAll(c, e, s, accs, faults).0.valid, a) == Lookup(before.valid, a);
    }
  }

  /** Flagged and exact: for an account that was not flagged, iff the empty case is handled and not refused. */
  lemma FaultlessRunSucceedsIff(c: Content, e: EmptyNotIn, s: State, accs: seq<int>, faults: nat -> Faults, a: int)
    requires AllCommitted(faults) && a in s.valid && !s.valid[a] && a in accs
    ensures var s' := RefreshAll(c, e, s, accs, faults).0;
            (a in s'.valid && s'.valid[a] && CacheOf(s'.cache, a) == Wanted(c, a)) <==>
            EmptyIsHandled(c, e, s.cache, a) && GetsFlagged(c, e, a)
  {
    FaultlessRun(c, e, s, accs, faults, a);
  }
}

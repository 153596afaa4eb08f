/**
 The grouped package counts: one query of the refresh and six query forms of the server, each
 as a join of tables followed by GROUP BY rh_account_id, name_id.
 */
module PackageQueries {
  import opened Common
  import opened Keys
  import opened Sums
  import opened Tables

  /** system_package.name_id and update_data: NULL, or a JSON array of updates of which only `status` is read. */
  datatype PackageRow = PackageRow(nameId: int, updateData: Option<seq<string>>)

  /** The tables the queries join; `hosts` is inventory.hosts with its `groups` column. */
  datatype Content = Content(
    systems: SystemTable,
    packages: map<LinkKey, PackageRow>,
    accounts: set<int>,
    hosts: map<string, Option<seq<string>>>)

  /** FOREIGN KEY (rh_account_id) of system_platform. */
  ghost predicate AccountsLinked(c: Content) {
    forall s | s in c.systems :: s.acc in c.accounts
  }

  /** update_status */
  function UpdateStatus(updateData: Option<seq<string>>): string {
    if updateData.None? || |updateData.value| == 0 then "None"
    else if exists i | 0 <= i < |updateData.value| :: updateData.value[i] == "Installable" then "Installable"
    else "Applicable"
  }

  datatype Counts = Counts(installed: int, installable: int, applicable: int)

  /** The three aggregates: count(*), and two with a FILTER. */
  datatype Column = Installed | Installable | Applicable

  predicate Passes(status: string, col: Column) {
    match col
    case Installed => true
    case Installable => status == "Installable"
    case Applicable => status != "None"
  }

  /** Whether the joined row of package `l` is counted in column `col` of group `k`. */
  predicate Selects(c: Content, l: LinkKey, k: AccKey, col: Column) {
    && l in c.packages
    && AccKey(l.acc, c.packages[l].nameId) == k
    && Passes(UpdateStatus(c.packages[l].updateData), col)
  }

  function Group<T>(c: Content, rows: set<T>, pkg: T -> LinkKey, k: AccKey, col: Column): set<T> {
    set r | r in rows && Selects(c, pkg(r), k, col)
  }

  /** GROUP BY over any set of joined rows; `pkg` is the system_package row inside a joined row. */
  function GroupedBy<T>(c: Content, rows: set<T>, pkg: T -> LinkKey): map<AccKey, Counts> {
    map k | k in (set r | r in rows && pkg(r) in c.packages :: AccKey(pkg(r).acc, c.packages[pkg(r)].nameId)) ::
      Counts(|Group(c, rows, pkg, k, Installed)|,
             |Group(c, rows, pkg, k, Installable)|,
             |Group(c, rows, pkg, k, Applicable)|)
  }

  lemma GroupedByAt<T>(c: Content, rows: set<T>, pkg: T -> LinkKey, k: AccKey)
    ensures k in GroupedBy(c, rows, pkg) <==> Group(c, rows, pkg, k, Installed) != {}
  {
    if k in GroupedBy(c, rows, pkg) {
      var r :| r in rows && pkg(r) in c.packages && AccKey(pkg(r).acc, c.packages[pkg(r)].nameId) == k;
      assert r in Group(c, rows, pkg, k, Installed);
    }
    if r :| r in Group(c, rows, pkg, k, Installed) {
      assert r in rows && pkg(r) in c.packages && AccKey(pkg(r).acc, c.packages[pkg(r)].nameId) == k;
    }
  }

  // ----- The joins -----

  /** system_platform JOIN system_package JOIN rh_account JOIN inventory.hosts */
  datatype Joined = Joined(sp: AccKey, spkg: LinkKey, account: int, ih: string)

  function FullJoin(c: Content): set<Joined> {
    set sp, spkg, account, ih |
      && sp in c.systems && spkg in c.packages && account in c.accounts && ih in c.hosts
      && sp.id == spkg.system && sp.acc == spkg.acc && sp.acc == account && c.systems[sp].inventoryId == ih
      :: Joined(sp, spkg, account, ih)
  }

  /** The CTE of packagesByHostIDsCTE leaves rh_account out. */
  datatype CteRow = CteRow(sp: AccKey, spkg: LinkKey, ih: string)

  function CteJoin(c: Content): set<CteRow> {
    set sp, spkg, ih |
      && sp in c.systems && spkg in c.packages && ih in c.hosts
      && sp.id == spkg.system && sp.acc == spkg.acc && c.systems[sp].inventoryId == ih
      :: CteRow(sp, spkg, ih)
  }

  function PackageOf(j: Joined): LinkKey { j.spkg }

  function CtePackageOf(r: CteRow): LinkKey { r.spkg }

  function ListedPackageOf(p: (Joined, int)): LinkKey { p.0.spkg }

  function RowOf(p: (Joined, int)): Joined { p.0 }

  // ----- The WHERE clauses -----

  function HostRows(c: Content, hostIds: set<string>): set<Joined> {
    set j | j in FullJoin(c) && j.ih in hostIds
  }

  function CteRows(c: Content, hostIds: set<string>): set<CteRow> {
    set r | r in CteJoin(c) && r.ih in hostIds
  }

  function AccountHostRows(c: Content, account: int, hostIds: set<string>): set<Joined> {
    set j | j in FullJoin(c) && j.sp.acc == account && j.ih in hostIds
  }

  /** `ih.groups = '[]'`, which NULL does not satisfy. */
  function UngroupedRows(c: Content, account: int): set<Joined> {
    set j | j in FullJoin(c) && c.hosts[j.ih] == Some([]) && j.sp.acc == account
  }

  /** The systems with packages that are not stale, of one account or of all with an invalid cache. */
  function ActiveRows(c: Content, account: Option<int>, valid: map<int, bool>): set<Joined> {
    set j | && j in FullJoin(c)
            && c.systems[j.sp].packagesInstalled > 0 && !c.systems[j.sp].stale
            && (if account.Some? then j.sp.acc == account.value
                else j.account in valid && !valid[j.account])
  }

  // ----- The queries -----

  function PackagesByHostIDs(c: Content, account: int, hostIds: set<string>): map<AccKey, Counts> {
    GroupedBy(c, AccountHostRows(c, account, hostIds), PackageOf)
  }

  function PackagesByAccount(c: Content, account: int): map<AccKey, Counts> {
    GroupedBy(c, UngroupedRows(c, account), PackageOf)
  }

  function PackagesByHostIDsCTE(c: Content, hostIds: set<string>): map<AccKey, Counts> {
    GroupedBy(c, CteRows(c, hostIds), CtePackageOf)
  }

  /** A join with a table of host ids that has no key: a row meets every copy of its host. */
  function Copies(base: set<Joined>, table: multiset<string>): set<(Joined, int)> {
    set j, n | j in base && 0 <= n < table[j.ih] :: (j, n)
  }

  function TempTableQuery(c: Content, table: multiset<string>): map<AccKey, Counts> {
    GroupedBy(c, Copies(FullJoin(c), table), ListedPackageOf)
  }

  /** A join with `unnest` of an array: a row meets every position that holds its host. */
  function Listings(base: set<Joined>, hostIds: seq<string>): set<(Joined, int)> {
    set j, i | j in base && 0 <= i < |hostIds| && hostIds[i] == j.ih :: (j, i)
  }

  /** packagesByHostCTEinsteadOfTempTable */
  function PackagesByUnnest(c: Content, hostIds: seq<string>): map<AccKey, Counts> {
    GroupedBy(c, Listings(FullJoin(c), hostIds), ListedPackageOf)
  }

  function PackagesByHostIDsNoCounts(c: Content, hostIds: set<string>): set<AccKey> {
    set j | j in FullJoin(c) && j.ih in hostIds && PackageOf(j) in c.packages
      :: AccKey(j.sp.acc, c.packages[j.spkg].nameId)
  }

  /** The query of getCounts. */
  function GetCounts(c: Content, account: Option<int>, valid: map<int, bool>): map<AccKey, Counts> {
    GroupedBy(c, ActiveRows(c, account, valid), PackageOf)
  }

  /**
   packagesByHostIDsTempTable: `fails` says which of its steps report an error. They are the begin
   of the transaction, CREATE, one INSERT for each host, the query, DROP and the commit.
   */
  method PackagesByHostIDsTempTable(c: Content, hostIds: seq<string>, fails: nat -> bool)
    returns (r: Result<map<AccKey, Counts>, nat>)
    ensures r.Ok? <==> forall n: nat | n < |hostIds| + 5 :: !fails(n)
    ensures r.Ok? ==> r.value == TempTableQuery(c, multiset(hostIds))
    ensures r.Err? ==> r.error < |hostIds| + 5 && fails(r.error) && forall n: nat | n < r.error :: !fails(n)
  {
    if fails(0) {
      return Err(0);
    }
    if fails(1) {
      return Err(1);
    }
    var table := multiset{};
    for i := 0 to |hostIds|
      invariant table == multiset(hostIds[..i])
      invariant forall n: nat | n <= i + 1 :: !fails(n)
    {
      if fails(i + 2) {
        return Err(i + 2);
      }
      table := table + multiset{hostIds[i]};
      assert hostIds[..i + 1] == hostIds[..i] + [hostIds[i]];
    }
    assert hostIds[..|hostIds|] == hostIds;
    if fails(|hostIds| + 2) {
      return Err(|hostIds| + 2);
    }
    var rows := TempTableQuery(c, table);
    if fails(|hostIds| + 3) {
      return Err(|hostIds| + 3);
    }
    if fails(|hostIds| + 4) {
      return Err(|hostIds| + 4);
    }
    return Ok(rows);
  }

  // ----- Agreement -----

  lemma SelectionsMatch<T, U>(c: Content, a: set<T>, f: T -> LinkKey, b: set<U>, g: U -> LinkKey, to: T -> U,
                              k: AccKey, col: Column)
    requires forall x | x in a :: to(x) in b && g(to(x)) == f(x)
    requires forall x, y | x in a && y in a && to(x) == to(y) :: x == y
    requires forall z | z in b :: exists x :: x in a && to(x) == z
    ensures |Group(c, a, f, k, col)| == |Group(c, b, g, k, col)|
  {
    forall z | z in Group(c, b, g, k, col) ensures exists x :: x in Group(c, a, f, k, col) && to(x) == z {
      var x :| x in a && to(x) == z;
      assert x in Group(c, a, f, k, col);
    }
    Bijection(Group(c, a, f, k, col), Group(c, b, g, k, col), to);
  }

  /** Two joins whose rows correspond one to one, package by package, have the same groups and counts. */
  lemma SameGroups<T, U>(c: Content, a: set<T>, f: T -> LinkKey, b: set<U>, g: U -> LinkKey, to: T -> U)
    requires forall x | x in a :: to(x) in b && g(to(x)) == f(x)
    requires forall x, y | x in a && y in a && to(x) == to(y) :: x == y
    requires forall z | z in b :: exists x :: x in a && to(x) == z
    ensures GroupedBy(c, a, f) == GroupedBy(c, b, g)
  {
    var p, q := GroupedBy(c, a, f), GroupedBy(c, b, g);
    forall k ensures (k in p <==> k in q) && (k in p ==> p[k] == q[k]) {
      GroupedByAt(c, a, f, k);
      GroupedByAt(c, b, g, k);
      SelectionsMatch(c, a, f, b, g, to, k, Installed);
      SelectionsMatch(c, a, f, b, g, to, k, Installable);
      SelectionsMatch(c, a, f, b, g, to, k, Applicable);
    }
  }

  function DropAccount(j: Joined): CteRow { CteRow(j.sp, j.spkg, j.ih) }

  /** The CTE form is the full join without the account filter; the missing rh_account join needs the foreign key. */
  lemma CteIsFullJoin(c: Content, hostIds: set<string>)
    requires AccountsLinked(c)
    ensures PackagesByHostIDsCTE(c, hostIds) ==
            GroupedBy(c, HostRows(c, hostIds), PackageOf)
  {
    var a := HostRows(c, hostIds);
    var b := CteRows(c, hostIds);
    forall r | r in b ensures exists j :: j in a && DropAccount(j) == r {
      var j := Joined(r.sp, r.spkg, r.sp.acc, r.ih);
      assert j in FullJoin(c) && DropAccount(j) == r;
    }
    SameGroups(c, a, PackageOf, b, CtePackageOf, DropAccount);
  }

  /** A filter on the account selects whole groups. */
  lemma AccountFilterSelectsGroups(c: Content, all: set<Joined>, mine: set<Joined>, account: int)
    requires forall j | j in all :: j.sp.acc == j.spkg.acc
    requires mine == set j | j in all && j.sp.acc == account
    ensures GroupedBy(c, mine, PackageOf) ==
            map k | k in GroupedBy(c, all, PackageOf) && k.acc == account :: GroupedBy(c, all, PackageOf)[k]
  {
    var p, q := GroupedBy(c, mine, PackageOf), GroupedBy(c, all, PackageOf);
    forall k ensures (k in p <==> k in q && k.acc == account) && (k in p ==> p[k] == q[k]) {
      GroupedByAt(c, mine, PackageOf, k);
      GroupedByAt(c, all, PackageOf, k);
      forall col ensures Group(c, mine, PackageOf, k, col) ==
                         if k.acc == account then Group(c, all, PackageOf, k, col) else {}
      {
      }
    }
  }

  /** packagesByHostIDs is the CTE result restricted to the account. */
  lemma HostIDsIsCteRestricted(c: Content, account: int, hostIds: set<string>)
    requires AccountsLinked(c)
    ensures var cte := PackagesByHostIDsCTE(c, hostIds);
            PackagesByHostIDs(c, account, hostIds) == map k | k in cte && k.acc == account :: cte[k]
  {
    CteIsFullJoin(c, hostIds);
    assert forall j | j in HostRows(c, hostIds) :: j.sp.acc == j.spkg.acc;
    assert AccountHostRows(c, account, hostIds) == set j | j in HostRows(c, hostIds) && j.sp.acc == account;
    AccountFilterSelectsGroups(c, HostRows(c, hostIds), AccountHostRows(c, account, hostIds), account);
  }

  /** The form without counts is the key projection of the CTE form. */
  lemma NoCountsIsKeyProjection(c: Content, hostIds: set<string>)
    requires AccountsLinked(c)
    ensures PackagesByHostIDsNoCounts(c, hostIds) == PackagesByHostIDsCTE(c, hostIds).Keys
  {
    CteIsFullJoin(c, hostIds);
    var all := HostRows(c, hostIds);
    forall k ensures k in PackagesByHostIDsNoCounts(c, hostIds) <==> k in PackagesByHostIDsCTE(c, hostIds) {
      GroupedByAt(c, all, PackageOf, k);
      if k in PackagesByHostIDsNoCounts(c, hostIds) {
        var j :| j in all && AccKey(j.sp.acc, c.packages[j.spkg].nameId) == k;
        assert j in Group(c, all, PackageOf, k, Installed);
      }
      if j :| j in Group(c, all, PackageOf, k, Installed) {
        assert AccKey(j.sp.acc, c.packages[j.spkg].nameId) == k;
      }
    }
  }

  // ----- Multiplicity -----

  /** Each joined row weighted by how often its host is listed. */
  ghost function Weights(rows: set<Joined>, table: multiset<string>): map<Joined, int> {
    map j | j in rows :: table[j.ih]
  }

  function Numbered(j: Joined, n: nat): set<(Joined, int)> {
    set i | 0 <= i < n :: (j, i)
  }

  lemma {:induction false} NumberedSize(j: Joined, n: nat)
    ensures |Numbered(j, n)| == n
  {
    if n > 0 {
      NumberedSize(j, n - 1);
      assert Numbered(j, n) == Numbered(j, n - 1) + {(j, n - 1)};
    } else {
      assert Numbered(j, n) == {};
    }
  }

  function PositionsIn(j: Joined, hostIds: seq<string>): set<(Joined, int)> {
    set i | 0 <= i < |hostIds| && hostIds[i] == j.ih :: (j, i)
  }

  lemma {:induction false} PositionsSize(j: Joined, hostIds: seq<string>)
    ensures |PositionsIn(j, hostIds)| == multiset(hostIds)[j.ih]
    decreases |hostIds|
  {
    if hostIds == [] {
      assert PositionsIn(j, hostIds) == {};
    } else {
      var n := |hostIds| - 1;
      var init := hostIds[..n];
      PositionsSize(j, init);
      assert hostIds == init + [hostIds[n]];
      assert PositionsIn(j, hostIds) == PositionsIn(j, init) + if hostIds[n] == j.ih then {(j, n)} else {};
    }
  }

  lemma {:induction false} CopiesWeigh(rows: set<Joined>, table: multiset<string>)
    ensures |Copies(rows, table)| == Sum(Weights(rows, table))
    decreases |rows|
  {
    if rows == {} {
      assert Copies(rows, table) == {};
      assert Weights(rows, table) == map[];
    } else {
      var j :| j in rows;
      var rest := rows - {j};
      var own := Numbered(j, table[j.ih]);
      NumberedSize(j, table[j.ih]);
      CopiesWeigh(rest, table);
      assert Copies(rows, table) == Copies(rest, table) + own;
      assert Copies(rest, table) !! own;
      SumRemove(Weights(rows, table), j);
      assert Weights(rows, table) - {j} == Weights(rest, table);
    }
  }

  lemma {:induction false} ListingsWeigh(rows: set<Joined>, hostIds: seq<string>)
    ensures |Listings(rows, hostIds)| == Sum(Weights(rows, multiset(hostIds)))
    decreases |rows|
  {
    var table := multiset(hostIds);
    if rows == {} {
      assert Listings(rows, hostIds) == {};
      assert Weights(rows, table) == map[];
    } else {
      var j :| j in rows;
      var rest := rows - {j};
      var own := PositionsIn(j, hostIds);
      PositionsSize(j, hostIds);
      ListingsWeigh(rest, hostIds);
      assert Listings(rows, hostIds) == Listings(rest, hostIds) + own;
      assert Listings(rest, hostIds) !! own;
      SumRemove(Weights(rows, table), j);
      assert Weights(rows, table) - {j} == Weights(rest, table);
    }
  }

  /** Both joins multiply the rows of a group by the multiplicity of their hosts. */
  lemma GroupsWeigh(c: Content, base: set<Joined>, hostIds: seq<string>, k: AccKey, col: Column)
    ensures var w := Sum(Weights(Group(c, base, PackageOf, k, col), multiset(hostIds)));
            && |Group(c, Copies(base, multiset(hostIds)), ListedPackageOf, k, col)| == w
            && |Group(c, Listings(base, hostIds), ListedPackageOf, k, col)| == w
  {
    var rows := Group(c, base, PackageOf, k, col);
    CopiesWeigh(rows, multiset(hostIds));
    ListingsWeigh(rows, hostIds);
    assert Group(c, Copies(base, multiset(hostIds)), ListedPackageOf, k, col) == Copies(rows, multiset(hostIds));
    assert Group(c, Listings(base, hostIds), ListedPackageOf, k, col) == Listings(rows, hostIds);
  }

  ghost function WeightedCounts(c: Content, base: set<Joined>, table: multiset<string>, k: AccKey): Counts {
    Counts(Sum(Weights(Group(c, base, PackageOf, k, Installed), table)),
           Sum(Weights(Group(c, base, PackageOf, k, Installable), table)),
           Sum(Weights(Group(c, base, PackageOf, k, Applicable), table)))
  }

  lemma CopiesAreListings(c: Content, base: set<Joined>, hostIds: seq<string>, k: AccKey)
    ensures var p := GroupedBy(c, Copies(base, multiset(hostIds)), ListedPackageOf);
            var q := GroupedBy(c, Listings(base, hostIds), ListedPackageOf);
            && Lookup(p, k) == Lookup(q, k)
            && (k in q ==> q[k] == WeightedCounts(c, base, multiset(hostIds), k))
  {
    var copies, listings := Copies(base, multiset(hostIds)), Listings(base, hostIds);
    GroupedByAt(c, copies, ListedPackageOf, k);
    GroupedByAt(c, listings, ListedPackageOf, k);
    GroupsWeigh(c, base, hostIds, k, Installed);
    GroupsWeigh(c, base, hostIds, k, Installable);
    GroupsWeigh(c, base, hostIds, k, Applicable);
    NonEmptySizes(Group(c, copies, ListedPackageOf, k, Installed), Group(c, listings, ListedPackageOf, k, Installed));
  }

  /** The temp-table and unnest forms agree on every list, and weight each host by its multiplicity. */
  lemma TempTableIsUnnest(c: Content, hostIds: seq<string>)
    ensures TempTableQuery(c, multiset(hostIds)) == PackagesByUnnest(c, hostIds)
    ensures forall k | k in PackagesByUnnest(c, hostIds) ::
              PackagesByUnnest(c, hostIds)[k] == WeightedCounts(c, FullJoin(c), multiset(hostIds), k)
  {
    forall k
      ensures Lookup(TempTableQuery(c, multiset(hostIds)), k) == Lookup(PackagesByUnnest(c, hostIds), k)
      ensures k in PackagesByUnnest(c, hostIds) ==>
                PackagesByUnnest(c, hostIds)[k] == WeightedCounts(c, FullJoin(c), multiset(hostIds), k)
    {
      CopiesAreListings(c, FullJoin(c), hostIds, k);
    }
    SameMap(TempTableQuery(c, multiset(hostIds)), PackagesByUnnest(c, hostIds));
  }

  lemma NonEmptySizes<T>(a: set<T>, b: set<T>)
    requires |a| == |b|
    ensures a == {} <==> b == {}
  {
  }

  /** No host that the join finds is listed twice. */
  ghost predicate ListedOnce(c: Content, hostIds: seq<string>) {
    forall j, h, i | j in FullJoin(c) && 0 <= h < i < |hostIds| && hostIds[h] == j.ih :: hostIds[i] != j.ih
  }

  lemma ListingsCoverHosts(c: Content, hostIds: seq<string>, j: Joined)
    requires j in HostRows(c, set id | id in hostIds)
    ensures exists p :: p in Listings(FullJoin(c), hostIds) && RowOf(p) == j
  {
    var i :| 0 <= i < |hostIds| && hostIds[i] == j.ih;
    assert (j, i) in Listings(FullJoin(c), hostIds) && RowOf((j, i)) == j;
  }

  /** A host listed twice is counted twice. */
  lemma RepeatIsCounted(c: Content, hostIds: seq<string>, j: Joined, h: int, i: int)
    requires j in FullJoin(c) && 0 <= h < i < |hostIds| && hostIds[h] == j.ih == hostIds[i]
    ensures var k := AccKey(j.spkg.acc, c.packages[j.spkg].nameId);
            |Group(c, HostRows(c, set id | id in hostIds), PackageOf, k, Installed)| <
            |Group(c, Listings(FullJoin(c), hostIds), ListedPackageOf, k, Installed)|
  {
    var k := AccKey(j.spkg.acc, c.packages[j.spkg].nameId);
    var a := Group(c, Listings(FullJoin(c), hostIds), ListedPackageOf, k, Installed);
    var b := Group(c, HostRows(c, set id | id in hostIds), PackageOf, k, Installed);
    assert (j, h) in a && (j, i) in a;
    forall q | q in b ensures exists p :: p in a - {(j, i)} && RowOf(p) == q {
      ListingsCoverHosts(c, hostIds, q);
      var p :| p in Listings(FullJoin(c), hostIds) && RowOf(p) == q;
      var r := if q == j then (j, h) else p;
      assert r in a - {(j, i)} && RowOf(r) == q;
    }
    Surjection(a - {(j, i)}, b, RowOf);
  }

  /** The unnest form is the CTE form iff no joined host is listed twice; a list without repetitions is such a list. */
  lemma UnnestIsCteIff(c: Content, hostIds: seq<string>)
    requires AccountsLinked(c)
    ensures PackagesByUnnest(c, hostIds) == PackagesByHostIDsCTE(c, set id | id in hostIds) <==> ListedOnce(c, hostIds)
  {
    var ids := set id | id in hostIds;
    CteIsFullJoin(c, ids);
    var a, b := Listings(FullJoin(c), hostIds), HostRows(c, ids);
    if ListedOnce(c, hostIds) {
      forall j | j in b ensures exists p :: p in a && RowOf(p) == j { ListingsCoverHosts(c, hostIds, j); }
      SameGroups(c, a, ListedPackageOf, b, PackageOf, RowOf);
    } else {
      var j, h, i :| j in FullJoin(c) && 0 <= h < i < |hostIds| && hostIds[h] == j.ih && hostIds[i] == j.ih;
      var k := AccKey(j.spkg.acc, c.packages[j.spkg].nameId);
      RepeatIsCounted(c, hostIds, j, h, i);
      GroupedByAt(c, a, ListedPackageOf, k);
      GroupedByAt(c, b, PackageOf, k);
      assert Lookup(PackagesByUnnest(c, hostIds), k) != Lookup(GroupedBy(c, b, PackageOf), k);
    }
  }

  /** One system with one package on one host. */
  function SingleHost(row: System, groups: Option<seq<string>>): Content {
    Content(map[AccKey(1, 1) := row], map[LinkKey(1, 1, 5) := PackageRow(9, None)], {1}, map[row.inventoryId := groups])
  }

  lemma SingleHostJoins(row: System, groups: Option<seq<string>>)
    ensures Joined(AccKey(1, 1), LinkKey(1, 1, 5), 1, row.inventoryId) in FullJoin(SingleHost(row, groups))
  {
  }

  /** The forms differ at a real input: its only host is listed twice. */
  lemma RepeatedHostDiffers(row: System, groups: Option<seq<string>>)
    ensures var c := SingleHost(row, groups);
            var hostIds := [row.inventoryId, row.inventoryId];
            AccountsLinked(c) && PackagesByUnnest(c, hostIds) != PackagesByHostIDsCTE(c, set id | id in hostIds)
  {
    var c := SingleHost(row, groups);
    var hostIds := [row.inventoryId, row.inventoryId];
    SingleHostJoins(row, groups);
    var j := Joined(AccKey(1, 1), LinkKey(1, 1, 5), 1, row.inventoryId);
    assert j in FullJoin(c) && hostIds[0] == j.ih && hostIds[1] == j.ih;
    UnnestIsCteIff(c, hostIds);
  }

  // ----- The refresh query -----

  /** The inventory ids of the systems of an account that the refresh counts. */
  function ActiveHosts(c: Content, account: int): set<string> {
    set s | s in c.systems && s.acc == account && c.systems[s].packagesInstalled > 0 && !c.systems[s].stale
      :: c.systems[s].inventoryId
  }

  /** getCounts for one account is packagesByHostIDs on its active hosts: an inventory id names one system there. */
  lemma RefreshCountsAreHostCounts(c: Content, account: int, valid: map<int, bool>)
    requires InventoryUnique(c.systems)
    ensures GetCounts(c, Some(account), valid) == PackagesByHostIDs(c, account, ActiveHosts(c, account))
  {
    var a := ActiveRows(c, Some(account), valid);
    var b := AccountHostRows(c, account, ActiveHosts(c, account));
    assert a == b by {
      forall j | j in b ensures j in a {
        var s :| s in c.systems && s.acc == account && c.systems[s].packagesInstalled > 0 &&
                 !c.systems[s].stale && c.systems[s].inventoryId == j.ih;
        assert s == j.sp;
      }
    }
  }

  /** In every group of every form: 0 <= installable <= applicable <= installed, and some row is there. */
  lemma CountsAreOrdered<T>(c: Content, rows: set<T>, pkg: T -> LinkKey, k: AccKey)
    requires k in GroupedBy(c, rows, pkg)
    ensures var n := GroupedBy(c, rows, pkg)[k];
            0 <= n.installable <= n.applicable <= n.installed && n.installed > 0
  {
    GroupedByAt(c, rows, pkg, k);
    SubsetSize(Group(c, rows, pkg, k, Installable), Group(c, rows, pkg, k, Applicable));
    SubsetSize(Group(c, rows, pkg, k, Applicable), Group(c, rows, pkg, k, Installed));
  }

  lemma MissingRowIsCounted(c: Content, rows: set<Joined>, all: set<Joined>, j: Joined)
    requires rows <= all && all <= FullJoin(c) && j in all && j !in rows
    ensures var k := AccKey(j.spkg.acc, c.packages[j.spkg].nameId);
            |Group(c, rows, PackageOf, k, Installed)| < |Group(c, all, PackageOf, k, Installed)|
  {
    var k := AccKey(j.spkg.acc, c.packages[j.spkg].nameId);
    assert j in Group(c, all, PackageOf, k, Installed) && j !in Group(c, rows, PackageOf, k, Installed);
    SubsetSize(Group(c, rows, PackageOf, k, Installed), Group(c, all, PackageOf, k, Installed));
  }

  /** Grouping fewer rows gives the same groups and counts only if no row is missing. */
  lemma SameGroupsIffSameRows(c: Content, rows: set<Joined>, all: set<Joined>)
    requires rows <= all && all <= FullJoin(c)
    ensures GroupedBy(c, rows, PackageOf) == GroupedBy(c, all, PackageOf) <==> rows == all
  {
    if j :| j in all && j !in rows {
      var k := AccKey(j.spkg.acc, c.packages[j.spkg].nameId);
      MissingRowIsCounted(c, rows, all, j);
      GroupedByAt(c, rows, PackageOf, k);
      GroupedByAt(c, all, PackageOf, k);
      assert Lookup(GroupedBy(c, rows, PackageOf), k) != Lookup(GroupedBy(c, all, PackageOf), k);
    }
  }
}

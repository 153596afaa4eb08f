/** The grouped package queries as statements about stored rows: which rows each of the three counts counts. */
module PackageAnswers {
  import opened Common
  import opened Keys
  import opened Sums
  import opened PackageQueries

  /** Counting the selected joined rows is counting the package rows in them: a package row is joined at most once. */
  lemma SelectedRows(c: Content, rows: set<Joined>, k: AccKey, col: Column, links: set<LinkKey>)
    requires rows <= FullJoin(c)
    requires forall j | j in rows && Selects(c, j.spkg, k, col) :: j.spkg in links
    requires forall l | l in links ::
               && Selects(c, l, k, col) && SystemOf(l) in c.systems
               && Joined(SystemOf(l), l, l.acc, c.systems[SystemOf(l)].inventoryId) in rows
    ensures |Group(c, rows, PackageOf, k, col)| == |links|
  {
    var group := Group(c, rows, PackageOf, k, col);
    forall l | l in links ensures exists j :: j in group && PackageOf(j) == l {
      var j := Joined(SystemOf(l), l, l.acc, c.systems[SystemOf(l)].inventoryId);
      assert j in group && PackageOf(j) == l;
    }
    Bijection(group, links, PackageOf);
  }

  /** What the status of a package row says about its list of updates. */
  lemma StatusOfUpdates(updates: Option<seq<string>>)
    ensures Passes(UpdateStatus(updates), Installed)
    ensures Passes(UpdateStatus(updates), Installable) <==>
            updates.Some? && exists i :: 0 <= i < |updates.value| && updates.value[i] == "Installable"
    ensures Passes(UpdateStatus(updates), Applicable) <==> updates.Some? && updates.value != []
  {
    if updates.Some? && exists i :: 0 <= i < |updates.value| && updates.value[i] == "Installable" {
      assert UpdateStatus(updates) == "Installable";
    }
    assert "Installable" != "None" && "Applicable" != "None" && "Installable" != "Applicable" by {
      assert |"None"| == 4 && |"Installable"| == 11 && |"Applicable"| == 10;
    }
  }

  lemma SelectedPackages(c: Content, k: AccKey)
    ensures forall l | l in c.packages ::
              && (Selects(c, l, k, Installed) <==> AccKey(l.acc, c.packages[l].nameId) == k)
              && (Selects(c, l, k, Installable) <==>
                  && AccKey(l.acc, c.packages[l].nameId) == k && c.packages[l].updateData.Some?
                  && exists i :: && 0 <= i < |c.packages[l].updateData.value|
                                 && c.packages[l].updateData.value[i] == "Installable")
              && (Selects(c, l, k, Applicable) <==>
                  && AccKey(l.acc, c.packages[l].nameId) == k && c.packages[l].updateData.Some?
                  && c.packages[l].updateData.value != [])
  {
    forall l | l in c.packages {
      StatusOfUpdates(c.packages[l].updateData);
    }
  }

  /** The answer for one key, given the package rows that belong to it. */
  lemma RowsOfLinks(c: Content, rows: set<Joined>, k: AccKey, installed: set<LinkKey>)
    requires rows <= FullJoin(c)
    requires forall j | j in rows && j.spkg in c.packages && AccKey(j.spkg.acc, c.packages[j.spkg].nameId) == k ::
               j.spkg in installed
    requires forall l | l in installed ::
               && l in c.packages && AccKey(l.acc, c.packages[l].nameId) == k && SystemOf(l) in c.systems
               && Joined(SystemOf(l), l, l.acc, c.systems[SystemOf(l)].inventoryId) in rows
    ensures var answer := GroupedBy(c, rows, PackageOf);
            var installable := set l | && l in installed && c.packages[l].updateData.Some?
                                       && exists i :: && 0 <= i < |c.packages[l].updateData.value|
                                                      && c.packages[l].updateData.value[i] == "Installable";
            var applicable := set l | && l in installed && c.packages[l].updateData.Some?
                                      && c.packages[l].updateData.value != [];
            && (k in answer <==> installed != {})
            && (k in answer ==> answer[k] == Counts(|installed|, |installable|, |applicable|))
  {
    var installable := set l | && l in installed && c.packages[l].updateData.Some?
                               && exists i :: && 0 <= i < |c.packages[l].updateData.value|
                                              && c.packages[l].updateData.value[i] == "Installable";
    var applicable := set l | && l in installed && c.packages[l].updateData.Some?
                              && c.packages[l].updateData.value != [];
    SelectedPackages(c, k);
    SelectedRows(c, rows, k, Installed, installed);
    SelectedRows(c, rows, k, Installable, installable);
    SelectedRows(c, rows, k, Applicable, applicable);
    GroupedByAt(c, rows, PackageOf, k);
  }

  /**
   packagesByHostIDs on the tables: a package name is answered iff some package row of the account
   with that name belongs to a system on one of the hosts. Installed counts those rows, installable
   those with an installable update, applicable those with any update.
   */
  lemma HostAnswer(c: Content, account: int, hostIds: set<string>, name: int)
    ensures var answer := PackagesByHostIDs(c, account, hostIds);
            var installed := set l | && l in c.packages && c.packages[l].nameId == name
                                     && l.acc == account && account in c.accounts
                                     && AccKey(l.acc, l.system) in c.systems
                                     && c.systems[AccKey(l.acc, l.system)].inventoryId in c.hosts
                                     && c.systems[AccKey(l.acc, l.system)].inventoryId in hostIds;
            var installable := set l | && l in installed && c.packages[l].updateData.Some?
                                       && exists i :: && 0 <= i < |c.packages[l].updateData.value|
                                                      && c.packages[l].updateData.value[i] == "Installable";
            var applicable := set l | && l in installed && c.packages[l].updateData.Some?
                                      && c.packages[l].updateData.value != [];
            && (AccKey(account, name) in answer <==> installed != {})
            && (AccKey(account, name) in answer ==>
                  answer[AccKey(account, name)] == Counts(|installed|, |installable|, |applicable|))
            && forall k | k in answer :: k.acc == account
  {
    var rows, k := AccountHostRows(c, account, hostIds), AccKey(account, name);
    var installed := set l | && l in c.packages && c.packages[l].nameId == name
                             && l.acc == account && account in c.accounts
                             && AccKey(l.acc, l.system) in c.systems
                             && c.systems[AccKey(l.acc, l.system)].inventoryId in c.hosts
                             && c.systems[AccKey(l.acc, l.system)].inventoryId in hostIds;
    RowsOfLinks(c, rows, k, installed);
    forall k' | k' in PackagesByHostIDs(c, account, hostIds) ensures k'.acc == account {
      GroupedByAt(c, rows, PackageOf, k');
    }
  }

  /**
   packagesByAccount on the tables: as for a host list, with the hosts whose `groups` is an empty
   list.
   */
  lemma AccountAnswer(c: Content, account: int, name: int)
    ensures var answer := PackagesByAccount(c, account);
            var installed := set l | && l in c.packages && c.packages[l].nameId == name
                                     && l.acc == account && account in c.accounts
                                     && AccKey(l.acc, l.system) in c.systems
                                     && c.systems[AccKey(l.acc, l.system)].inventoryId in c.hosts
                                     && c.hosts[c.systems[AccKey(l.acc, l.system)].inventoryId] == Some([]);
            var installable := set l | && l in installed && c.packages[l].updateData.Some?
                                       && exists i :: && 0 <= i < |c.packages[l].updateData.value|
                                                      && c.packages[l].updateData.value[i] == "Installable";
            var applicable := set l | && l in installed && c.packages[l].updateData.Some?
                                      && c.packages[l].updateData.value != [];
            && (AccKey(account, name) in answer <==> installed != {})
            && (AccKey(account, name) in answer ==>
                  answer[AccKey(account, name)] == Counts(|installed|, |installable|, |applicable|))
            && forall k | k in answer :: k.acc == account
  {
    var rows := UngroupedRows(c, account);
    var installed := set l | && l in c.packages && c.packages[l].nameId == name
                             && l.acc == account && account in c.accounts
                             && AccKey(l.acc, l.system) in c.systems
                             && c.systems[AccKey(l.acc, l.system)].inventoryId in c.hosts
                             && c.hosts[c.systems[AccKey(l.acc, l.system)].inventoryId] == Some([]);
    RowsOfLinks(c, rows, AccKey(account, name), installed);
    forall k | k in PackagesByAccount(c, account) ensures k.acc == account {
      GroupedByAt(c, rows, PackageOf, k);
    }
  }

  /**
   getCounts on the tables: the package rows of systems that are not stale and have packages, of one
   account, or of all accounts whose cache is not valid.
   */
  lemma RefreshAnswer(c: Content, only: Option<int>, valid: map<int, bool>, account: int, name: int)
    ensures var answer := GetCounts(c, only, valid);
            var installed := set l | && l in c.packages && c.packages[l].nameId == name
                                     && l.acc == account && account in c.accounts
                                     && AccKey(l.acc, l.system) in c.systems
                                     && c.systems[AccKey(l.acc, l.system)].inventoryId in c.hosts
                                     && c.systems[AccKey(l.acc, l.system)].packagesInstalled > 0
                                     && !c.systems[AccKey(l.acc, l.system)].stale
                                     && (if only.Some? then account == only.value
                                         else account in valid && !valid[account]);
            var installable := set l | && l in installed && c.packages[l].updateData.Some?
                                       && exists i :: && 0 <= i < |c.packages[l].updateData.value|
                                                      && c.packages[l].updateData.value[i] == "Installable";
            var applicable := set l | && l in installed && c.packages[l].updateData.Some?
                                      && c.packages[l].updateData.value != [];
            && (AccKey(account, name) in answer <==> installed != {})
            && (AccKey(account, name) in answer ==>
                  answer[AccKey(account, name)] == Counts(|installed|, |installable|, |applicable|))
  {
    var rows := ActiveRows(c, only, valid);
    var installed := set l | && l in c.packages && c.packages[l].nameId == name
                             && l.acc == account && account in c.accounts
                             && AccKey(l.acc, l.system) in c.systems
                             && c.systems[AccKey(l.acc, l.system)].inventoryId in c.hosts
                             && c.systems[AccKey(l.acc, l.system)].packagesInstalled > 0
                             && !c.systems[AccKey(l.acc, l.system)].stale
                             && (if only.Some? then account == only.value else account in valid && !valid[account]);
    RowsOfLinks(c, rows, AccKey(account, name), installed);
  }

  // ----- The other forms of the host query -----

  /** The same tables with an rh_account row for every account that has a system. */
  function AccountsAdded(c: Content): Content {
    c.(accounts := set s | s in c.systems :: s.acc)
  }

  /** The CTE form does not read rh_account. */
  lemma CteIgnoresAccounts(c: Content, hostIds: set<string>)
    ensures PackagesByHostIDsCTE(c, hostIds) ==
            GroupedBy(AccountsAdded(c), HostRows(AccountsAdded(c), hostIds), PackageOf)
  {
    var c' := AccountsAdded(c);
    CteIsFullJoin(c', hostIds);
    var p, q := PackagesByHostIDsCTE(c, hostIds), PackagesByHostIDsCTE(c', hostIds);
    assert CteRows(c, hostIds) == CteRows(c', hostIds);
    forall k, col
      ensures Group(c, CteRows(c, hostIds), CtePackageOf, k, col) ==
              Group(c', CteRows(c', hostIds), CtePackageOf, k, col)
    {
      forall l ensures Selects(c, l, k, col) == Selects(c', l, k, col) {
      }
    }
    forall k ensures Lookup(p, k) == Lookup(q, k) {
      GroupedByAt(c, CteRows(c, hostIds), CtePackageOf, k);
      GroupedByAt(c', CteRows(c', hostIds), CtePackageOf, k);
    }
    SameMap(p, q);
  }

  /** packagesByHostIDsCTE on the tables: the same for every account, whether or not rh_account has it. */
  lemma CteAnswer(c: Content, hostIds: set<string>, k: AccKey)
    ensures var answer := PackagesByHostIDsCTE(c, hostIds);
            var installed := set l | && l in c.packages && c.packages[l].nameId == k.id && l.acc == k.acc
                                     && AccKey(l.acc, l.system) in c.systems
                                     && c.systems[AccKey(l.acc, l.system)].inventoryId in c.hosts
                                     && c.systems[AccKey(l.acc, l.system)].inventoryId in hostIds;
            var installable := set l | && l in installed && c.packages[l].updateData.Some?
                                       && exists i :: && 0 <= i < |c.packages[l].updateData.value|
                                                      && c.packages[l].updateData.value[i] == "Installable";
            var applicable := set l | && l in installed && c.packages[l].updateData.Some?
                                      && c.packages[l].updateData.value != [];
            && (k in answer <==> installed != {})
            && (k in answer ==> answer[k] == Counts(|installed|, |installable|, |applicable|))
  {
    var c' := AccountsAdded(c);
    var installed := set l | && l in c.packages && c.packages[l].nameId == k.id && l.acc == k.acc
                             && AccKey(l.acc, l.system) in c.systems
                             && c.systems[AccKey(l.acc, l.system)].inventoryId in c.hosts
                             && c.systems[AccKey(l.acc, l.system)].inventoryId in hostIds;
    CteIgnoresAccounts(c, hostIds);
    RowsOfLinks(c', HostRows(c', hostIds), k, installed);
  }

  /** packagesByHostIDsNoCounts on the tables: the names with a package row on one of the hosts, in known accounts. */
  lemma NamesAnswer(c: Content, hostIds: set<string>, k: AccKey)
    ensures k in PackagesByHostIDsNoCounts(c, hostIds) <==>
            exists l :: && l in c.packages && c.packages[l].nameId == k.id && l.acc == k.acc && k.acc in c.accounts
                        && AccKey(l.acc, l.system) in c.systems
                        && c.systems[AccKey(l.acc, l.system)].inventoryId in c.hosts
                        && c.systems[AccKey(l.acc, l.system)].inventoryId in hostIds
  {
    if l :| && l in c.packages && c.packages[l].nameId == k.id && l.acc == k.acc && k.acc in c.accounts
            && AccKey(l.acc, l.system) in c.systems
            && c.systems[AccKey(l.acc, l.system)].inventoryId in c.hosts
            && c.systems[AccKey(l.acc, l.system)].inventoryId in hostIds {
      var j := Joined(SystemOf(l), l, l.acc, c.systems[SystemOf(l)].inventoryId);
      assert j in FullJoin(c) && AccKey(j.sp.acc, c.packages[j.spkg].nameId) == k;
    }
  }

  function ListedPackage(p: (Joined, int)): (LinkKey, int) { (p.0.spkg, p.1) }

  lemma ListedRows(c: Content, hostIds: seq<string>, k: AccKey, col: Column, pairs: set<(LinkKey, int)>)
    requires forall p | p in Listings(FullJoin(c), hostIds) && Selects(c, p.0.spkg, k, col) :: ListedPackage(p) in pairs
    requires forall q | q in pairs ::
               && Selects(c, q.0, k, col) && SystemOf(q.0) in c.systems
               && (Joined(SystemOf(q.0), q.0, q.0.acc, c.systems[SystemOf(q.0)].inventoryId), q.1) in
                  Listings(FullJoin(c), hostIds)
    ensures |Group(c, Listings(FullJoin(c), hostIds), ListedPackageOf, k, col)| == |pairs|
  {
    var group := Group(c, Listings(FullJoin(c), hostIds), ListedPackageOf, k, col);
    forall q | q in pairs ensures exists p :: p in group && ListedPackage(p) == q {
      var p := (Joined(SystemOf(q.0), q.0, q.0.acc, c.systems[SystemOf(q.0)].inventoryId), q.1);
      assert p in group && ListedPackage(p) == q;
    }
    Bijection(group, pairs, ListedPackage);
  }

  /** `pairs` are the package rows of group `k` with the positions of their hosts in the list. */
  ghost predicate AreListed(c: Content, hostIds: seq<string>, k: AccKey, pairs: set<(LinkKey, int)>) {
    && (forall p | p in Listings(FullJoin(c), hostIds) && Selects(c, p.0.spkg, k, Installed) ::
          ListedPackage(p) in pairs)
    && (forall q | q in pairs ::
          && Selects(c, q.0, k, Installed) && SystemOf(q.0) in c.systems
          && (Joined(SystemOf(q.0), q.0, q.0.acc, c.systems[SystemOf(q.0)].inventoryId), q.1) in
             Listings(FullJoin(c), hostIds))
  }

  lemma RowsOfListings(c: Content, hostIds: seq<string>, k: AccKey, installed: set<(LinkKey, int)>)
    requires AreListed(c, hostIds, k, installed)
    ensures var answer := PackagesByUnnest(c, hostIds);
            var installable := set q | && q in installed && c.packages[q.0].updateData.Some?
                                       && exists i :: && 0 <= i < |c.packages[q.0].updateData.value|
                                                      && c.packages[q.0].updateData.value[i] == "Installable";
            var applicable := set q | && q in installed && c.packages[q.0].updateData.Some?
                                      && c.packages[q.0].updateData.value != [];
            && (k in answer <==> installed != {})
            && (k in answer ==> answer[k] == Counts(|installed|, |installable|, |applicable|))
  {
    var installable := set q | && q in installed && c.packages[q.0].updateData.Some?
                               && exists i :: && 0 <= i < |c.packages[q.0].updateData.value|
                                              && c.packages[q.0].updateData.value[i] == "Installable";
    var applicable := set q | && q in installed && c.packages[q.0].updateData.Some?
                              && c.packages[q.0].updateData.value != [];
    SelectedPackages(c, k);
    ListedRows(c, hostIds, k, Installed, installed);
    ListedRows(c, hostIds, k, Installable, installable);
    ListedRows(c, hostIds, k, Applicable, applicable);
    GroupedByAt(c, Listings(FullJoin(c), hostIds), ListedPackageOf, k);
  }

  /**
   packagesByHostCTEinsteadOfTempTable on the tables: every count counts a package row once for each
   position of the list that names its host.
   */
  lemma UnnestAnswer(c: Content, hostIds: seq<string>, k: AccKey)
    ensures var answer := PackagesByUnnest(c, hostIds);
            var installed := set l, i | && l in c.packages && c.packages[l].nameId == k.id
                                        && l.acc == k.acc && k.acc in c.accounts
                                        && AccKey(l.acc, l.system) in c.systems
                                        && c.systems[AccKey(l.acc, l.system)].inventoryId in c.hosts
                                        && 0 <= i < |hostIds|
                                        && c.systems[AccKey(l.acc, l.system)].inventoryId == hostIds[i] :: (l, i);
            var installable := set q | && q in installed && c.packages[q.0].updateData.Some?
                                       && exists i :: && 0 <= i < |c.packages[q.0].updateData.value|
                                                      && c.packages[q.0].updateData.value[i] == "Installable";
            var applicable := set q | && q in installed && c.packages[q.0].updateData.Some?
                                      && c.packages[q.0].updateData.value != [];
            && (k in answer <==> installed != {})
            && (k in answer ==> answer[k] == Counts(|installed|, |installable|, |applicable|))
  {
    var installed := set l, i | && l in c.packages && c.packages[l].nameId == k.id
                                && l.acc == k.acc && k.acc in c.accounts
                                && AccKey(l.acc, l.system) in c.systems
                                && c.systems[AccKey(l.acc, l.system)].inventoryId in c.hosts
                                && 0 <= i < |hostIds|
                                && c.systems[AccKey(l.acc, l.system)].inventoryId == hostIds[i] :: (l, i);
    SelectedPackages(c, k);
    assert AreListed(c, hostIds, k, installed);
    RowsOfListings(c, hostIds, k, installed);
  }
}

/** What MoveSystems does to the exact advisory counts, and what a refresh of both accounts then restores. */
module MoveCounts {
  import opened Common
  import opened Keys
  import opened Sums
  import opened Tables
  import opened AdvisoryCache
  import opened AdvisoryRuns
  import opened MoveTables

  lemma CountedMoves(systems: SystemTable, from: int, to: int)
    requires NoKeyCollision(systems.Keys, from, to)
    ensures Counted(MovedRows(systems, from, to)) == MovedKeys(Counted(systems), from, to)
  {
  }

  /** System `s` lists advisory `item`, with the given status if one is given. */
  ghost predicate Lists(sa: AdvisoryTable, s: AccKey, item: int, status: Option<int>) {
    var l := LinkKey(s.acc, s.id, item);
    l in sa && (status.Some? ==> sa[l] == status.value)
  }

  ghost function Listing(sa: AdvisoryTable, counted: set<AccKey>, k: AccKey, status: Option<int>): set<AccKey> {
    set s | s in counted && s.acc == k.acc && Lists(sa, s, k.id, status)
  }

  lemma ListingIsAffected(sa: AdvisoryTable, counted: set<AccKey>, k: AccKey)
    ensures Listing(sa, counted, k, None) == Affected(sa, counted, k)
    ensures Listing(sa, counted, k, Some(INSTALLABLE_STATUS)) == AffectedInstallable(sa, counted, k)
  {
  }

  /** What the move needs of the two tables that are counted. */
  ghost predicate Movable(sa: AdvisoryTable, ks: set<AccKey>, from: int, to: int) {
    from != to && NoLinkCollision(sa.Keys, from, to) && NoKeyCollision(ks, from, to) && LinksInto(sa.Keys, ks)
  }

  /** After the move the systems that list an advisory are those of both accounts, under `to`. */
  lemma MovedListing(sa: AdvisoryTable, ks: set<AccKey>, counted: set<AccKey>, from: int, to: int, k: AccKey,
                     status: Option<int>)
    requires Movable(sa, ks, from, to) && counted <= ks
    ensures Listing(MovedLinkRows(sa, from, to), MovedKeys(counted, from, to), k, status) ==
            if k.acc == from then {}
            else if k.acc == to then
              MovedKeys(Listing(sa, counted, AccKey(from, k.id), status) + Listing(sa, counted, k, status), from, to)
            else Listing(sa, counted, k, status)
  {
  }

  lemma MovedKeysSize(ks: set<AccKey>, from: int, to: int)
    requires NoKeyCollision(ks, from, to)
    ensures |MovedKeys(ks, from, to)| == |ks|
  {
    Bijection(ks, MovedKeys(ks, from, to), (k: AccKey) => MoveKey(k, from, to));
  }

  /** The move adds the counts of `from` to those of `to` and leaves the other accounts alone. */
  lemma MovedCount(sa: AdvisoryTable, ks: set<AccKey>, counted: set<AccKey>, from: int, to: int, k: AccKey,
                   status: Option<int>)
    requires Movable(sa, ks, from, to) && counted <= ks
    ensures |Listing(MovedLinkRows(sa, from, to), MovedKeys(counted, from, to), k, status)| ==
            if k.acc == from then 0
            else if k.acc == to then
              |Listing(sa, counted, AccKey(from, k.id), status)| + |Listing(sa, counted, k, status)|
            else |Listing(sa, counted, k, status)|
  {
    MovedListing(sa, ks, counted, from, to, k, status);
    if k.acc == to {
      var a, b := Listing(sa, counted, AccKey(from, k.id), status), Listing(sa, counted, k, status);
      assert a !! b;
      MovedKeysSize(a + b, from, to);
    }
  }

  // ----- The triggers of the move -----

  /**
   The cache after the row triggers of `UPDATE system_platform` in the move. `fired` are the systems
   whose triggers fire, in their order: a row that goes to another partition fires none.
   */
  function AfterMoveTriggers(cache: Cache, c: Content, from: int, to: int, fired: seq<AccKey>): Cache
    requires NoCollisions(c, from, to)
    requires forall s | s in fired :: s in c.systems
  {
    if fired == [] then cache
    else
      var s := fired[|fired| - 1];
      var m := Moved(c, from, to);
      MovedRowAt(c.systems, from, to, s);
      AfterUpdate(AfterMoveTriggers(cache, c, from, to, fired[..|fired| - 1]), m.advisories, MoveKey(s, from, to),
                  c.systems[s], m.systems[MoveKey(s, from, to)])
  }

  /** A move changes no `stale` flag, so its triggers leave the cache as it was. */
  lemma {:induction false} MoveTriggersChangeNothing(cache: Cache, c: Content, from: int, to: int, fired: seq<AccKey>)
    requires NoCollisions(c, from, to)
    requires forall s | s in fired :: s in c.systems
    ensures AfterMoveTriggers(cache, c, from, to, fired) == cache
    decreases |fired|
  {
    if fired != [] {
      var s := fired[|fired| - 1];
      MoveTriggersChangeNothing(cache, c, from, to, fired[..|fired| - 1]);
      MovedRowAt(c.systems, from, to, s);
      NoChangeIsIdentity(cache, Moved(c, from, to).advisories, MoveKey(s, from, to));
    }
  }

  // ----- Refreshing after the move -----

  ghost function Applicable(cache: Cache, k: AccKey): int {
    if k in cache then cache[k].applicable else 0
  }

  ghost function Installable(cache: Cache, k: AccKey): int {
    if k in cache then cache[k].installable else 0
  }

  lemma ExactCounts(cache: Cache, sa: AdvisoryTable, counted: set<AccKey>, k: AccKey)
    requires Exact(cache, sa, counted)
    ensures Applicable(cache, k) == |Listing(sa, counted, k, None)|
    ensures Installable(cache, k) == |Listing(sa, counted, k, Some(INSTALLABLE_STATUS))|
    ensures k in cache <==> Applicable(cache, k) > 0
  {
    assert ExactAt(cache, sa, counted, k);
    ListingIsAffected(sa, counted, k);
    InstallableAmongAffected(sa, counted, k);
  }

  ghost predicate MovableContent(c: Content, from: int, to: int) {
    from != to && NoCollisions(c, from, to) && LinksInto(c.advisories.Keys, c.systems.Keys)
  }

  /** The cache after the two calls refresh_advisory_caches(NULL, from) and refresh_advisory_caches(NULL, to). */
  function RefreshedBoth(cache: Cache, c: Content, from: int, to: int): Cache {
    Refreshed(Refreshed(cache, c.advisories, Counted(c.systems), Scope(None, Some(from))),
              c.advisories, Counted(c.systems), Scope(None, Some(to)))
  }

  /**
   A move, with its triggers, and a refresh of both accounts conserve the counts, and the cache is
   exact again: the old account keeps no row, the new one has a row where one of the two had one, with
   the sums of their counts, and the other accounts keep theirs.
   */
  lemma MoveThenRefresh(c: Content, cache: Cache, from: int, to: int, fired: seq<AccKey>)
    requires MovableContent(c, from, to) && Exact(cache, c.advisories, Counted(c.systems))
    requires forall s | s in fired :: s in c.systems
    ensures var m := Moved(c, from, to);
            var cache' := RefreshedBoth(AfterMoveTriggers(cache, c, from, to, fired), m, from, to);
            && Exact(cache', m.advisories, Counted(m.systems))
            && (forall k: AccKey | k.acc != from && k.acc != to :: Lookup(cache', k) == Lookup(cache, k))
            && (forall k: AccKey | k.acc == from :: k !in cache')
            && forall k: AccKey | k.acc == to ::
                 var j := AccKey(from, k.id);
                 && (k in cache' <==> j in cache || k in cache)
                 && (k in cache' ==>
                       && cache'[k].applicable == (if j in cache then cache[j].applicable else 0)
                                                  + (if k in cache then cache[k].applicable else 0)
                       && cache'[k].installable == (if j in cache then cache[j].installable else 0)
                                                   + (if k in cache then cache[k].installable else 0))
  {
    MoveTriggersChangeNothing(cache, c, from, to, fired);
    var cache' := RefreshedBoth(cache, Moved(c, from, to), from, to);
    BothRefreshesMakeExact(c, cache, from, to);
    forall k: AccKey
      ensures k.acc != from && k.acc != to ==> Lookup(cache', k) == Lookup(cache, k)
      ensures k.acc == from ==> k !in cache'
      ensures k.acc == to ==>
                && Applicable(cache', k) == Applicable(cache, AccKey(from, k.id)) + Applicable(cache, k)
                && Installable(cache', k) == Installable(cache, AccKey(from, k.id)) + Installable(cache, k)
                && (k in cache' <==> AccKey(from, k.id) in cache || k in cache)
    {
      RefreshedBothAt(c, cache, from, to, k);
      CountsAfterMove(c, cache, cache', from, to, k);
    }
  }

  lemma BothRefreshesMakeExact(c: Content, cache: Cache, from: int, to: int)
    requires MovableContent(c, from, to) && Exact(cache, c.advisories, Counted(c.systems))
    ensures var m := Moved(c, from, to);
            Exact(RefreshedBoth(cache, m, from, to), m.advisories, Counted(m.systems))
  {
    var m := Moved(c, from, to);
    forall k ensures ExactAt(RefreshedBoth(cache, m, from, to), m.advisories, Counted(m.systems), k) {
      RefreshedBothAt(c, cache, from, to, k);
    }
  }

  lemma RefreshedBothAt(c: Content, cache: Cache, from: int, to: int, k: AccKey)
    requires MovableContent(c, from, to) && Exact(cache, c.advisories, Counted(c.systems))
    ensures var m := Moved(c, from, to);
            var cache' := RefreshedBoth(cache, m, from, to);
            && ExactAt(cache', m.advisories, Counted(m.systems), k)
            && (k.acc != from && k.acc != to ==> Lookup(cache', k) == Lookup(cache, k))
  {
    var m := Moved(c, from, to);
    var counted := Counted(m.systems);
    var cache1 := Refreshed(cache, m.advisories, counted, Scope(None, Some(from)));
    RefreshMakesScopeExact(cache, m.advisories, counted, Scope(None, Some(from)), k);
    RefreshMakesScopeExact(cache1, m.advisories, counted, Scope(None, Some(to)), k);
    if k.acc != from && k.acc != to {
      OtherAccountsStayExact(c, cache, from, to, k);
    }
  }

  lemma OtherAccountsStayExact(c: Content, cache: Cache, from: int, to: int, k: AccKey)
    requires MovableContent(c, from, to) && Exact(cache, c.advisories, Counted(c.systems))
    requires k.acc != from && k.acc != to
    ensures ExactAt(cache, Moved(c, from, to).advisories, Counted(Moved(c, from, to).systems), k)
  {
    var counted := Counted(c.systems);
    CountedMoves(c.systems, from, to);
    MovedListing(c.advisories, c.systems.Keys, counted, from, to, k, None);
    MovedListing(c.advisories, c.systems.Keys, counted, from, to, k, Some(INSTALLABLE_STATUS));
    ListingIsAffected(c.advisories, counted, k);
    ListingIsAffected(Moved(c, from, to).advisories, Counted(Moved(c, from, to).systems), k);
    assert ExactAt(cache, c.advisories, counted, k);
  }

  lemma CountsAfterMove(c: Content, cache: Cache, cache': Cache, from: int, to: int, k: AccKey)
    requires MovableContent(c, from, to) && Exact(cache, c.advisories, Counted(c.systems))
    requires Exact(cache', Moved(c, from, to).advisories, Counted(Moved(c, from, to).systems))
    ensures k.acc == from ==> k !in cache'
    ensures k.acc == to ==>
              && Applicable(cache', k) == Applicable(cache, AccKey(from, k.id)) + Applicable(cache, k)
              && Installable(cache', k) == Installable(cache, AccKey(from, k.id)) + Installable(cache, k)
              && (k in cache' <==> AccKey(from, k.id) in cache || k in cache)
  {
    var counted := Counted(c.systems);
    CountedMoves(c.systems, from, to);
    MovedCount(c.advisories, c.systems.Keys, counted, from, to, k, None);
    MovedCount(c.advisories, c.systems.Keys, counted, from, to, k, Some(INSTALLABLE_STATUS));
    ExactCounts(cache, c.advisories, counted, k);
    ExactCounts(cache, c.advisories, counted, AccKey(from, k.id));
    ExactCounts(cache', Moved(c, from, to).advisories, Counted(Moved(c, from, to).systems), k);
  }

  /** The move alone leaves the cache exact iff the account it empties had no row in it. */
  lemma MoveAloneIsExactIff(c: Content, cache: Cache, from: int, to: int, fired: seq<AccKey>)
    requires MovableContent(c, from, to) && Exact(cache, c.advisories, Counted(c.systems))
    requires forall s | s in fired :: s in c.systems
    ensures Exact(AfterMoveTriggers(cache, c, from, to, fired), Moved(c, from, to).advisories,
                  Counted(Moved(c, from, to).systems)) <==>
            forall k | k in cache :: k.acc != from
  {
    MoveTriggersChangeNothing(cache, c, from, to, fired);
    var m := Moved(c, from, to);
    if Exact(cache, m.advisories, Counted(m.systems)) {
      forall k | k in cache ensures k.acc != from {
        CountsAfterMove(c, cache, cache, from, to, k);
      }
    }
    if forall k | k in cache :: k.acc != from {
      forall k ensures ExactAt(cache, m.advisories, Counted(m.systems), k) {
        if k.acc != from && k.acc != to {
          OtherAccountsStayExact(c, cache, from, to, k);
        } else {
          NothingAdded(c, cache, from, to, k);
        }
      }
    }
  }

  lemma NothingAdded(c: Content, cache: Cache, from: int, to: int, k: AccKey)
    requires MovableContent(c, from, to) && Exact(cache, c.advisories, Counted(c.systems))
    requires k.acc == from || k.acc == to
    requires AccKey(from, k.id) !in cache
    ensures ExactAt(cache, Moved(c, from, to).advisories, Counted(Moved(c, from, to).systems), k)
  {
    var counted := Counted(c.systems);
    var m := Moved(c, from, to);
    CountedMoves(c.systems, from, to);
    MovedCount(c.advisories, c.systems.Keys, counted, from, to, k, None);
    MovedCount(c.advisories, c.systems.Keys, counted, from, to, k, Some(INSTALLABLE_STATUS));
    ExactCounts(cache, c.advisories, counted, k);
    ExactCounts(cache, c.advisories, counted, AccKey(from, k.id));
    ListingIsAffected(m.advisories, Counted(m.systems), k);
  }

  /** The exact cache of one counted system with one advisory has a row for it. */
  lemma OneAdvisoryIsCached(c: Content)
    requires OneAdvisory(c) && c.systems[AccKey(1, 1)].IsCounted()
    ensures var cache := Refreshed(map[], c.advisories, Counted(c.systems), EVERYTHING);
            Exact(cache, c.advisories, Counted(c.systems)) && AccKey(1, 5) in cache
  {
    var sa, counted := c.advisories, Counted(c.systems);
    forall k ensures ExactAt(Refreshed(map[], sa, counted, EVERYTHING), sa, counted, k) {
      RefreshMakesScopeExact(map[], sa, counted, EVERYTHING, k);
    }
    assert LinkKey(1, 1, 5) in sa.Keys && AccKey(1, 1) in c.systems.Keys;
    assert AccKey(1, 1) in Affected(sa, counted, AccKey(1, 5));
    assert ExactAt(Refreshed(map[], sa, counted, EVERYTHING), sa, counted, AccKey(1, 5));
  }

  /** The drift at a real input: one counted system with one advisory is moved and nothing is refreshed. */
  lemma UnrefreshedMoveDrifts(c: Content, cache: Cache)
    requires OneAdvisory(c) && Exact(cache, c.advisories, Counted(c.systems)) && AccKey(1, 5) in cache
    ensures NoCollisions(c, 1, 2)
    ensures !Exact(AfterMoveTriggers(cache, c, 1, 2, []), Moved(c, 1, 2).advisories, Counted(Moved(c, 1, 2).systems))
  {
    OneAdvisoryMoves(c);
    assert LinksInto(c.advisories.Keys, c.systems.Keys);
    MoveAloneIsExactIff(c, cache, 1, 2, []);
  }
}

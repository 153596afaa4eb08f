/** The two composite primary keys of the schema and the order `ORDER BY rh_account_id, id`. */
module Keys {
  import opened Sums

  /** (rh_account_id, x): a system, a baseline, an advisory counter or a package counter. */
  datatype AccKey = AccKey(acc: int, id: int)

  /** (rh_account_id, system_id, x): a row that links a system to an advisory, package or repository. */
  datatype LinkKey = LinkKey(acc: int, system: int, item: int)

  function SystemOf(l: LinkKey): AccKey {
    AccKey(l.acc, l.system)
  }

  function ItemOf(l: LinkKey): AccKey {
    AccKey(l.acc, l.item)
  }

  predicate Before(a: AccKey, b: AccKey) {
    a.acc < b.acc || (a.acc == b.acc && a.id < b.id)
  }

  ghost predicate IsLeast(m: AccKey, s: set<AccKey>) {
    m in s && forall k | k in s :: k == m || Before(m, k)
  }

  lemma {:induction false} LeastExists(s: set<AccKey>)
    requires s != {}
    ensures exists m :: IsLeast(m, s)
  {
    var k :| k in s;
    if s == {k} {
      assert IsLeast(k, s);
    } else {
      assert s - {k} != {};
      LeastExists(s - {k});
      var n :| IsLeast(n, s - {k});
      assert k.acc == n.acc && k.id == n.id ==> k == n;
      var m := if Before(k, n) then k else n;
      forall x | x in s ensures x == m || Before(m, x) {
        assert x == k || x in s - {k};
      }
      assert IsLeast(m, s);
    }
  }

  /** `ks` lists the keys of `s` in order, each of them once. */
  ghost predicate Orders(ks: seq<AccKey>, s: set<AccKey>) {
    && |ks| == |s|
    && (forall k :: k in ks <==> k in s)
    && (forall i, j | 0 <= i < j < |ks| :: Before(ks[i], ks[j]))
  }

  lemma {:induction false} OrderExists(s: set<AccKey>)
    ensures exists ks :: Orders(ks, s)
    decreases |s|
  {
    if s == {} {
      assert Orders([], s);
    } else {
      LeastExists(s);
      var m :| IsLeast(m, s);
      OrderExists(s - {m});
      var rest :| Orders(rest, s - {m});
      assert forall i | 0 <= i < |rest| :: rest[i] in rest;
      assert Orders([m] + rest, s);
    }
  }

  /** The rows of a table in key order. */
  ghost function Sorted(s: set<AccKey>): (ks: seq<AccKey>)
    ensures Orders(ks, s)
  {
    OrderExists(s);
    var ks :| Orders(ks, s);
    ks
  }

  lemma TailOrders(ks: seq<AccKey>, s: set<AccKey>)
    requires Orders(ks, s) && ks != []
    ensures IsLeast(ks[0], s) && Orders(ks[1..], s - {ks[0]})
  {
  }

  lemma {:induction false} OrderIsUnique(ks: seq<AccKey>, ts: seq<AccKey>, s: set<AccKey>)
    requires Orders(ks, s) && Orders(ts, s)
    ensures ks == ts
    decreases |ks|
  {
    if ks != [] {
      TailOrders(ks, s);
      TailOrders(ts, s);
      assert ks[0] == ts[0];
      OrderIsUnique(ks[1..], ts[1..], s - {ks[0]});
      assert ks == [ks[0]] + ks[1..] && ts == [ts[0]] + ts[1..];
    }
  }

  method FindLeast(s: set<AccKey>) returns (m: AccKey)
    requires s != {}
    ensures IsLeast(m, s)
  {
    m :| m in s;
    var rest := s - {m};
    while rest != {}
      invariant rest <= s && m in s && m !in rest
      invariant forall k | k in s - rest :: k == m || Before(m, k)
      decreases rest
    {
      var k :| k in rest;
      assert k.acc == m.acc && k.id == m.id ==> k == m;
      ghost var seen := s - rest;
      if Before(k, m) {
        m := k;
      }
      rest := rest - {k};
      assert forall x | x in s - rest :: x == k || x in seen;
    }
  }

  /** `ORDER BY rh_account_id, id` over the given keys. */
  method SortKeys(s: set<AccKey>) returns (ks: seq<AccKey>)
    ensures ks == Sorted(s)
  {
    ks := [];
    var rest := s;
    while rest != {}
      invariant rest <= s && |ks| + |rest| == |s|
      invariant forall k :: k in ks <==> k in s - rest
      invariant forall i, j | 0 <= i < j < |ks| :: Before(ks[i], ks[j])
      invariant forall i, k | 0 <= i < |ks| && k in rest :: Before(ks[i], k)
      decreases rest
    {
      var m := FindLeast(rest);
      ks := ks + [m];
      rest := rest - {m};
    }
    OrderIsUnique(ks, Sorted(s), s);
  }

  /** `r` is what `ORDER BY rh_account_id, id LIMIT n` selects from `s`. */
  ghost predicate IsFirst(r: set<AccKey>, s: set<AccKey>, n: nat) {
    && r <= s
    && |r| == (if n < |s| then n else |s|)
    && forall a, b | a in r && b in s && b !in r :: Before(a, b)
  }

  lemma PrefixIsFirst(ks: seq<AccKey>, s: set<AccKey>, n: nat)
    requires Orders(ks, s)
    ensures var m := if n < |s| then n else |s|;
            IsFirst(set i | 0 <= i < m :: ks[i], s, n)
  {
    var m := if n < |s| then n else |s|;
    PrefixSet(ks, m);
    var r := set i | 0 <= i < m :: ks[i];
    assert forall k | k in r :: k in ks;
    forall a, b | a in r && b in s && b !in r ensures Before(a, b) {
      var i :| 0 <= i < m && ks[i] == a;
      assert b in ks;
      var j :| 0 <= j < |ks| && ks[j] == b;
      assert m <= j;
    }
  }

  ghost function FirstN(s: set<AccKey>, n: nat): (r: set<AccKey>)
    ensures IsFirst(r, s, n)
  {
    PrefixIsFirst(Sorted(s), s, n);
    var r :| IsFirst(r, s, n);
    r
  }

  lemma FirstIsUnique(r: set<AccKey>, t: set<AccKey>, s: set<AccKey>, n: nat)
    requires IsFirst(r, s, n) && IsFirst(t, s, n)
    ensures r == t
  {
    assert r == (r * t) + (r - t) && t == (r * t) + (t - r);
    assert |r - t| == |t - r|;
    assert forall a, b | a in r - t && b in t - r :: Before(a, b) && Before(b, a);
  }

  /** A key is among the first `n` iff fewer than `n` keys come before it in the order. */
  lemma FirstByRank(s: set<AccKey>, n: nat, k: AccKey)
    ensures k in FirstN(s, n) <==>
            k in s && |set j | j in s && (j.acc < k.acc || (j.acc == k.acc && j.id < k.id))| < n
  {
    var r := FirstN(s, n);
    var before := set j | j in s && (j.acc < k.acc || (j.acc == k.acc && j.id < k.id));
    if k in r {
      assert before <= r - {k};
      SubsetSize(before, r - {k});
    } else if k in s {
      assert r <= before && r <= s - {k};
      SubsetSize(r, before);
      SubsetSize(r, s - {k});
    }
  }

  lemma {:induction false} PrefixSet(ks: seq<AccKey>, m: nat)
    requires m <= |ks|
    requires forall i, j | 0 <= i < j < |ks| :: Before(ks[i], ks[j])
    ensures |set i | 0 <= i < m :: ks[i]| == m
  {
    if m > 0 {
      PrefixSet(ks, m - 1);
      var t := set i | 0 <= i < m - 1 :: ks[i];
      assert (set i | 0 <= i < m :: ks[i]) == t + {ks[m - 1]};
      assert ks[m - 1] !in t;
    }
  }

  method SelectFirst(s: set<AccKey>, n: nat) returns (ids: set<AccKey>)
    ensures ids == FirstN(s, n)
  {
    var ordered := SortKeys(s);
    var m := if n < |ordered| then n else |ordered|;
    ids := set i | 0 <= i < m :: ordered[i];
    PrefixIsFirst(ordered, s, n);
    FirstIsUnique(ids, FirstN(s, n), s, n);
  }
}

/** Sums over finite maps, and counting one set of pairs in two ways. */
module Sums {

  ghost function Sum<K>(m: map<K, int>): int {
    if m == map[] then 0
    else
      var k :| k in m;
      m[k] + Sum(m - {k})
  }

  lemma {:induction false} SumRemove<K>(m: map<K, int>, k: K)
    requires k in m
    ensures Sum(m) == m[k] + Sum(m - {k})
    decreases |m|
  {
    assert m != map[];
    var p :| p in m && Sum(m) == m[p] + Sum(m - {p});
    if p != k {
      SumRemove(m - {p}, k);
      SumRemove(m - {k}, p);
      assert m - {p} - {k} == m - {k} - {p};
    }
  }

  ghost function Fiber<P, K>(ps: set<P>, f: P -> K, k: K): set<P> {
    set p | p in ps && f(p) == k
  }

  ghost function FiberSizes<P, K>(ps: set<P>, f: P -> K, ks: set<K>): map<K, int> {
    map k | k in ks :: |Fiber(ps, f, k)|
  }

  /** When `f` sends every element into `ks`, the sizes of its fibres over `ks` add up to the whole set. */
  lemma {:induction false} SumFibers<P, K>(ps: set<P>, f: P -> K, ks: set<K>)
    requires forall p | p in ps :: f(p) in ks
    ensures Sum(FiberSizes(ps, f, ks)) == |ps|
    decreases |ks|
  {
    if ks == {} {
      assert FiberSizes(ps, f, ks) == map[];
      assert ps == {};
    } else {
      var k :| k in ks;
      var here := Fiber(ps, f, k);
      var rest := ps - here;
      SumRemove(FiberSizes(ps, f, ks), k);
      forall j | j in ks - {k} ensures Fiber(ps, f, j) == Fiber(rest, f, j) {
      }
      assert FiberSizes(ps, f, ks) - {k} == FiberSizes(rest, f, ks - {k});
      SumFibers(rest, f, ks - {k});
      assert ps == here + rest;
    }
  }

  /** A subset is no larger, and as large only if it is everything. */
  lemma SubsetSize<T>(a: set<T>, b: set<T>)
    requires a <= b
    ensures |a| <= |b|
    ensures |a| == |b| <==> a == b
  {
    assert b == a + (b - a);
  }

  /** Sets in bijection have the same size. */
  lemma {:induction false} Bijection<A, B>(a: set<A>, b: set<B>, f: A -> B)
    requires forall x | x in a :: f(x) in b
    requires forall x, y | x in a && y in a && f(x) == f(y) :: x == y
    requires forall z | z in b :: exists x :: x in a && f(x) == z
    ensures |a| == |b|
    decreases |a|
  {
    if a == {} {
      assert b == {};
    } else {
      var x :| x in a;
      forall z | z in b - {f(x)} ensures exists y :: y in a - {x} && f(y) == z {
        var y :| y in a && f(y) == z;
        assert y in a - {x};
      }
      Bijection(a - {x}, b - {f(x)}, f);
    }
  }

  /** A set is at least as large as any set it is mapped onto. */
  lemma {:induction false} Surjection<A, B>(a: set<A>, b: set<B>, f: A -> B)
    requires forall z | z in b :: exists x :: x in a && f(x) == z
    ensures |b| <= |a|
    decreases |b|
  {
    if b != {} {
      var z :| z in b;
      var x :| x in a && f(x) == z;
      forall y | y in b - {z} ensures exists w :: w in a - {x} && f(w) == y {
        var w :| w in a && f(w) == y;
        assert w in a - {x};
      }
      Surjection(a - {x}, b - {z}, f);
    }
  }
}

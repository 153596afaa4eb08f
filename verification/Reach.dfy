/** Finite directed graphs: paths, acyclicity, and evaluating "here, or along an edge" by recursion. */
module Reach {
  import opened Sums

  type Edges = set<(string, string)>

  ghost predicate Path(e: Edges, p: seq<string>) {
    p != [] && forall i | 0 <= i < |p| - 1 :: (p[i], p[i + 1]) in e
  }

  ghost predicate PathFromTo(e: Edges, p: seq<string>, a: string, b: string) {
    Path(e, p) && p[0] == a && p[|p| - 1] == b
  }

  /** `b` can be reached from `a` in any number of steps, zero included. */
  ghost predicate Reaches(e: Edges, a: string, b: string) {
    exists p :: PathFromTo(e, p, a, b)
  }

  /** No path of at least one step leads back to its start. */
  ghost predicate Acyclic(e: Edges) {
    forall p | Path(e, p) && |p| > 1 :: p[0] != p[|p| - 1]
  }

  lemma ReachesItself(e: Edges, a: string)
    ensures Reaches(e, a, a)
  {
    assert PathFromTo(e, [a], a, a);
  }

  lemma NoEdgesNoCycle(e: Edges)
    requires e == {}
    ensures Acyclic(e)
  {
    forall p | p != [] && |p| > 1 ensures !Path(e, p) {
      assert (p[0], p[1]) !in e;
    }
  }

  lemma StepPath(e: Edges, a: string, p: seq<string>)
    requires Path(e, p) && (a, p[0]) in e
    ensures Path(e, [a] + p)
  {
  }

  lemma StepReaches(e: Edges, a: string, b: string, c: string)
    requires (a, b) in e && Reaches(e, b, c)
    ensures Reaches(e, a, c)
  {
    var p :| PathFromTo(e, p, b, c);
    assert PathFromTo(e, [a] + p, a, c);
  }

  lemma EdgeNotBack(e: Edges, a: string, b: string)
    requires Acyclic(e) && (a, b) in e
    ensures !Reaches(e, b, a)
  {
    forall p | PathFromTo(e, p, b, a) ensures false {
      StepPath(e, a, p);
    }
  }

  /** What lies below `a`: it shrinks along every edge of an acyclic graph. */
  ghost function Below(e: Edges, a: string): set<string> {
    set x | x in (set d | d in e :: d.0) && Reaches(e, a, x)
  }

  lemma EdgeDescends(e: Edges, a: string, b: string)
    requires Acyclic(e) && (a, b) in e
    ensures |Below(e, b)| < |Below(e, a)|
  {
    EdgeNotBack(e, a, b);
    ReachesItself(e, a);
    assert (a, b).0 == a && a in Below(e, a) && a !in Below(e, b);
    forall x | x in Below(e, b) ensures x in Below(e, a) - {a} {
      StepReaches(e, a, b, x);
    }
    SubsetSize(Below(e, b), Below(e, a));
  }

  /** A number for every node that falls along every edge: what a terminating recursion needs. */
  ghost predicate Ranks(rank: string -> nat, e: Edges) {
    forall d | d in e :: rank(d.1) < rank(d.0)
  }

  lemma {:induction false} RankFallsAlongPath(rank: string -> nat, e: Edges, p: seq<string>, n: nat)
    requires Ranks(rank, e) && Path(e, p) && 0 < n < |p|
    ensures rank(p[n]) < rank(p[0])
  {
    assert (p[n - 1], p[n]) in e;
    if n > 1 {
      RankFallsAlongPath(rank, e, p, n - 1);
    }
  }

  /** Recursion along the edges terminates iff they form no cycle. */
  lemma TerminatesIffAcyclic(e: Edges)
    ensures Acyclic(e) <==> exists rank :: Ranks(rank, e)
  {
    if Acyclic(e) {
      forall d | d in e ensures |Below(e, d.1)| < |Below(e, d.0)| {
        EdgeDescends(e, d.0, d.1);
      }
      assert Ranks(x => |Below(e, x)|, e);
    }
    if rank :| Ranks(rank, e) {
      forall p | Path(e, p) && |p| > 1 ensures p[0] != p[|p| - 1] {
        RankFallsAlongPath(rank, e, p, |p| - 1);
      }
    }
  }

  /** A permission of the form `here + along->permission`, evaluated by recursion on an acyclic graph. */
  ghost predicate Holds(e: Edges, here: set<string>, a: string)
    requires Acyclic(e)
    decreases |Below(e, a)|
  {
    a in here || exists b :: (a, b) in e && (EdgeDescends(e, a, b); Holds(e, here, b))
  }

  /** Recursive evaluation is reachability of a place where it holds at once. */
  lemma {:induction false} HoldsIffReaches(e: Edges, here: set<string>, a: string)
    requires Acyclic(e)
    ensures Holds(e, here, a) <==> exists b :: b in here && Reaches(e, a, b)
    decreases |Below(e, a)|
  {
    if Holds(e, here, a) {
      if a in here {
        ReachesItself(e, a);
      } else {
        var b :| (a, b) in e && Holds(e, here, b);
        EdgeDescends(e, a, b);
        HoldsIffReaches(e, here, b);
        var c :| c in here && Reaches(e, b, c);
        StepReaches(e, a, b, c);
      }
    }
    if c :| c in here && Reaches(e, a, c) {
      var p :| PathFromTo(e, p, a, c);
      PathHolds(e, here, p);
    }
  }

  lemma {:induction false} PathHolds(e: Edges, here: set<string>, p: seq<string>)
    requires Acyclic(e) && Path(e, p) && p[|p| - 1] in here
    ensures Holds(e, here, p[0])
    decreases |p|
  {
    if |p| > 1 {
      forall i | 0 <= i < |p| - 2 ensures (p[1..][i], p[1..][i + 1]) in e {
        assert (p[i + 1], p[i + 2]) in e;
      }
      PathHolds(e, here, p[1..]);
      assert (p[0], p[1]) in e && Holds(e, here, p[1]);
    }
  }

  /** More edges and more places where it holds at once never take a permission away. */
  lemma HoldsMonotone(e: Edges, e': Edges, here: set<string>, here': set<string>, a: string)
    requires Acyclic(e) && Acyclic(e') && e <= e' && here <= here'
    ensures Holds(e, here, a) ==> Holds(e', here', a)
  {
    if Holds(e, here, a) {
      HoldsIffReaches(e, here, a);
      var b :| b in here && Reaches(e, a, b);
      var p :| PathFromTo(e, p, a, b);
      assert PathFromTo(e', p, a, b);
      PathHolds(e', here', p);
    }
  }

  /** Edges to places without a way out close no cycle. */
  lemma DeadEndsKeepAcyclic(e: Edges, e': Edges)
    requires Acyclic(e) && e <= e'
    requires forall d, f | d in e' - e && f in e' :: d.1 != f.0
    ensures Acyclic(e')
  {
    forall p | Path(e', p) && |p| > 1 ensures p[0] != p[|p| - 1] {
      var n := |p| - 1;
      forall i | 0 <= i < n - 1 ensures (p[i], p[i + 1]) in e {
        assert (p[i + 1], p[i + 2]) in e';
      }
      if (p[n - 1], p[n]) in e {
        assert Path(e, p);
      } else {
        assert (p[0], p[1]) in e';
      }
    }
  }

  // ----- One more edge -----

  lemma NoEdgesNoReach(e: Edges, a: string, b: string)
    requires e == {} && a != b
    ensures !Reaches(e, a, b)
  {
    forall p | p != [] && p[0] == a && p[|p| - 1] == b ensures !Path(e, p) {
      assert (p[0], p[1]) !in e;
    }
  }

  lemma {:induction false} PathsCompose(e: Edges, a: string, b: string, p: seq<string>)
    requires Path(e, p) && Reaches(e, p[|p| - 1], b) && p[0] == a
    ensures Reaches(e, a, b)
    decreases |p|
  {
    if |p| > 1 {
      forall i | 0 <= i < |p| - 2 ensures (p[1..][i], p[1..][i + 1]) in e {
        assert (p[i + 1], p[i + 2]) in e;
      }
      PathsCompose(e, p[1], b, p[1..]);
      assert (p[0], p[1]) in e;
      StepReaches(e, a, p[1], b);
    }
  }

  lemma ReachesTransitive(e: Edges, a: string, b: string, c: string)
    requires Reaches(e, a, b) && Reaches(e, b, c)
    ensures Reaches(e, a, c)
  {
    var p :| PathFromTo(e, p, a, b);
    PathsCompose(e, a, c, p);
  }

  /** A path in the larger graph goes around the new edge, or to its start and on from its end. */
  lemma {:induction false} PathWithEdge(e: Edges, a: string, b: string, p: seq<string>)
    requires Path(e + {(a, b)}, p)
    ensures var x, y := p[0], p[|p| - 1];
            Reaches(e, x, y) || (Reaches(e, x, a) && Reaches(e, b, y))
    decreases |p|
  {
    var y := p[|p| - 1];
    ReachesItself(e, a);
    if |p| == 1 {
      ReachesItself(e, y);
    } else {
      forall i | 0 <= i < |p| - 2 ensures (p[1..][i], p[1..][i + 1]) in e + {(a, b)} {
        assert (p[i + 1], p[i + 2]) in e + {(a, b)};
      }
      PathWithEdge(e, a, b, p[1..]);
      assert (p[0], p[1]) in e + {(a, b)};
      if (p[0], p[1]) in e {
        if Reaches(e, p[1], y) {
          StepReaches(e, p[0], p[1], y);
        } else {
          StepReaches(e, p[0], p[1], a);
        }
      }
    }
  }

  lemma EdgeOnCycle(e: Edges, a: string, b: string, x: string, y: string)
    requires Acyclic(e) && !Reaches(e, b, a) && (x, y) in e + {(a, b)}
    ensures !Reaches(e + {(a, b)}, y, x)
  {
    if Reaches(e + {(a, b)}, y, x) {
      var p :| PathFromTo(e + {(a, b)}, p, y, x);
      PathWithEdge(e, a, b, p);
      if (x, y) in e {
        EdgeNotBack(e, x, y);
        StepReaches(e, x, y, a);
        ReachesTransitive(e, b, x, a);
      }
      assert false;
    }
  }

  /** A new edge closes a cycle iff its end already led to its start. */
  lemma EdgeKeepsAcyclicIff(e: Edges, a: string, b: string)
    ensures Acyclic(e + {(a, b)}) <==> Acyclic(e) && !Reaches(e, b, a)
  {
    var e' := e + {(a, b)};
    if Acyclic(e') {
      forall p | Path(e, p) && |p| > 1 ensures p[0] != p[|p| - 1] {
        assert Path(e', p);
      }
      EdgeNotBack(e', a, b);
      forall p | PathFromTo(e, p, b, a) ensures PathFromTo(e', p, b, a) {
      }
    }
    if Acyclic(e) && !Reaches(e, b, a) {
      forall p | Path(e', p) && |p| > 1 ensures p[0] != p[|p| - 1] {
        EdgeOnCycle(e, a, b, p[0], p[1]);
        forall i | 0 <= i < |p| - 2 ensures (p[1..][i], p[1..][i + 1]) in e' {
          assert (p[i + 1], p[i + 2]) in e';
        }
        assert (p[0], p[1]) in e' && PathFromTo(e', p[1..], p[1], p[|p| - 1]);
      }
    }
  }
}

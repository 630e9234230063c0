/** Finite directed graphs as sets of edges.
    The dependency relations of the invariant registry and of the task table are both read as such a
    graph, so what "cycle", "reaches" and "depends transitively on" mean is said once, here. */
module Digraph {

  /** Consecutive vertices of `p` are joined by edges of `g`. */
  ghost predicate IsWalk<T(!new)>(g: set<(T, T)>, p: seq<T>) {
    forall i :: 0 < i < |p| ==> (p[i - 1], p[i]) in g
  }

  /** `p` is a walk of at least one edge from `a` to `b`. */
  ghost predicate Joins<T(!new)>(g: set<(T, T)>, p: seq<T>, a: T, b: T) {
    |p| >= 2 && p[0] == a && p[|p| - 1] == b && IsWalk(g, p)
  }

  ghost predicate Reaches<T(!new)>(g: set<(T, T)>, a: T, b: T) {
    exists p :: Joins(g, p, a, b)
  }

  ghost predicate Acyclic<T(!new)>(g: set<(T, T)>) {
    forall x :: !Reaches(g, x, x)
  }

  /** Everything reachable from `a` by at least one edge. */
  ghost function Below<T(!new)>(g: set<(T, T)>, a: T): set<T> {
    set e | e in g && Reaches(g, a, e.1) :: e.1
  }

  lemma EdgeReaches<T(!new)>(g: set<(T, T)>, a: T, b: T)
    requires (a, b) in g
    ensures Reaches(g, a, b)
  {
    assert Joins(g, [a, b], a, b);
  }

  lemma ReachesTrans<T(!new)>(g: set<(T, T)>, a: T, b: T, c: T)
    requires Reaches(g, a, b) && Reaches(g, b, c)
    ensures Reaches(g, a, c)
  {
    var p :| Joins(g, p, a, b);
    var q :| Joins(g, q, b, c);
    assert Joins(g, p + q[1..], a, c);
  }

  /** A walk starts with an edge. */
  lemma FirstStep<T(!new)>(g: set<(T, T)>, a: T, b: T) returns (c: T)
    requires Reaches(g, a, b)
    ensures (a, c) in g && (c == b || Reaches(g, c, b))
  {
    var p :| Joins(g, p, a, b);
    c := p[1];
    assert (p[0], p[1]) in g;
    if |p| > 2 {
      assert Joins(g, p[1..], c, b);
    }
  }

  /** A walk ends with an edge. */
  lemma LastStep<T(!new)>(g: set<(T, T)>, a: T, b: T) returns (c: T)
    requires Reaches(g, a, b)
    ensures (c, b) in g && (c == a || Reaches(g, a, c))
  {
    var p :| Joins(g, p, a, b);
    c := p[|p| - 2];
    assert (p[|p| - 2], p[|p| - 1]) in g;
    if |p| > 2 {
      assert Joins(g, p[..|p| - 1], a, c);
    }
  }

  lemma BelowIff<T(!new)>(g: set<(T, T)>, a: T, b: T)
    ensures b in Below(g, a) <==> Reaches(g, a, b)
  {
    if Reaches(g, a, b) {
      var c := LastStep(g, a, b);
      assert (c, b).1 == b;
    }
  }

  /** In an acyclic graph an edge strictly shrinks what lies below: the termination measure of every
      recursion along dependencies. */
  lemma BelowShrinks<T(!new)>(g: set<(T, T)>, a: T, b: T)
    requires Acyclic(g) && (a, b) in g
    ensures Below(g, b) < Below(g, a)
  {
    EdgeReaches(g, a, b);
    BelowIff(g, a, b);
    BelowIff(g, b, b);
    forall x | x in Below(g, b)
      ensures x in Below(g, a)
    {
      BelowIff(g, b, x);
      ReachesTrans(g, a, b, x);
      BelowIff(g, a, x);
    }
  }

  lemma ReachesMonotone<T(!new)>(g: set<(T, T)>, h: set<(T, T)>, a: T, b: T)
    requires g <= h && Reaches(g, a, b)
    ensures Reaches(h, a, b)
  {
    var p :| Joins(g, p, a, b);
    assert Joins(h, p, a, b);
  }

  lemma SubgraphAcyclic<T(!new)>(g: set<(T, T)>, h: set<(T, T)>)
    requires g <= h && Acyclic(h)
    ensures Acyclic(g)
  {
    forall x
      ensures !Reaches(g, x, x)
    {
      if Reaches(g, x, x) {
        ReachesMonotone(g, h, x, x);
      }
    }
  }

  /** A walk that may use one extra edge either does not need it, or runs into its tail and out of its head. */
  lemma {:induction false} WalkWithEdge<T(!new)>(g: set<(T, T)>, a: T, b: T, p: seq<T>)
    requires |p| >= 2 && IsWalk(g + {(a, b)}, p)
    ensures Reaches(g, p[0], p[|p| - 1])
         || ((p[0] == a || Reaches(g, p[0], a)) && (p[|p| - 1] == b || Reaches(g, b, p[|p| - 1])))
    decreases |p|
  {
    var n := |p| - 1;
    var y, z := p[n - 1], p[n];
    assert (y, z) in g + {(a, b)};
    if (y, z) in g {
      EdgeReaches(g, y, z);
    }
    if n > 1 {
      WalkWithEdge(g, a, b, p[..n]);
      assert p[..n][n - 1] == y && p[..n][0] == p[0];
      if (y, z) in g {
        if Reaches(g, p[0], y) {
          ReachesTrans(g, p[0], y, z);
        } else if y != b {
          ReachesTrans(g, b, y, z);
        }
      }
    }
  }

  /** Adding the edge (a, b) keeps a graph acyclic exactly when it is not a loop and b does not already reach a. */
  lemma AddEdgeAcyclic<T(!new)>(g: set<(T, T)>, a: T, b: T)
    requires Acyclic(g)
    ensures Acyclic(g + {(a, b)}) <==> a != b && !Reaches(g, b, a)
  {
    var h := g + {(a, b)};
    if a == b || Reaches(g, b, a) {
      EdgeReaches(h, a, b);
      if a != b {
        ReachesMonotone(g, h, b, a);
        ReachesTrans(h, a, b, a);
      }
      assert Reaches(h, a, a);
    } else {
      forall x
        ensures !Reaches(h, x, x)
      {
        if Reaches(h, x, x) {
          var p :| Joins(h, p, x, x);
          WalkWithEdge(g, a, b, p);
          assert !Reaches(g, x, x);
          if x != b && x != a {
            ReachesTrans(g, b, x, a);
          }
        }
      }
    }
  }

  /** In an acyclic graph every non-empty finite set has a member with no edge into the set. */
  lemma {:induction false} SinkExists<T(!new)>(g: set<(T, T)>, s: set<T>, start: T) returns (sink: T)
    requires Acyclic(g) && start in s
    ensures sink in s && forall y :: y in s ==> (sink, y) !in g
    decreases Below(g, start)
  {
    if y :| y in s && (start, y) in g {
      BelowShrinks(g, start, y);
      sink := SinkExists(g, s, y);
    } else {
      sink := start;
    }
  }
}

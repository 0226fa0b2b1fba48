/**
  The concept graph: vertices 0..|g|-1, and g[v] lists the hypernyms of v
  in the order the graph enumerates them. Reachability is the specification
  every breadth-first search below is proved against.
 */
module Digraph {

  /** Every edge target is a vertex of the graph. */
  ghost predicate ValidGraph(g: seq<seq<int>>) {
    forall v, i :: 0 <= v < |g| && 0 <= i < |g[v]| ==> 0 <= g[v][i] < |g|
  }

  ghost predicate IsVertex(g: seq<seq<int>>, v: int) {
    0 <= v < |g|
  }

  /** The set of elements of a sequence of vertices. */
  function Members(s: seq<int>): (m: set<int>)
    ensures forall x :: x in m <==> x in s
  {
    set x | x in s
  }

  /** `v` can be reached from some vertex of `S` by following at most `k` edges. */
  ghost predicate ReachIn(g: seq<seq<int>>, S: set<int>, v: int, k: nat)
    decreases k
  {
    if k == 0 then v in S
    else ReachIn(g, S, v, k - 1) || exists u :: 0 <= u < |g| && ReachIn(g, S, u, k - 1) && v in g[u]
  }

  /** `d` is the length of a shortest path from `S` to `v`. */
  ghost predicate IsShortest(g: seq<seq<int>>, S: set<int>, v: int, d: nat) {
    ReachIn(g, S, v, d) && forall k: nat :: k < d ==> !ReachIn(g, S, v, k)
  }

  /** `v` is an ancestor of (or equal to) some vertex of `S`. */
  ghost predicate Reachable(g: seq<seq<int>>, S: set<int>, v: int) {
    exists k: nat :: ReachIn(g, S, v, k)
  }

  /** A path of `k` hops can always be extended by a further edge. */
  lemma ReachStep(g: seq<seq<int>>, S: set<int>, u: int, v: int, k: nat)
    requires 0 <= u < |g| && v in g[u] && ReachIn(g, S, u, k)
    ensures ReachIn(g, S, v, k + 1)
  {
  }

  /** Reaching within `j` hops implies reaching within any larger bound. */
  lemma {:induction false} ReachMonotone(g: seq<seq<int>>, S: set<int>, v: int, j: nat, k: nat)
    requires j <= k && ReachIn(g, S, v, j)
    ensures ReachIn(g, S, v, k)
    decreases k - j
  {
    if j < k {
      assert ReachIn(g, S, v, j + 1);
      ReachMonotone(g, S, v, j + 1, k);
    }
  }

  /** A shortest distance is unique. */
  lemma ShortestUnique(g: seq<seq<int>>, S: set<int>, v: int, d1: nat, d2: nat)
    requires IsShortest(g, S, v, d1) && IsShortest(g, S, v, d2)
    ensures d1 == d2
  {
  }

  /** A vertex reached within `k` hops has a shortest distance, at most `k`. */
  lemma {:induction false} ShortestOf(g: seq<seq<int>>, S: set<int>, v: int, k: nat) returns (d: nat)
    requires ReachIn(g, S, v, k)
    ensures IsShortest(g, S, v, d) && d <= k
  {
    if k == 0 {
      d := 0;
    } else if ReachIn(g, S, v, k - 1) {
      d := ShortestOf(g, S, v, k - 1);
    } else {
      d := k;
      forall j: nat | j < k
        ensures !ReachIn(g, S, v, j)
      {
        if ReachIn(g, S, v, j) {
          ReachMonotone(g, S, v, j, k - 1);
        }
      }
    }
  }

  /** Every vertex reachable in a valid graph is a vertex of the graph. */
  lemma {:induction false} ReachIsVertex(g: seq<seq<int>>, S: set<int>, v: int, k: nat)
    requires ValidGraph(g) && (forall s :: s in S ==> IsVertex(g, s))
    requires ReachIn(g, S, v, k)
    ensures IsVertex(g, v)
  {
    if k > 0 && !ReachIn(g, S, v, k - 1) {
      var u :| 0 <= u < |g| && ReachIn(g, S, u, k - 1) && v in g[u];
      var i :| 0 <= i < |g[u]| && g[u][i] == v;
    } else if k > 0 {
      ReachIsVertex(g, S, v, k - 1);
    }
  }

  /** A set of vertex ids below `n` has at most `n` elements. */
  lemma {:induction false} BoundedSetSize(s: set<int>, n: nat)
    requires forall x :: x in s ==> 0 <= x < n
    ensures |s| <= n
  {
    if n > 0 {
      var s' := s - {n - 1};
      BoundedSetSize(s', n - 1);
    } else {
      assert forall x :: x !in s;
      assert s == {};
    }
  }
}

/**
  The queries of `ShortestCommonAncestor`: `length` and `ancestor` for two
  vertices, and for two subsets of vertices. An ancestral path between `A`
  and `B` runs from a vertex of `A` up to a common ancestor `x` and from a
  vertex of `B` up to `x`; its length is the sum of the two shortest
  distances to `x`.

  Each Java query exists twice (`length` and `ancestor`), the two bodies
  doing the same searches and differing only in what they return; each pair
  is modelled by one method returning both results.
 */
module Sca {
  import opened Wrappers
  import opened Digraph
  import opened Bfs

  /** `x` is a common ancestor of `A` and `B`, and `len` is the length of the shortest ancestral path through it. */
  ghost predicate AncestralPath(g: seq<seq<int>>, A: set<int>, B: set<int>, x: int, len: int) {
    exists da: nat, db: nat :: IsShortest(g, A, x, da) && IsShortest(g, B, x, db) && len == da + db
  }

  /** Some vertex is an ancestor of (or equal to) a vertex of `A` and a vertex of `B`. */
  ghost predicate HaveCommonAncestor(g: seq<seq<int>>, A: set<int>, B: set<int>) {
    exists x, ka: nat, kb: nat :: ReachIn(g, A, x, ka) && ReachIn(g, B, x, kb)
  }

  /**
    `len` is the length of a shortest ancestral path between `A` and `B`,
    or `cap` when there is none shorter than `cap`.
   */
  ghost predicate CappedShortest(g: seq<seq<int>>, A: set<int>, B: set<int>, cap: int, len: int) {
    && len <= cap
    && (forall x, l :: AncestralPath(g, A, B, x, l) ==> len <= l)
    && (len < cap ==> exists x :: AncestralPath(g, A, B, x, len))
  }

  /** `x` is, among the common ancestors, one nearest to `B`. */
  ghost predicate NearestTo(g: seq<seq<int>>, A: set<int>, B: set<int>, x: int) {
    exists db: nat :: IsShortest(g, B, x, db) &&
      forall y, ka: nat, kb: nat :: ReachIn(g, A, y, ka) && ReachIn(g, B, y, kb) ==> db <= kb
  }

  /** The error of the single-pair `length` when `ancestor` found no common ancestor. */
  datatype LengthError =
    /** `distTo` of a vertex the search never reached: the unboxing `NullPointerException`. */
    | MissingDistance

  /** Ancestral paths do not depend on which side is called `A`. */
  lemma AncestralPathSymmetric(g: seq<seq<int>>, A: set<int>, B: set<int>, x: int, len: int)
    ensures AncestralPath(g, A, B, x, len) <==> AncestralPath(g, B, A, x, len)
  {
    if AncestralPath(g, A, B, x, len) {
      var da: nat, db: nat :| IsShortest(g, A, x, da) && IsShortest(g, B, x, db) && len == da + db;
      assert IsShortest(g, B, x, db) && IsShortest(g, A, x, da) && len == db + da;
    }
    if AncestralPath(g, B, A, x, len) {
      var db: nat, da: nat :| IsShortest(g, B, x, db) && IsShortest(g, A, x, da) && len == db + da;
      assert IsShortest(g, A, x, da) && IsShortest(g, B, x, db) && len == da + db;
    }
  }

  /** The capped shortest length is determined by the two subsets: any two results agree. */
  lemma CappedShortestUnique(g: seq<seq<int>>, A: set<int>, B: set<int>, cap: int, l1: int, l2: int)
    requires CappedShortest(g, A, B, cap, l1) && CappedShortest(g, A, B, cap, l2)
    ensures l1 == l2
  {
    if l1 < cap {
      var x :| AncestralPath(g, A, B, x, l1);
    }
    if l2 < cap {
      var x :| AncestralPath(g, A, B, x, l2);
    }
  }

  /** Swapping the two subsets does not change the capped shortest length. */
  lemma {:induction false} CappedShortestSymmetric(g: seq<seq<int>>, A: set<int>, B: set<int>, cap: int, len: int)
    requires CappedShortest(g, A, B, cap, len)
    ensures CappedShortest(g, B, A, cap, len)
  {
    forall x, l | AncestralPath(g, B, A, x, l)
      ensures len <= l
    {
      AncestralPathSymmetric(g, A, B, x, l);
    }
    if len < cap {
      var x :| AncestralPath(g, A, B, x, len);
      AncestralPathSymmetric(g, A, B, x, len);
    }
  }

  /**
    The iteration order of a Java `HashSet` is unspecified: `xs` lists the
    elements of `s` once each, in an arbitrary order.
   */
  method Enumerate(s: set<int>) returns (xs: seq<int>)
    ensures Members(xs) == s
    ensures forall i, j :: 0 <= i < j < |xs| ==> xs[i] != xs[j]
  {
    xs := [];
    var rest := s;
    while rest != {}
      invariant rest <= s && Members(xs) == s - rest
      invariant forall i, j :: 0 <= i < j < |xs| ==> xs[i] != xs[j]
      decreases |rest|
    {
      assert (forall y :: y !in rest) ==> rest == {};
      var x :| x in rest;
      xs := xs + [x];
      rest := rest - {x};
    }
  }

  /** The elements of `xs` that belong to `s`, in their order in `xs`. */
  function KeepIn(xs: seq<int>, s: set<int>): (r: seq<int>)
    ensures |r| <= |xs|
  {
    if xs == [] then []
    else KeepIn(xs[..|xs| - 1], s) + (if xs[|xs| - 1] in s then [xs[|xs| - 1]] else [])
  }

  /** Filtering keeps exactly the members that belong to `s`, and keeps a duplicate-free list duplicate-free. */
  lemma {:induction false} KeepInMembers(xs: seq<int>, s: set<int>)
    ensures Members(KeepIn(xs, s)) == Members(xs) * s
    ensures (forall i, j :: 0 <= i < j < |xs| ==> xs[i] != xs[j]) ==>
              forall i, j :: 0 <= i < j < |KeepIn(xs, s)| ==> KeepIn(xs, s)[i] != KeepIn(xs, s)[j]
  {
    if xs != [] {
      var init, last := xs[..|xs| - 1], xs[|xs| - 1];
      assert xs == init + [last];
      KeepInMembers(init, s);
      var r := KeepIn(xs, s);
      assert Members(r) == Members(xs) * s;
      if forall i, j :: 0 <= i < j < |xs| ==> xs[i] != xs[j] {
        assert forall i :: 0 <= i < |init| ==> init[i] != last;
        assert last !in Members(KeepIn(init, s));
      }
    }
  }

  /**
    The nested loops of `length`/`ancestor` for subsets: each vertex of
    `iterA` that also occurs in `iterB` is enqueued, once, in `iterA` order.
   */
  method CommonCandidates(iterA: seq<int>, iterB: seq<int>) returns (q: seq<int>)
    ensures q == KeepIn(iterA, Members(iterB))
  {
    q := [];
    var k := 0;
    while k < |iterA|
      invariant 0 <= k <= |iterA|
      invariant q == KeepIn(iterA[..k], Members(iterB))
    {
      var i := iterA[k];
      var m := 0;
      while m < |iterB|
        invariant 0 <= m <= |iterB|
        invariant forall t :: 0 <= t < m ==> iterB[t] != i
      {
        if iterB[m] == i {
          q := q + [i];
          break;
        }
        m := m + 1;
      }
      assert iterA[..k + 1][..k] == iterA[..k];
      k := k + 1;
    }
    assert iterA[..k] == iterA;
  }

  /**
    The final loop of `length`/`ancestor` for subsets: starting from
    (`root`, `cap`), a candidate replaces the current one only when its
    path is strictly shorter, so `sca` is the first candidate of least
    length below `cap`.
   */
  method MinCandidate(q: seq<int>, distA: map<int, nat>, distB: map<int, nat>, root: int, cap: int)
    returns (sca: int, len: int)
    requires forall i :: 0 <= i < |q| ==> q[i] in distA && q[i] in distB
    ensures len <= cap
    ensures forall i :: 0 <= i < |q| ==> len <= distA[q[i]] + distB[q[i]]
    ensures len < cap ==> exists i :: 0 <= i < |q| && q[i] == sca && len == distA[sca] + distB[sca] &&
                                      forall j :: 0 <= j < i ==> len < distA[q[j]] + distB[q[j]]
    ensures len == cap ==> sca == root
  {
    sca, len := root, cap;
    var k := 0;
    while k < |q|
      invariant 0 <= k <= |q| && len <= cap
      invariant forall i :: 0 <= i < k ==> len <= distA[q[i]] + distB[q[i]]
      invariant len < cap ==> exists i :: 0 <= i < k && q[i] == sca && len == distA[sca] + distB[sca] &&
                                          forall j :: 0 <= j < i ==> len < distA[q[j]] + distB[q[j]]
      invariant len == cap ==> sca == root
    {
      var pathLength := distA[q[k]] + distB[q[k]];
      if pathLength < len {
        sca, len := q[k], pathLength;
      }
      k := k + 1;
    }
  }

  /** From full searches of `A` and `B`, the minimum over the common candidates is the capped shortest length. */
  lemma {:induction false} CandidatesDecide(g: seq<seq<int>>, A: set<int>, B: set<int>,
                                            visA: set<int>, distA: map<int, nat>,
                                            visB: set<int>, distB: map<int, nat>,
                                            q: seq<int>, cap: int, sca: int, len: int)
    requires visA == distA.Keys && visB == distB.Keys && Members(q) == visA * visB
    requires forall i :: 0 <= i < |q| ==> q[i] in distA && q[i] in distB
    requires forall v :: v in distA ==> IsShortest(g, A, v, distA[v])
    requires forall v :: v in distB ==> IsShortest(g, B, v, distB[v])
    requires forall v, k: nat :: ReachIn(g, A, v, k) ==> v in visA
    requires forall v, k: nat :: ReachIn(g, B, v, k) ==> v in visB
    requires forall v :: v in distA ==> distA[v] < |g|
    requires forall v :: v in distB ==> distB[v] < |g|
    requires len <= cap
    requires forall i :: 0 <= i < |q| ==> len <= distA[q[i]] + distB[q[i]]
    requires len < cap ==> sca in distA && sca in distB && len == distA[sca] + distB[sca]
    ensures CappedShortest(g, A, B, cap, len)
    ensures len < cap ==> AncestralPath(g, A, B, sca, len)
    ensures forall x, l :: AncestralPath(g, A, B, x, l) ==> l <= 2 * (|g| - 1)
  {
    forall x, l | AncestralPath(g, A, B, x, l)
      ensures len <= l && l <= 2 * (|g| - 1)
    {
      var da: nat, db: nat :| IsShortest(g, A, x, da) && IsShortest(g, B, x, db) && l == da + db;
      assert x in Members(q);
      var i :| 0 <= i < |q| && q[i] == x;
      ShortestUnique(g, A, x, da, distA[x]);
      ShortestUnique(g, B, x, db, distB[x]);
    }
    if len < cap {
      assert IsShortest(g, A, sca, distA[sca]) && IsShortest(g, B, sca, distB[sca]);
      assert AncestralPath(g, A, B, sca, len);
    }
  }

  /**
    The subset queries with the cap as a parameter: full searches from `A`
    and from `B`, the common candidates in `HashSet` order, and the scan
    for the least path length below `cap`.
   */
  method CappedQuery(g: seq<seq<int>>, root: int, A: seq<int>, B: seq<int>, cap: int)
    returns (sca: int, len: int)
    requires ValidGraph(g)
    requires forall i :: 0 <= i < |A| ==> IsVertex(g, A[i])
    requires forall i :: 0 <= i < |B| ==> IsVertex(g, B[i])
    ensures CappedShortest(g, Members(A), Members(B), cap, len)
    ensures len < cap ==> AncestralPath(g, Members(A), Members(B), sca, len)
    ensures len == cap ==> sca == root
    ensures forall x, l :: AncestralPath(g, Members(A), Members(B), x, l) ==> l <= 2 * (|g| - 1)
  {
    var visA, distA, orderA := Bfs.Bfs(g, A);
    var visB, distB, orderB := Bfs.Bfs(g, B);
    var iterA := Enumerate(visA);
    var iterB := Enumerate(visB);
    var q := CommonCandidates(iterA, iterB);
    KeepInMembers(iterA, Members(iterB));
    assert forall i :: 0 <= i < |q| ==> q[i] in Members(q);
    sca, len := MinCandidate(q, distA, distB, root, cap);
    CandidatesDecide(g, Members(A), Members(B), visA, distA, visB, distB, q, cap, sca, len);
  }

  /**
    `length(subsetA, subsetB)` and `ancestor(subsetA, subsetB)`: the length
    of a shortest ancestral path, or the vertex count `V` exactly when there
    is no common ancestor; and a common ancestor on such a path, or `root`.
   */
  method SetQuery(g: seq<seq<int>>, root: int, A: seq<int>, B: seq<int>) returns (sca: int, len: int)
    requires ValidGraph(g)
    requires forall i :: 0 <= i < |A| ==> IsVertex(g, A[i])
    requires forall i :: 0 <= i < |B| ==> IsVertex(g, B[i])
    ensures CappedShortest(g, Members(A), Members(B), |g|, len)
    ensures len < |g| ==> AncestralPath(g, Members(A), Members(B), sca, len)
    ensures len == |g| ==> sca == root
    ensures HaveCommonAncestor(g, Members(A), Members(B)) <==> len < |g|
  {
    sca, len := CappedQuery(g, root, A, B, |g|);
    assert forall s :: s in Members(A) ==> IsVertex(g, s);
    assert forall s :: s in Members(B) ==> IsVertex(g, s);
    CommonAncestorShort(g, Members(A), Members(B));
    CommonFromPath(g, Members(A), Members(B), sca, len);
  }

  /**
    `length(v, w)` and `ancestor(v, w)` as written: a full search from `v`,
    then a search from `w` that stops at the first ancestor of `v` it
    dequeues. That vertex is the ancestor; the length adds its two
    distances. With no common ancestor the stop vertex stays `root`, which
    one of the two searches never reached, and `length` fails.
   */
  method PairQuery(g: seq<seq<int>>, root: int, v: int, w: int)
    returns (sca: int, len: Result<nat, LengthError>)
    requires ValidGraph(g) && IsVertex(g, v) && IsVertex(g, w)
    ensures HaveCommonAncestor(g, {v}, {w}) ==>
              len.Success? && AncestralPath(g, {v}, {w}, sca, len.value) && NearestTo(g, {v}, {w}, sca)
    ensures !HaveCommonAncestor(g, {v}, {w}) ==> sca == root && len == Failure(MissingDistance)
    ensures v == w ==> sca == v && len == Success(0)
  {
    var visV, distV := BfsFrom(g, v);
    var visW, distW, stop, orderW := BfsStopAt(g, root, w, visV);
    sca := stop;
    if sca in distV && sca in distW {
      len := Success(distV[sca] + distW[sca]);
    } else {
      len := Failure(MissingDistance);
    }
    PairOutcome(g, root, v, w, visV, distV, visW, distW, stop, len);
  }

  /** A stop vertex the search from `w` can reach is a common ancestor. */
  lemma CommonFromStop(g: seq<seq<int>>, v: int, w: int, visV: set<int>, distV: map<int, nat>)
    requires visV == distV.Keys
    requires forall x :: x in distV ==> IsShortest(g, {v}, x, distV[x])
    ensures StopReachable(g, {w}, visV) ==> HaveCommonAncestor(g, {v}, {w})
  {
    if StopReachable(g, {w}, visV) {
      var x, k: nat :| x in visV && ReachIn(g, {w}, x, k);
      assert ReachIn(g, {v}, x, distV[x]);
    }
  }

  /** A vertex both searches reached is a common ancestor. */
  lemma CommonFromDistances(g: seq<seq<int>>, v: int, w: int, distV: map<int, nat>, distW: map<int, nat>, x: int)
    requires forall y :: y in distV ==> IsShortest(g, {v}, y, distV[y])
    requires forall y :: y in distW ==> ReachIn(g, {w}, y, distW[y])
    ensures x in distV && x in distW ==> HaveCommonAncestor(g, {v}, {w})
  {
    if x in distV && x in distW {
      assert ReachIn(g, {v}, x, distV[x]) && ReachIn(g, {w}, x, distW[x]);
    }
  }

  /** The ancestor of an ancestral path is a common ancestor. */
  lemma CommonFromPath(g: seq<seq<int>>, A: set<int>, B: set<int>, x: int, len: int)
    ensures AncestralPath(g, A, B, x, len) ==> HaveCommonAncestor(g, A, B)
  {
    if AncestralPath(g, A, B, x, len) {
      var da: nat, db: nat :| IsShortest(g, A, x, da) && IsShortest(g, B, x, db) && len == da + db;
      assert ReachIn(g, A, x, da) && ReachIn(g, B, x, db);
    }
  }

  /** A vertex at shortest distance `d` from `S` ends a chain holding one vertex at every distance `0..d`. */
  lemma {:induction false} ShortestChain(g: seq<seq<int>>, S: set<int>, v: int, d: nat) returns (p: seq<int>)
    requires IsShortest(g, S, v, d)
    ensures |p| == d + 1 && p[d] == v
    ensures forall i :: 0 <= i <= d ==> IsShortest(g, S, p[i], i)
    decreases d
  {
    if d == 0 {
      p := [v];
    } else {
      assert !ReachIn(g, S, v, d - 1);
      var u :| 0 <= u < |g| && ReachIn(g, S, u, d - 1) && v in g[u];
      forall k: nat | k < d - 1
        ensures !ReachIn(g, S, u, k)
      {
        if ReachIn(g, S, u, k) {
          ReachStep(g, S, u, v, k);
        }
      }
      var p' := ShortestChain(g, S, u, d - 1);
      p := p' + [v];
    }
  }

  /** Vertices at different shortest distances from `S` are different vertices. */
  lemma DistinctLevels(g: seq<seq<int>>, S: set<int>, u: int, v: int, i: nat, j: nat)
    requires IsShortest(g, S, u, i) && IsShortest(g, S, v, j) && i != j
    ensures u != v
  {
    if u == v {
      ShortestUnique(g, S, u, i, j);
    }
  }

  /** A sequence without repeated vertices has as many members as elements. */
  lemma {:induction false} DistinctMembers(q: seq<int>)
    requires forall i, j :: 0 <= i < j < |q| ==> q[i] != q[j]
    ensures |Members(q)| == |q|
  {
    if q != [] {
      var q' := q[..|q| - 1];
      DistinctMembers(q');
      assert Members(q) == Members(q') + {q[|q| - 1]};
      assert q[|q| - 1] !in Members(q');
    }
  }

  /** Among the ancestral paths between `A` and `B` there is one of least length. */
  lemma {:induction false} MinimalAncestralPath(g: seq<seq<int>>, A: set<int>, B: set<int>, x0: int, l0: nat)
    returns (x: int, l: nat)
    requires AncestralPath(g, A, B, x0, l0)
    ensures AncestralPath(g, A, B, x, l)
    ensures forall y, m :: AncestralPath(g, A, B, y, m) ==> l <= m
    decreases l0
  {
    if forall y, m :: AncestralPath(g, A, B, y, m) ==> l0 <= m {
      x, l := x0, l0;
    } else {
      var y, m :| AncestralPath(g, A, B, y, m) && m < l0;
      var da: nat, db: nat :| IsShortest(g, A, y, da) && IsShortest(g, B, y, db) && m == da + db;
      x, l := MinimalAncestralPath(g, A, B, y, m);
    }
  }

  /**
    A least ancestral path is shorter than the vertex count: the chain from
    `A` to its ancestor and the chain from `B` meet only at the ancestor
    (a vertex shared earlier would be a common ancestor nearer to both), so
    together they hold `len + 1` distinct vertices.
   */
  lemma MinimalPathShort(g: seq<seq<int>>, A: set<int>, B: set<int>, x: int, len: int)
    requires ValidGraph(g)
    requires (forall s :: s in A ==> IsVertex(g, s)) && (forall s :: s in B ==> IsVertex(g, s))
    requires AncestralPath(g, A, B, x, len)
    requires forall y, m :: AncestralPath(g, A, B, y, m) ==> len <= m
    ensures len < |g|
  {
    var da: nat, db: nat :| IsShortest(g, A, x, da) && IsShortest(g, B, x, db) && len == da + db;
    var pA := ShortestChain(g, A, x, da);
    var pB := ShortestChain(g, B, x, db);
    var q := pA + pB[..db];
    forall i, j | 0 <= i < j < |q|
      ensures q[i] != q[j]
    {
      if j <= da {
        DistinctLevels(g, A, pA[i], pA[j], i, j);
      } else if i > da {
        DistinctLevels(g, B, pB[i - da - 1], pB[j - da - 1], i - da - 1, j - da - 1);
      } else {
        var jj := j - da - 1;
        assert pA[i] == pB[jj] ==> AncestralPath(g, A, B, pA[i], i + jj);
      }
    }
    forall v | v in Members(q)
      ensures 0 <= v < |g|
    {
      var i :| 0 <= i < |q| && q[i] == v;
      if i <= da {
        ReachIsVertex(g, A, pA[i], i);
      } else {
        ReachIsVertex(g, B, pB[i - da - 1], i - da - 1);
      }
    }
    BoundedSetSize(Members(q), |g|);
    DistinctMembers(q);
  }

  /**
    Two sets of vertices with a common ancestor have an ancestral path
    shorter than the vertex count, so the start value `V` of the set queries
    never hides one.
   */
  lemma CommonAncestorShort(g: seq<seq<int>>, A: set<int>, B: set<int>)
    requires ValidGraph(g)
    requires (forall s :: s in A ==> IsVertex(g, s)) && (forall s :: s in B ==> IsVertex(g, s))
    ensures HaveCommonAncestor(g, A, B) ==> exists x, l :: AncestralPath(g, A, B, x, l) && l < |g|
  {
    if HaveCommonAncestor(g, A, B) {
      var x0, ka: nat, kb: nat :| ReachIn(g, A, x0, ka) && ReachIn(g, B, x0, kb);
      var da := ShortestOf(g, A, x0, ka);
      var db := ShortestOf(g, B, x0, kb);
      assert AncestralPath(g, A, B, x0, da + db);
      var x, l := MinimalAncestralPath(g, A, B, x0, da + db);
      MinimalPathShort(g, A, B, x, l);
    }
  }

  /** Why the pair query's results mean what its contract says. */
  lemma PairOutcome(g: seq<seq<int>>, root: int, v: int, w: int,
                    visV: set<int>, distV: map<int, nat>, visW: set<int>, distW: map<int, nat>,
                    sca: int, len: Result<nat, LengthError>)
    requires visV == distV.Keys && v in distV && distV[v] == 0
    requires forall x :: x in distV ==> IsShortest(g, {v}, x, distV[x])
    requires forall x, k: nat :: ReachIn(g, {v}, x, k) ==> x in visV
    requires visW == distW.Keys
    requires forall x :: x in distW ==> ReachIn(g, {w}, x, distW[x])
    requires StopReachable(g, {w}, visV) ==>
              && sca in visV && sca in distW
              && IsShortest(g, {w}, sca, distW[sca])
              && (forall x, k: nat :: x in visV && ReachIn(g, {w}, x, k) ==> distW[sca] <= k)
    requires !StopReachable(g, {w}, visV) ==> sca == root
    requires w in visV ==> sca == w
    requires w in distW && distW[w] == 0
    requires len == if sca in distV && sca in distW then Success(distV[sca] + distW[sca])
                    else Failure(MissingDistance)
    ensures HaveCommonAncestor(g, {v}, {w}) ==>
              len.Success? && AncestralPath(g, {v}, {w}, sca, len.value) && NearestTo(g, {v}, {w}, sca)
    ensures !HaveCommonAncestor(g, {v}, {w}) ==> sca == root && len == Failure(MissingDistance)
    ensures v == w ==> sca == v && len == Success(0)
  {
    CommonFromStop(g, v, w, visV, distV);
    CommonFromDistances(g, v, w, distV, distW, sca);
    if HaveCommonAncestor(g, {v}, {w}) {
      var x, kv: nat, kw: nat :| ReachIn(g, {v}, x, kv) && ReachIn(g, {w}, x, kw);
      assert StopReachable(g, {w}, visV);
      assert AncestralPath(g, {v}, {w}, sca, len.value) by {
        assert IsShortest(g, {v}, sca, distV[sca]);
      }
      forall y, ka: nat, kb: nat | ReachIn(g, {v}, y, ka) && ReachIn(g, {w}, y, kb)
        ensures distW[sca] <= kb
      {
        assert y in visV;
      }
    }
    if v == w {
      assert w in visV;
      assert ReachIn(g, {v}, v, 0) && ReachIn(g, {w}, v, 0);
    }
  }

  /**
    The pair query with the minimisation the subset queries perform: the
    least sum of the two distances over all common ancestors. Every
    distance is below `|g|`, so the cap `2|g|` never binds.
   */
  method PairShortest(g: seq<seq<int>>, root: int, v: int, w: int)
    returns (sca: int, len: Result<nat, LengthError>)
    requires ValidGraph(g) && IsVertex(g, v) && IsVertex(g, w)
    ensures HaveCommonAncestor(g, {v}, {w}) ==>
              && len.Success? && AncestralPath(g, {v}, {w}, sca, len.value)
              && forall x, l :: AncestralPath(g, {v}, {w}, x, l) ==> len.value <= l
    ensures !HaveCommonAncestor(g, {v}, {w}) ==> sca == root && len == Failure(MissingDistance)
  {
    assert Members([v]) == {v} && Members([w]) == {w};
    var l;
    sca, l := CappedQuery(g, root, [v], [w], 2 * |g|);
    if 0 <= l < 2 * |g| {
      len := Success(l);
    } else {
      len := Failure(MissingDistance);
    }
    PairShortestOutcome(g, root, v, w, sca, l, len);
  }

  /** Why the capped answer of `PairShortest` is the uncapped one. */
  lemma PairShortestOutcome(g: seq<seq<int>>, root: int, v: int, w: int, sca: int, l: int,
                            len: Result<nat, LengthError>)
    requires ValidGraph(g) && IsVertex(g, v) && IsVertex(g, w)
    requires CappedShortest(g, {v}, {w}, 2 * |g|, l)
    requires l < 2 * |g| ==> AncestralPath(g, {v}, {w}, sca, l)
    requires l == 2 * |g| ==> sca == root
    requires forall x, l' :: AncestralPath(g, {v}, {w}, x, l') ==> l' <= 2 * (|g| - 1)
    requires len == if 0 <= l < 2 * |g| then Success(l) else Failure(MissingDistance)
    ensures HaveCommonAncestor(g, {v}, {w}) ==>
              && len.Success? && AncestralPath(g, {v}, {w}, sca, len.value)
              && forall x, l' :: AncestralPath(g, {v}, {w}, x, l') ==> len.value <= l'
    ensures !HaveCommonAncestor(g, {v}, {w}) ==> sca == root && len == Failure(MissingDistance)
  {
    CommonFromPath(g, {v}, {w}, sca, l);
    if HaveCommonAncestor(g, {v}, {w}) {
      var x, kv: nat, kw: nat :| ReachIn(g, {v}, x, kv) && ReachIn(g, {w}, x, kw);
      var dv := ShortestOf(g, {v}, x, kv);
      var dw := ShortestOf(g, {w}, x, kw);
      assert AncestralPath(g, {v}, {w}, x, dv + dw);
      var x' :| AncestralPath(g, {v}, {w}, x', l);
    }
  }

  /**
    A hierarchy on which the pair query overshoots. Vertex 0 is the root;
    vertex 1 has hypernyms 4 and 0, vertex 2 has hypernyms 3 and 6, and
    4 -> 5 -> 3 -> 0, 6 -> 0.
   */
  const Overshoot: seq<seq<int>> := [[], [4, 0], [3, 6], [0], [5], [3], [0]]

  /** The ancestors of 1 within `k` hops. */
  function AncestorsOfOne(k: nat): (r: set<int>)
    ensures 1 in r
  {
    if k == 0 then {1} else if k == 1 then {0, 1, 4} else if k == 2 then {0, 1, 4, 5} else {0, 1, 3, 4, 5}
  }

  /** The ancestors of 2 within `k` hops. */
  function AncestorsOfTwo(k: nat): (r: set<int>)
    ensures 2 in r
  {
    if k == 0 then {2} else if k == 1 then {2, 3, 6} else {0, 2, 3, 6}
  }

  lemma {:induction false} ReachFromOne(S: set<int>, x: int, k: nat)
    requires S == {1}
    ensures ReachIn(Overshoot, S, x, k) <==> x in AncestorsOfOne(k)
    decreases k
  {
    if k > 0 {
      var j := k - 1;
      forall u | 0 <= u < 7
        ensures ReachIn(Overshoot, S, u, j) <==> u in AncestorsOfOne(j)
      {
        ReachFromOne(S, u, j);
      }
      ReachFromOne(S, x, k - 1);
      if x in AncestorsOfOne(k) && x !in AncestorsOfOne(k - 1) {
        var u := if x == 0 then 1 else if x == 4 then 1 else if x == 5 then 4 else 5;
        assert ReachIn(Overshoot, S, u, k - 1) && x in Overshoot[u];
      }
    }
  }

  lemma {:induction false} ReachFromTwo(S: set<int>, x: int, k: nat)
    requires S == {2}
    ensures ReachIn(Overshoot, S, x, k) <==> x in AncestorsOfTwo(k)
    decreases k
  {
    if k > 0 {
      var j := k - 1;
      forall u | 0 <= u < 7
        ensures ReachIn(Overshoot, S, u, j) <==> u in AncestorsOfTwo(j)
      {
        ReachFromTwo(S, u, j);
      }
      ReachFromTwo(S, x, k - 1);
      if x in AncestorsOfTwo(k) && x !in AncestorsOfTwo(k - 1) {
        var u := if x == 0 then 3 else 2;
        assert ReachIn(Overshoot, S, u, k - 1) && x in Overshoot[u];
      }
    }
  }

  /** Shortest distances from 1, read off the table of ancestors. */
  lemma ShortestFromOne(S: set<int>, x: int, d: nat)
    requires S == {1} && x in AncestorsOfOne(d) && (d == 0 || x !in AncestorsOfOne(d - 1))
    ensures IsShortest(Overshoot, S, x, d)
  {
    ReachFromOne(S, x, d);
    forall k: nat | k < d
      ensures !ReachIn(Overshoot, S, x, k)
    {
      ReachFromOne(S, x, k);
    }
  }

  /** Shortest distances from 2, read off the table of ancestors. */
  lemma ShortestFromTwo(S: set<int>, x: int, d: nat)
    requires S == {2} && x in AncestorsOfTwo(d) && (d == 0 || x !in AncestorsOfTwo(d - 1))
    ensures IsShortest(Overshoot, S, x, d)
  {
    ReachFromTwo(S, x, d);
    forall k: nat | k < d
      ensures !ReachIn(Overshoot, S, x, k)
    {
      ReachFromTwo(S, x, k);
    }
  }

  /** The only common ancestor of 1 and 2 at most one hop above 2 is 3. */
  lemma NearestIsThree(x: int, da: nat, db: nat)
    requires ReachIn(Overshoot, {1}, x, da) && ReachIn(Overshoot, {2}, x, db) && db <= 1
    ensures x == 3
  {
    ReachFromOne({1}, x, da);
    ReachFromTwo({2}, x, db);
  }

  /**
    On `Overshoot`, any result the pair query may give for 1 and 2 is the
    ancestor 3 with length 4 (3 hops up from 1, one from 2), although the
    root 0 closes an ancestral path of length 3 (one hop from 1, two from 2).
   */
  lemma PairLengthOvershoots(sca: int, len: Result<nat, LengthError>)
    requires HaveCommonAncestor(Overshoot, {1}, {2}) ==>
               len.Success? && AncestralPath(Overshoot, {1}, {2}, sca, len.value) && NearestTo(Overshoot, {1}, {2}, sca)
    requires !HaveCommonAncestor(Overshoot, {1}, {2}) ==> sca == 0 && len == Failure(MissingDistance)
    ensures sca == 3 && len == Success(4)
    ensures AncestralPath(Overshoot, {1}, {2}, 0, 3)
  {
    ShortestFromOne({1}, 0, 1);
    ShortestFromTwo({2}, 0, 2);
    ShortestFromOne({1}, 3, 3);
    ShortestFromTwo({2}, 3, 1);
    assert AncestralPath(Overshoot, {1}, {2}, 0, 3);
    assert HaveCommonAncestor(Overshoot, {1}, {2}) by {
      assert ReachIn(Overshoot, {1}, 3, 3) && ReachIn(Overshoot, {2}, 3, 1);
    }
    var db: nat :| IsShortest(Overshoot, {2}, sca, db) &&
      forall y, ka: nat, kb: nat :: ReachIn(Overshoot, {1}, y, ka) && ReachIn(Overshoot, {2}, y, kb) ==> db <= kb;
    assert db <= 1;
    var da: nat, db': nat :| IsShortest(Overshoot, {1}, sca, da) && IsShortest(Overshoot, {2}, sca, db') && len.value == da + db';
    NearestIsThree(sca, da, db);
    ShortestUnique(Overshoot, {1}, 3, da, 3);
    ShortestUnique(Overshoot, {2}, 3, db', 1);
    assert len.value == 4;
  }
}

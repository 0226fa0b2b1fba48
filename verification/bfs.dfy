/**
  The three breadth-first searches of `BFSPath` in ShortestCommonAncestor.java:
  the single-source `bfs`, the multi-source `bfs` and the early-stopping
  `bfsStopAt`. Each follows outgoing (hypernym) edges only.

  The queue is modelled by `order`, every vertex ever enqueued in enqueue
  order, together with the number `h` of dequeues done so far: the live queue
  is `order[h..]`. `visited` is the Java `HashSet` and `dist` the `distTo`
  symbol table.
 */
module Bfs {
  import opened Digraph

  /** `v` was discovered from a visited vertex `u` one hop closer to the sources. */
  ghost predicate HasParent(g: seq<seq<int>>, dist: map<int, nat>, v: int)
    requires v in dist
  {
    exists u :: u in dist && 0 <= u < |g| && v in g[u] && dist[v] == dist[u] + 1
  }

  /** `v` was discovered along the edge `parent[v] -> v`, one hop further than its parent. */
  ghost predicate ParentEdge(g: seq<seq<int>>, dist: map<int, nat>, parent: map<int, int>, v: int)
    requires v in dist
  {
    v in parent && parent[v] in dist && 0 <= parent[v] < |g| && v in g[parent[v]]
    && dist[v] == dist[parent[v]] + 1
  }

  /** The enqueue history starts with the seeds, at distance 0, and holds only visited vertices. */
  ghost predicate Shape(g: seq<seq<int>>, seeds: seq<int>, order: seq<int>, h: nat, dist: map<int, nat>)
  {
    && ValidGraph(g)
    && |seeds| <= |order| && h <= |order|
    && (forall i :: 0 <= i < |order| ==> IsVertex(g, order[i]) && order[i] in dist)
    && (forall i :: 0 <= i < |seeds| ==> order[i] == seeds[i] && dist[order[i]] == 0)
  }

  /**
    `pos[v]` is where the visited vertex `v` sits in the history; a discovered
    (non-seed) vertex sits there only, hence is enqueued exactly once.
   */
  ghost predicate Positions(seeds: seq<int>, order: seq<int>, dist: map<int, nat>, pos: map<int, nat>)
  {
    && (forall v :: v in dist ==> v in pos && pos[v] < |order| && order[pos[v]] == v)
    && (forall v :: v in dist && dist[v] == 0 ==> pos[v] < |seeds|)
    && (forall i :: |seeds| <= i < |order| && order[i] in dist ==> pos[order[i]] == i && dist[order[i]] >= 1)
  }

  /** Distances never decrease along the history, and the live queue spans two consecutive distances. */
  ghost predicate Layered(order: seq<int>, h: nat, dist: map<int, nat>)
  {
    && (forall i, j :: 0 <= i <= j < |order| && order[i] in dist && order[j] in dist ==>
          dist[order[i]] <= dist[order[j]])
    && (h < |order| && order[h] in dist ==>
          forall j :: h <= j < |order| && order[j] in dist ==> dist[order[j]] <= dist[order[h]] + 1)
  }

  /** Every dequeued vertex has had all its out-neighbours visited, at most one hop further. */
  ghost predicate Expanded(g: seq<seq<int>>, order: seq<int>, h: nat, dist: map<int, nat>)
  {
    forall i, j :: 0 <= i < h && i < |order| && 0 <= order[i] < |g| && 0 <= j < |g[order[i]]| ==>
      g[order[i]][j] in dist && order[i] in dist && dist[g[order[i]][j]] <= dist[order[i]] + 1
  }

  /** Every vertex not at distance 0 was discovered from its parent. */
  ghost predicate Parented(g: seq<seq<int>>, dist: map<int, nat>, parent: map<int, int>)
  {
    forall v :: v in dist ==> dist[v] == 0 || ParentEdge(g, dist, parent, v)
  }

  /**
    What holds of a search from `seeds` after `h` dequeues. Seeds are enqueued
    first (repeats included, as the Java loop over the source iterable does);
    every later vertex is enqueued once, when first discovered. `parent` (the
    vertex each vertex was discovered from) and `pos` (where each visited
    vertex sits in `order`) are proof devices.
   */
  ghost predicate QueueState(g: seq<seq<int>>, seeds: seq<int>, order: seq<int>, h: nat,
                             visited: set<int>, dist: map<int, nat>,
                             parent: map<int, int>, pos: map<int, nat>)
  {
    && visited == dist.Keys
    && Shape(g, seeds, order, h, dist)
    && Positions(seeds, order, dist, pos)
    && Layered(order, h, dist)
    && Expanded(g, order, h, dist)
    && Parented(g, dist, parent)
    && Bounded(dist)
  }

  /** Every recorded distance is below the number of visited vertices. */
  ghost predicate Bounded(dist: map<int, nat>)
  {
    forall v :: v in dist ==> dist[v] < |dist|
  }

  /** Following parents back to a seed shows every recorded distance is achieved. */
  lemma {:induction false} ParentsReach(g: seq<seq<int>>, seeds: seq<int>, order: seq<int>, h: nat,
                                        visited: set<int>, dist: map<int, nat>,
                                        parent: map<int, int>, pos: map<int, nat>, v: int)
    requires QueueState(g, seeds, order, h, visited, dist, parent, pos)
    requires v in dist
    ensures ReachIn(g, Members(seeds), v, dist[v])
    decreases dist[v]
  {
    if dist[v] == 0 {
      assert seeds[pos[v]] == v;
    } else {
      var u := parent[v];
      ParentsReach(g, seeds, order, h, visited, dist, parent, pos, u);
      ReachStep(g, Members(seeds), u, v, dist[u]);
    }
  }

  /** An entry of the history at a distance below the head's has been dequeued. */
  lemma BeforeHead(order: seq<int>, h: nat, dist: map<int, nat>, j: int)
    requires Layered(order, h, dist) && h < |order| && 0 <= j < |order|
    requires order[h] in dist && order[j] in dist && dist[order[j]] < dist[order[h]]
    ensures j < h
  {
  }

  /**
    Every vertex within `k` hops of the seeds, with `k` below the distance at
    the head of the queue, has already been dequeued, and its recorded
    distance is at most `k`. Once the queue is empty this holds for every `k`.
   */
  lemma {:induction false} DequeuedBelowHead(g: seq<seq<int>>, seeds: seq<int>, order: seq<int>, h: nat,
                                             visited: set<int>, dist: map<int, nat>,
                                             parent: map<int, int>, pos: map<int, nat>,
                                             x: int, k: nat)
    requires QueueState(g, seeds, order, h, visited, dist, parent, pos)
    requires ReachIn(g, Members(seeds), x, k)
    requires h == |order| || k < dist[order[h]]
    ensures x in dist && dist[x] <= k && pos[x] < h
    decreases k
  {
    var S := Members(seeds);
    if k == 0 {
      var i :| 0 <= i < |seeds| && seeds[i] == x;
      assert order[i] == x;
      if h < |order| {
        BeforeHead(order, h, dist, pos[x]);
      }
    } else if ReachIn(g, S, x, k - 1) {
      DequeuedBelowHead(g, seeds, order, h, visited, dist, parent, pos, x, k - 1);
    } else {
      var u :| 0 <= u < |g| && ReachIn(g, S, u, k - 1) && x in g[u];
      DequeuedBelowHead(g, seeds, order, h, visited, dist, parent, pos, u, k - 1);
      var j :| 0 <= j < |g[u]| && g[u][j] == x;
      assert order[pos[u]] == u;
      assert g[order[pos[u]]][j] == x;
      if h < |order| {
        BeforeHead(order, h, dist, pos[x]);
      }
    }
  }

  /** Discovering an unvisited out-neighbour of the head keeps the search state. */
  lemma Discover(g: seq<seq<int>>, seeds: seq<int>, order: seq<int>, h: nat,
                 visited: set<int>, dist: map<int, nat>,
                 parent: map<int, int>, pos: map<int, nat>, w: int)
    requires QueueState(g, seeds, order, h, visited, dist, parent, pos) && h < |order|
    requires w in g[order[h]] && w !in visited
    ensures QueueState(g, seeds, order + [w], h, visited + {w}, dist[w := dist[order[h]] + 1],
                       parent[w := order[h]], pos[w := |order|])
  {
    assert IsVertex(g, w) by {
      var j :| 0 <= j < |g[order[h]]| && g[order[h]][j] == w;
    }
    DiscoverOrder(g, seeds, order, h, dist, pos, w);
    DiscoverEdges(g, order, h, dist, parent, w);
  }

  /** The order-keeping parts of the search state after discovering `w`. */
  lemma DiscoverOrder(g: seq<seq<int>>, seeds: seq<int>, order: seq<int>, h: nat,
                      dist: map<int, nat>, pos: map<int, nat>, w: int)
    requires Shape(g, seeds, order, h, dist) && Positions(seeds, order, dist, pos) && Layered(order, h, dist)
    requires h < |order| && w !in dist && IsVertex(g, w)
    ensures Shape(g, seeds, order + [w], h, dist[w := dist[order[h]] + 1])
    ensures Positions(seeds, order + [w], dist[w := dist[order[h]] + 1], pos[w := |order|])
    ensures Layered(order + [w], h, dist[w := dist[order[h]] + 1])
  {
    DiscoverShape(g, seeds, order, h, dist, w, dist[order[h]] + 1);
    DiscoverPositions(seeds, order, dist, pos, w, dist[order[h]] + 1);
    DiscoverLayered(order, h, dist, w);
  }

  /** The edge-keeping parts of the search state after discovering `w`. */
  lemma DiscoverEdges(g: seq<seq<int>>, order: seq<int>, h: nat,
                      dist: map<int, nat>, parent: map<int, int>, w: int)
    requires Expanded(g, order, h, dist) && Parented(g, dist, parent) && Bounded(dist)
    requires h < |order| && order[h] in dist && IsVertex(g, order[h]) && w in g[order[h]] && w !in dist
    ensures Expanded(g, order + [w], h, dist[w := dist[order[h]] + 1])
    ensures Parented(g, dist[w := dist[order[h]] + 1], parent[w := order[h]])
    ensures Bounded(dist[w := dist[order[h]] + 1])
  {
    DiscoverExpanded(g, order, h, dist, w, dist[order[h]] + 1);
    DiscoverParented(g, dist, parent, order[h], w);
    DiscoverBounded(dist, order[h], w);
  }

  /** The search state, from its parts. */
  lemma Assemble(g: seq<seq<int>>, seeds: seq<int>, order: seq<int>, h: nat,
                 visited: set<int>, dist: map<int, nat>,
                 parent: map<int, int>, pos: map<int, nat>)
    requires visited == dist.Keys
    requires Shape(g, seeds, order, h, dist)
    requires Positions(seeds, order, dist, pos)
    requires Layered(order, h, dist)
    requires Expanded(g, order, h, dist)
    requires Parented(g, dist, parent)
    requires Bounded(dist)
    ensures QueueState(g, seeds, order, h, visited, dist, parent, pos)
  {
  }

  lemma DiscoverBounded(dist: map<int, nat>, u: int, w: int)
    requires Bounded(dist) && u in dist && w !in dist
    ensures Bounded(dist[w := dist[u] + 1])
  {
  }

  lemma DiscoverShape(g: seq<seq<int>>, seeds: seq<int>, order: seq<int>, h: nat,
                      dist: map<int, nat>, w: int, d: nat)
    requires Shape(g, seeds, order, h, dist) && IsVertex(g, w) && w !in dist
    ensures Shape(g, seeds, order + [w], h, dist[w := d])
  {
  }

  lemma DiscoverPositions(seeds: seq<int>, order: seq<int>, dist: map<int, nat>, pos: map<int, nat>,
                          w: int, d: nat)
    requires Positions(seeds, order, dist, pos) && w !in dist && d >= 1 && |seeds| <= |order|
    requires forall i :: 0 <= i < |order| ==> order[i] in dist
    ensures Positions(seeds, order + [w], dist[w := d], pos[w := |order|])
  {
  }

  lemma DiscoverLayered(order: seq<int>, h: nat, dist: map<int, nat>, w: int)
    requires Layered(order, h, dist) && h < |order| && w !in dist
    requires forall i :: 0 <= i < |order| ==> order[i] in dist
    ensures Layered(order + [w], h, dist[w := dist[order[h]] + 1])
  {
    var order', dist' := order + [w], dist[w := dist[order[h]] + 1];
    forall i, j | 0 <= i <= j < |order'| && order'[i] in dist' && order'[j] in dist'
      ensures dist'[order'[i]] <= dist'[order'[j]]
    {
      if j == |order| && i < |order| {
        if i < h {
          assert dist[order[i]] <= dist[order[h]];
        } else {
          assert dist[order[i]] <= dist[order[h]] + 1;
        }
      }
    }
  }

  lemma DiscoverExpanded(g: seq<seq<int>>, order: seq<int>, h: nat, dist: map<int, nat>, w: int, d: nat)
    requires Expanded(g, order, h, dist) && h <= |order| && w !in dist
    ensures Expanded(g, order + [w], h, dist[w := d])
  {
    var order', dist' := order + [w], dist[w := d];
    forall i, j | 0 <= i < h && i < |order'| && 0 <= order'[i] < |g| && 0 <= j < |g[order'[i]]|
      ensures g[order'[i]][j] in dist' && order'[i] in dist' && dist'[g[order'[i]][j]] <= dist'[order'[i]] + 1
    {
      assert order'[i] == order[i];
    }
  }

  lemma DiscoverParented(g: seq<seq<int>>, dist: map<int, nat>, parent: map<int, int>, u: int, w: int)
    requires Parented(g, dist, parent) && u in dist && 0 <= u < |g| && w in g[u] && w !in dist
    ensures Parented(g, dist[w := dist[u] + 1], parent[w := u])
  {
    var dist', parent' := dist[w := dist[u] + 1], parent[w := u];
    forall v | v in dist' && dist'[v] != 0
      ensures ParentEdge(g, dist', parent', v)
    {
      if v != w {
        assert ParentEdge(g, dist, parent, v);
      }
    }
  }

  /** Once every out-neighbour of the head is visited, the head can be dequeued. */
  lemma Dequeue(g: seq<seq<int>>, seeds: seq<int>, order: seq<int>, h: nat,
                visited: set<int>, dist: map<int, nat>,
                parent: map<int, int>, pos: map<int, nat>)
    requires QueueState(g, seeds, order, h, visited, dist, parent, pos) && h < |order|
    requires forall j :: 0 <= j < |g[order[h]]| ==>
               g[order[h]][j] in dist && dist[g[order[h]][j]] <= dist[order[h]] + 1
    ensures QueueState(g, seeds, order, h + 1, visited, dist, parent, pos)
  {
    assert Layered(order, h + 1, dist) by {
      if h + 1 < |order| {
        assert dist[order[h]] <= dist[order[h + 1]];
      }
    }
    assert Expanded(g, order, h + 1, dist);
    Assemble(g, seeds, order, h + 1, visited, dist, parent, pos);
  }

  /** One turn of the loop over `graph.adj(v)`: visits the out-neighbour `w` of the head if it is new. */
  method Visit(g: seq<seq<int>>, seeds: seq<int>, order0: seq<int>, h: nat,
               visited0: set<int>, dist0: map<int, nat>,
               ghost parent0: map<int, int>, ghost pos0: map<int, nat>, w: int)
    returns (order: seq<int>, visited: set<int>, dist: map<int, nat>,
             ghost parent: map<int, int>, ghost pos: map<int, nat>)
    requires QueueState(g, seeds, order0, h, visited0, dist0, parent0, pos0) && h < |order0|
    requires w in g[order0[h]]
    ensures QueueState(g, seeds, order, h, visited, dist, parent, pos)
    ensures |order0| <= |order| && order[..|order0|] == order0
    ensures visited0 <= visited && |visited| - |visited0| == |order| - |order0|
    ensures dist0.Keys <= dist.Keys && forall v :: v in dist0 ==> dist[v] == dist0[v]
    ensures w in dist && dist[w] <= dist[order0[h]] + 1
  {
    order, visited, dist, parent, pos := order0, visited0, dist0, parent0, pos0;
    if w !in visited {
      Discover(g, seeds, order, h, visited, dist, parent, pos, w);
      dist := dist[w := dist[order[h]] + 1];
      parent := parent[w := order[h]];
      pos := pos[w := |order|];
      visited := visited + {w};
      order := order + [w];
    }
  }

  /** Expands the vertex at the head of the queue: the Java loop over `graph.adj(v)`. */
  method Relax(g: seq<seq<int>>, seeds: seq<int>, order0: seq<int>, h: nat,
               visited0: set<int>, dist0: map<int, nat>,
               ghost parent0: map<int, int>, ghost pos0: map<int, nat>)
    returns (order: seq<int>, visited: set<int>, dist: map<int, nat>,
             ghost parent: map<int, int>, ghost pos: map<int, nat>)
    requires QueueState(g, seeds, order0, h, visited0, dist0, parent0, pos0) && h < |order0|
    ensures QueueState(g, seeds, order, h + 1, visited, dist, parent, pos)
    ensures |order0| <= |order| && order[..|order0|] == order0
    ensures visited0 <= visited && |visited| - |visited0| == |order| - |order0|
    ensures dist0.Keys <= dist.Keys && forall v :: v in dist0 ==> dist[v] == dist0[v]
    ensures |visited| <= |g|
  {
    var u := order0[h];
    order, visited, dist, parent, pos := order0, visited0, dist0, parent0, pos0;
    var i := 0;
    while i < |g[u]|
      invariant 0 <= i <= |g[u]|
      invariant QueueState(g, seeds, order, h, visited, dist, parent, pos)
      invariant |order0| <= |order| && order[..|order0|] == order0 && order[h] == u
      invariant visited0 <= visited && |visited| - |visited0| == |order| - |order0|
      invariant dist0.Keys <= dist.Keys && forall v :: v in dist0 ==> dist[v] == dist0[v]
      invariant forall j :: 0 <= j < i ==> g[u][j] in dist && dist[g[u][j]] <= dist[u] + 1
    {
      ghost var order1, visited1, dist1 := order, visited, dist;
      order, visited, dist, parent, pos := Visit(g, seeds, order, h, visited, dist, parent, pos, g[u][i]);
      Extends(order0, order1, order, h);
      NeighboursSeen(g, u, i, dist1, dist);
      i := i + 1;
    }
    Dequeue(g, seeds, order, h, visited, dist, parent, pos);
    BoundedSetSize(visited, |g|);
  }

  /** Extending an extension of a history is an extension of it. */
  lemma Extends(order0: seq<int>, order1: seq<int>, order: seq<int>, h: nat)
    requires h < |order0| <= |order1| <= |order|
    requires order1[..|order0|] == order0 && order[..|order1|] == order1
    ensures order[..|order0|] == order0 && order[h] == order0[h]
  {
    assert order[..|order1|][..|order0|] == order[..|order0|];
    assert order[h] == order[..|order0|][h];
  }

  /** Visiting the next out-neighbour of `u` extends the prefix of neighbours already seen. */
  lemma NeighboursSeen(g: seq<seq<int>>, u: int, i: nat, dist0: map<int, nat>, dist: map<int, nat>)
    requires 0 <= u < |g| && i < |g[u]| && u in dist0
    requires forall j :: 0 <= j < i ==> g[u][j] in dist0 && dist0[g[u][j]] <= dist0[u] + 1
    requires dist0.Keys <= dist.Keys && forall v :: v in dist0 ==> dist[v] == dist0[v]
    requires g[u][i] in dist && dist[g[u][i]] <= dist0[u] + 1
    ensures forall j :: 0 <= j < i + 1 ==> g[u][j] in dist && dist[g[u][j]] <= dist[u] + 1
  {
    assert u in dist && dist[u] == dist0[u];
    forall j | 0 <= j < i + 1
      ensures g[u][j] in dist && dist[g[u][j]] <= dist[u] + 1
    {
      if j < i {
        var y := g[u][j];
        assert y in dist0 && y in dist0.Keys;
        assert y in dist.Keys;
      }
    }
  }

  /** Enqueues every source at distance 0 (the Java loop over `sources`). */
  method Seed(g: seq<seq<int>>, sources: seq<int>)
    returns (order: seq<int>, visited: set<int>, dist: map<int, nat>, ghost pos: map<int, nat>)
    requires ValidGraph(g) && forall i :: 0 <= i < |sources| ==> IsVertex(g, sources[i])
    ensures QueueState(g, sources, order, 0, visited, dist, map[], pos)
    ensures order == sources
  {
    order, visited, dist, pos := [], {}, map[], map[];
    var i := 0;
    while i < |sources|
      invariant 0 <= i <= |sources|
      invariant order == sources[..i] && visited == dist.Keys
      invariant forall v :: v in dist ==> dist[v] == 0 && v in pos && pos[v] < i && order[pos[v]] == v
      invariant forall j :: 0 <= j < i ==> sources[j] in dist
    {
      visited := visited + {sources[i]};
      dist := dist[sources[i] := 0];
      pos := pos[sources[i] := i];
      order := order + [sources[i]];
      i := i + 1;
    }
    assert sources[..i] == sources;
  }

  /** An exhausted search has visited everything reachable, no further than its distance. */
  lemma FinishComplete(g: seq<seq<int>>, sources: seq<int>, order: seq<int>, visited: set<int>,
                       dist: map<int, nat>, parent: map<int, int>, pos: map<int, nat>)
    requires QueueState(g, sources, order, |order|, visited, dist, parent, pos)
    ensures forall v, k: nat :: ReachIn(g, Members(sources), v, k) ==> v in visited
  {
    forall v, k: nat | ReachIn(g, Members(sources), v, k)
      ensures v in visited
    {
      DequeuedBelowHead(g, sources, order, |order|, visited, dist, parent, pos, v, k);
    }
  }

  /** Every recorded distance of an exhausted search is a shortest distance. */
  lemma FinishShortest(g: seq<seq<int>>, sources: seq<int>, order: seq<int>, visited: set<int>,
                       dist: map<int, nat>, parent: map<int, int>, pos: map<int, nat>)
    requires QueueState(g, sources, order, |order|, visited, dist, parent, pos)
    ensures forall v :: v in dist ==> IsShortest(g, Members(sources), v, dist[v])
  {
    var S := Members(sources);
    forall v | v in dist
      ensures IsShortest(g, S, v, dist[v])
    {
      ParentsReach(g, sources, order, |order|, visited, dist, parent, pos, v);
      forall k: nat | k < dist[v]
        ensures !ReachIn(g, S, v, k)
      {
        if ReachIn(g, S, v, k) {
          DequeuedBelowHead(g, sources, order, |order|, visited, dist, parent, pos, v, k);
        }
      }
    }
  }

  /** The visited set of an exhausted search is closed under edges. */
  lemma FinishClosed(g: seq<seq<int>>, sources: seq<int>, order: seq<int>, visited: set<int>,
                     dist: map<int, nat>, parent: map<int, int>, pos: map<int, nat>)
    requires QueueState(g, sources, order, |order|, visited, dist, parent, pos)
    ensures forall v, j :: v in visited && 0 <= v < |g| && 0 <= j < |g[v]| ==>
              g[v][j] in visited && dist[g[v][j]] <= dist[v] + 1
  {
    forall v, j | v in visited && 0 <= v < |g| && 0 <= j < |g[v]|
      ensures g[v][j] in visited && dist[g[v][j]] <= dist[v] + 1
    {
      assert order[pos[v]] == v;
    }
  }

  /** A vertex at distance 0 is a source. */
  lemma SeedsAtZero(g: seq<seq<int>>, sources: seq<int>, order: seq<int>, visited: set<int>,
                    dist: map<int, nat>, parent: map<int, int>, pos: map<int, nat>, v: int)
    requires QueueState(g, sources, order, |order|, visited, dist, parent, pos)
    requires v in dist
    ensures dist[v] == 0 ==> v in sources
  {
    if dist[v] == 0 {
      assert sources[pos[v]] == v;
    }
  }

  /** Every visited vertex is a source or was discovered from a visited parent. */
  lemma FinishParents(g: seq<seq<int>>, sources: seq<int>, order: seq<int>, visited: set<int>,
                      dist: map<int, nat>, parent: map<int, int>, pos: map<int, nat>)
    requires QueueState(g, sources, order, |order|, visited, dist, parent, pos)
    ensures forall v :: v in dist ==> (v in sources && dist[v] == 0) || HasParent(g, dist, v)
  {
    forall v | v in dist && !(v in sources && dist[v] == 0)
      ensures HasParent(g, dist, v)
    {
      SeedsAtZero(g, sources, order, visited, dist, parent, pos, v);
      assert ParentEdge(g, dist, parent, v);
    }
  }

  /** After the sources, the history holds each discovered vertex once. */
  lemma FinishOnce(g: seq<seq<int>>, sources: seq<int>, order: seq<int>, visited: set<int>,
                   dist: map<int, nat>, parent: map<int, int>, pos: map<int, nat>)
    requires QueueState(g, sources, order, |order|, visited, dist, parent, pos)
    ensures forall i, j :: |sources| <= i < j < |order| ==> order[i] != order[j]
    ensures forall i :: |sources| <= i < |order| ==> order[i] !in sources
  {
    forall i | |sources| <= i < |order|
      ensures order[i] !in sources
    {
      forall j | 0 <= j < |sources|
        ensures sources[j] != order[i]
      {
        assert dist[order[j]] == 0 && dist[order[i]] >= 1;
      }
    }
  }

  /** The shape of an exhausted search's results. */
  lemma FinishShape(g: seq<seq<int>>, sources: seq<int>, order: seq<int>, visited: set<int>,
                    dist: map<int, nat>, parent: map<int, int>, pos: map<int, nat>)
    requires QueueState(g, sources, order, |order|, visited, dist, parent, pos)
    ensures visited == dist.Keys
    ensures forall v :: v in visited ==> IsVertex(g, v)
    ensures forall i :: 0 <= i < |sources| ==> sources[i] in visited && dist[sources[i]] == 0
    ensures |sources| <= |order| && order[..|sources|] == sources
    ensures forall i :: 0 <= i < |order| ==> order[i] in visited
    ensures forall i, j :: 0 <= i < j < |order| ==> dist[order[i]] <= dist[order[j]]
    ensures forall v :: v in dist ==> dist[v] < |g|
  {
    forall v | v in visited
      ensures IsVertex(g, v)
    {
      assert order[pos[v]] == v;
    }
    BoundedSetSize(visited, |g|);
  }

  /** The conclusions drawn from an exhausted queue: the postcondition of `Bfs`. */
  lemma Finish(g: seq<seq<int>>, sources: seq<int>, order: seq<int>, visited: set<int>,
               dist: map<int, nat>, parent: map<int, int>, pos: map<int, nat>)
    requires QueueState(g, sources, order, |order|, visited, dist, parent, pos)
    ensures visited == dist.Keys
    ensures forall v :: v in visited ==> IsVertex(g, v)
    ensures forall i :: 0 <= i < |sources| ==> sources[i] in visited && dist[sources[i]] == 0
    ensures forall v, j :: v in visited && 0 <= v < |g| && 0 <= j < |g[v]| ==>
              g[v][j] in visited && dist[g[v][j]] <= dist[v] + 1
    ensures forall v :: v in dist ==> IsShortest(g, Members(sources), v, dist[v])
    ensures forall v, k: nat :: ReachIn(g, Members(sources), v, k) ==> v in visited
    ensures forall v :: v in dist ==> (v in sources && dist[v] == 0) || HasParent(g, dist, v)
    ensures |sources| <= |order| && order[..|sources|] == sources
    ensures forall i, j :: |sources| <= i < j < |order| ==> order[i] != order[j]
    ensures forall i :: |sources| <= i < |order| ==> order[i] !in sources
    ensures forall i :: 0 <= i < |order| ==> order[i] in visited
    ensures forall i, j :: 0 <= i < j < |order| ==> dist[order[i]] <= dist[order[j]]
    ensures forall v :: v in dist ==> dist[v] < |g|
  {
    FinishComplete(g, sources, order, visited, dist, parent, pos);
    FinishShortest(g, sources, order, visited, dist, parent, pos);
    FinishClosed(g, sources, order, visited, dist, parent, pos);
    FinishParents(g, sources, order, visited, dist, parent, pos);
    FinishOnce(g, sources, order, visited, dist, parent, pos);
    FinishShape(g, sources, order, visited, dist, parent, pos);
  }

  /** The queue loop of the multi-source `bfs`, run until the queue is empty. */
  method Drain(g: seq<seq<int>>, sources: seq<int>)
    returns (visited: set<int>, dist: map<int, nat>, order: seq<int>,
             ghost parent: map<int, int>, ghost pos: map<int, nat>)
    requires ValidGraph(g) && forall i :: 0 <= i < |sources| ==> IsVertex(g, sources[i])
    ensures QueueState(g, sources, order, |order|, visited, dist, parent, pos)
    ensures visited == dist.Keys
    ensures forall v :: v in dist ==> ReachIn(g, Members(sources), v, dist[v])
  {
    order, visited, dist, pos := Seed(g, sources);
    parent := map[];
    var h := 0;
    while h < |order|
      invariant QueueState(g, sources, order, h, visited, dist, parent, pos)
      decreases |g| - |visited|, |order| - h
    {
      BoundedSetSize(visited, |g|);
      order, visited, dist, parent, pos := Relax(g, sources, order, h, visited, dist, parent, pos);
      h := h + 1;
    }
    forall v | v in dist
      ensures ReachIn(g, Members(sources), v, dist[v])
    {
      ParentsReach(g, sources, order, |order|, visited, dist, parent, pos, v);
    }
  }

  /**
    The multi-source `bfs`: on return `dist` holds, for exactly the vertices
    reachable from the sources, the length of a shortest path from the
    nearest source; `order` is the enqueue history, in which every vertex
    other than a source appears once.
   */
  method Bfs(g: seq<seq<int>>, sources: seq<int>)
    returns (visited: set<int>, dist: map<int, nat>, order: seq<int>)
    requires ValidGraph(g) && forall i :: 0 <= i < |sources| ==> IsVertex(g, sources[i])
    ensures visited == dist.Keys
    ensures forall v :: v in visited ==> IsVertex(g, v)
    ensures forall i :: 0 <= i < |sources| ==> sources[i] in visited && dist[sources[i]] == 0
    ensures forall v, j :: v in visited && 0 <= v < |g| && 0 <= j < |g[v]| ==>
              g[v][j] in visited && dist[g[v][j]] <= dist[v] + 1
    ensures forall v :: v in dist ==> IsShortest(g, Members(sources), v, dist[v])
    ensures forall v, k: nat :: ReachIn(g, Members(sources), v, k) ==> v in visited
    ensures forall v :: v in dist ==> (v in sources && dist[v] == 0) || HasParent(g, dist, v)
    ensures |sources| <= |order| && order[..|sources|] == sources
    ensures forall i, j :: |sources| <= i < j < |order| ==> order[i] != order[j]
    ensures forall i :: |sources| <= i < |order| ==> order[i] !in sources
    ensures forall i :: 0 <= i < |order| ==> order[i] in visited
    ensures forall i, j :: 0 <= i < j < |order| ==> dist[order[i]] <= dist[order[j]]
    ensures forall v :: v in dist ==> dist[v] < |g|
  {
    ghost var parent, pos;
    visited, dist, order, parent, pos := Drain(g, sources);
    Finish(g, sources, order, visited, dist, parent, pos);
  }

  /** The single-source `bfs`: the multi-source search from one vertex. */
  method BfsFrom(g: seq<seq<int>>, source: int)
    returns (visited: set<int>, dist: map<int, nat>)
    requires ValidGraph(g) && IsVertex(g, source)
    ensures visited == dist.Keys
    ensures source in visited && dist[source] == 0
    ensures forall v :: v in dist ==> IsShortest(g, {source}, v, dist[v])
    ensures forall v, k: nat :: ReachIn(g, {source}, v, k) ==> v in visited
    ensures forall v :: v in dist ==> dist[v] < |g|
  {
    assert Members([source]) == {source};
    var order;
    visited, dist, order := Bfs(g, [source]);
  }

  /** Some vertex of `stops` is an ancestor of (or equal to) a vertex of `S`. */
  ghost predicate StopReachable(g: seq<seq<int>>, S: set<int>, stops: set<int>) {
    exists x, k: nat :: x in stops && ReachIn(g, S, x, k)
  }

  /** `DequeuedBelowHead` with its distance condition as a hypothesis. */
  lemma DequeuedWhenBelowHead(g: seq<seq<int>>, seeds: seq<int>, order: seq<int>, h: nat,
                              visited: set<int>, dist: map<int, nat>,
                              parent: map<int, int>, pos: map<int, nat>,
                              x: int, k: nat)
    requires QueueState(g, seeds, order, h, visited, dist, parent, pos)
    requires ReachIn(g, Members(seeds), x, k)
    ensures (h == |order| || k < dist[order[h]]) ==> x in dist && dist[x] <= k && pos[x] < h
  {
    if h == |order| || k < dist[order[h]] {
      DequeuedBelowHead(g, seeds, order, h, visited, dist, parent, pos, x, k);
    }
  }

  /** What an exhausted or stopped search from one source tells about the stop set. */
  lemma StopConclusions(g: seq<seq<int>>, root: int, source: int, order: seq<int>, h: nat, visited: set<int>,
                        dist: map<int, nat>, parent: map<int, int>, pos: map<int, nat>,
                        stops: set<int>, stopVertex: int)
    requires QueueState(g, [source], order, h, visited, dist, parent, pos)
    requires Avoids(order, h, stops)
    requires (h == |order| && stopVertex == root) || (h < |order| && order[h] in stops && stopVertex == order[h])
    ensures visited == dist.Keys && source in dist && dist[source] == 0
    ensures forall v :: v in dist ==> IsVertex(g, v) && ReachIn(g, {source}, v, dist[v])
    ensures |order| >= 1 && order[0] == source && forall v :: v in visited <==> v in order
    ensures forall i, j :: 0 <= i < j < |order| ==> order[i] != order[j]
    ensures StopReachable(g, {source}, stops) ==>
              && stopVertex in stops && stopVertex in dist
              && IsShortest(g, {source}, stopVertex, dist[stopVertex])
              && (forall x, k: nat :: x in stops && ReachIn(g, {source}, x, k) ==> dist[stopVertex] <= k)
              && (exists i :: 0 <= i < |order| && order[i] == stopVertex &&
                               forall j :: 0 <= j < i ==> order[j] !in stops)
    ensures !StopReachable(g, {source}, stops) ==> stopVertex == root
    ensures source in stops ==> stopVertex == source
  {
    assert Members([source]) == {source};
    assert order[0] == source;
    forall v | v in dist
      ensures IsVertex(g, v) && ReachIn(g, {source}, v, dist[v])
    {
      ParentsReach(g, [source], order, h, visited, dist, parent, pos, v);
      assert order[pos[v]] == v;
    }
    forall v | v in visited
      ensures v in order
    {
      assert order[pos[v]] == v;
    }
    forall i, j | 0 <= i < j < |order|
      ensures order[i] != order[j]
    {
      if i == 0 {
        assert dist[order[j]] >= 1;
      } else {
        assert pos[order[i]] == i && pos[order[j]] == j;
      }
    }
    forall x, k: nat | x in stops && ReachIn(g, {source}, x, k)
      ensures h < |order| && dist[order[h]] <= k
    {
      DequeuedWhenBelowHead(g, [source], order, h, visited, dist, parent, pos, x, k);
      assert x in dist ==> order[pos[x]] == x;
    }
    if h < |order| {
      ParentsReach(g, [source], order, h, visited, dist, parent, pos, order[h]);
      assert forall j :: 0 <= j < h ==> order[j] !in stops;
    } else {
      assert !StopReachable(g, {source}, stops);
    }
  }

  /** None of the first `h` entries of the history is in `stops`. */
  ghost predicate Avoids(order: seq<int>, h: nat, stops: set<int>)
  {
    forall i :: 0 <= i < h && i < |order| ==> order[i] !in stops
  }

  /** Extending a history whose first `h + 1` entries avoid `stops` keeps them avoiding it. */
  lemma PrefixAvoids(order0: seq<int>, order: seq<int>, h: nat, stops: set<int>)
    requires h < |order0| <= |order| && order[..|order0|] == order0
    requires Avoids(order0, h, stops) && order0[h] !in stops
    ensures Avoids(order, h + 1, stops)
  {
    forall i | 0 <= i < h + 1
      ensures order[i] !in stops
    {
      assert order[i] == order[..|order0|][i];
    }
  }

  /** One turn of the `bfsStopAt` loop past a head that is not a stop. */
  method StopStep(g: seq<seq<int>>, seeds: seq<int>, stops: set<int>, order0: seq<int>, h: nat,
                  visited0: set<int>, dist0: map<int, nat>,
                  ghost parent0: map<int, int>, ghost pos0: map<int, nat>)
    returns (order: seq<int>, visited: set<int>, dist: map<int, nat>,
             ghost parent: map<int, int>, ghost pos: map<int, nat>)
    requires QueueState(g, seeds, order0, h, visited0, dist0, parent0, pos0) && h < |order0|
    requires Avoids(order0, h, stops) && order0[h] !in stops
    ensures QueueState(g, seeds, order, h + 1, visited, dist, parent, pos)
    ensures Avoids(order, h + 1, stops)
    ensures |visited| <= |g| && |visited0| <= |visited|
    ensures |visited| == |visited0| ==> |order| == |order0|
  {
    BoundedSetSize(visited0, |g|);
    order, visited, dist, parent, pos := Relax(g, seeds, order0, h, visited0, dist0, parent0, pos0);
    PrefixAvoids(order0, order, h, stops);
  }

  /** The queue loop of `bfsStopAt`, up to the first dequeued vertex of `stops` or an empty queue. */
  method StopSearch(g: seq<seq<int>>, root: int, seeds: seq<int>, stops: set<int>)
    returns (visited: set<int>, dist: map<int, nat>, stopVertex: int, order: seq<int>,
             h: nat, ghost parent: map<int, int>, ghost pos: map<int, nat>)
    requires ValidGraph(g) && forall i :: 0 <= i < |seeds| ==> IsVertex(g, seeds[i])
    ensures QueueState(g, seeds, order, h, visited, dist, parent, pos)
    ensures Avoids(order, h, stops)
    ensures (h == |order| && stopVertex == root) || (h < |order| && order[h] in stops && stopVertex == order[h])
  {
    stopVertex := root;
    order, visited, dist, pos := Seed(g, seeds);
    parent := map[];
    h := 0;
    while h < |order| && order[h] !in stops
      invariant QueueState(g, seeds, order, h, visited, dist, parent, pos)
      invariant Avoids(order, h, stops)
      decreases |g| - |visited|, |order| - h
    {
      BoundedSetSize(visited, |g|);
      order, visited, dist, parent, pos := StopStep(g, seeds, stops, order, h, visited, dist, parent, pos);
      h := h + 1;
    }
    if h < |order| {
      stopVertex := order[h];
    }
  }

  /**
    `bfsStopAt`: a search from `source` that halts when it dequeues a vertex
    of `stops`. That vertex becomes `stopVertex`; it is the first vertex of
    `stops` in queue order, hence one nearest to `source`. When no vertex of
    `stops` is reachable, `stopVertex` keeps its initial value `root`.
   */
  method BfsStopAt(g: seq<seq<int>>, root: int, source: int, stops: set<int>)
    returns (visited: set<int>, dist: map<int, nat>, stopVertex: int, order: seq<int>)
    requires ValidGraph(g) && IsVertex(g, source)
    ensures visited == dist.Keys && source in dist && dist[source] == 0
    ensures forall v :: v in dist ==> IsVertex(g, v) && ReachIn(g, {source}, v, dist[v])
    ensures |order| >= 1 && order[0] == source && forall v :: v in visited <==> v in order
    ensures forall i, j :: 0 <= i < j < |order| ==> order[i] != order[j]
    ensures StopReachable(g, {source}, stops) ==>
              && stopVertex in stops && stopVertex in dist
              && IsShortest(g, {source}, stopVertex, dist[stopVertex])
              && (forall x, k: nat :: x in stops && ReachIn(g, {source}, x, k) ==> dist[stopVertex] <= k)
              && (exists i :: 0 <= i < |order| && order[i] == stopVertex &&
                               forall j :: 0 <= j < i ==> order[j] !in stops)
    ensures !StopReachable(g, {source}, stops) ==> stopVertex == root
    ensures source in stops ==> stopVertex == source
  {
    var h: nat;
    ghost var parent, pos;
    visited, dist, stopVertex, order, h, parent, pos := StopSearch(g, root, [source], stops);
    StopConclusions(g, root, source, order, h, visited, dist, parent, pos, stops, stopVertex);
  }
}

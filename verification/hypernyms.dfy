/**
  The hypernym graph WordNet.java builds from the lines of the hypernym
  file: each line names a synset followed by its hypernyms. A line with a
  synset alone marks the root; every other line adds one edge per hypernym
  with `Digraph.addEdge`, which rejects an endpoint outside the graph and
  puts the new edge in front of the synset's list (algs4 `Bag` order).
 */
module Hypernyms {
  import opened Wrappers
  import opened Digraph

  /** One parsed line of the hypernym file: `synset,hypernym,hypernym,...`. */
  datatype Line = Line(synset: int, hypernyms: seq<int>)

  /** The `IllegalArgumentException` of `addEdge` for an endpoint outside the graph. */
  datatype GraphError = InvalidVertex(vertex: int)

  /** The graph and the root the constructor hands to `ShortestCommonAncestor`. */
  datatype Hierarchy = Hierarchy(graph: seq<seq<int>>, root: int)

  /** The elements of `s` in the opposite order. */
  function Reverse(s: seq<int>): (r: seq<int>)
    ensures |r| == |s|
    ensures forall i :: 0 <= i < |s| ==> r[i] == s[|s| - 1 - i]
  {
    if s == [] then [] else Reverse(s[1..]) + [s[0]]
  }

  lemma {:induction false} ReverseAppend(a: seq<int>, b: seq<int>)
    ensures Reverse(a + b) == Reverse(b) + Reverse(a)
  {
    var r, s := Reverse(a + b), Reverse(b) + Reverse(a);
    assert |r| == |s|;
    forall i | 0 <= i < |r|
      ensures r[i] == s[i]
    {
      if i < |b| {
        assert r[i] == (a + b)[|a| + |b| - 1 - i];
      }
    }
  }

  /**
    A line the constructor accepts: a root line, whose synset is never
    checked, or a line whose synset and hypernyms are all vertices of a
    graph of `n` vertices.
   */
  ghost predicate LineValid(n: int, line: Line) {
    line.hypernyms == [] ||
    (0 <= line.synset < n && forall j :: 0 <= j < |line.hypernyms| ==> 0 <= line.hypernyms[j] < n)
  }

  /** `x` is an endpoint `addEdge` receives from `line` and rejects in a graph of `n` vertices. */
  ghost predicate BadEndpoint(n: int, line: Line, x: int) {
    !(0 <= x < n) && line.hypernyms != [] && (x == line.synset || x in line.hypernyms)
  }

  /** The hypernyms the lines give `v`, in file order. */
  function HypernymsOf(lines: seq<Line>, v: int): seq<int> {
    if lines == [] then []
    else
      var last := lines[|lines| - 1];
      HypernymsOf(lines[..|lines| - 1], v) + (if last.synset == v then last.hypernyms else [])
  }

  /**
    `addEdge(v, w)` for each `w` of `ws` in turn: `v` and then `w` are
    validated before each edge is put in front of `g[v]`.
   */
  function AddEdges(g: seq<seq<int>>, v: int, ws: seq<int>): (r: Result<seq<seq<int>>, GraphError>)
    ensures r.Success? <==> ws == [] || (IsVertex(g, v) && forall j :: 0 <= j < |ws| ==> IsVertex(g, ws[j]))
    ensures r.Failure? ==>
      ws != [] && !IsVertex(g, r.error.vertex) && (r.error.vertex == v || r.error.vertex in ws)
    ensures r.Success? ==> |r.value| == |g|
    ensures r.Success? ==> forall u :: 0 <= u < |g| && u != v ==> r.value[u] == g[u]
    ensures r.Success? && IsVertex(g, v) ==> r.value[v] == Reverse(ws) + g[v]
    decreases |ws|
  {
    if ws == [] then Success(g)
    else if !(0 <= v < |g|) then Failure(InvalidVertex(v))
    else if !(0 <= ws[0] < |g|) then Failure(InvalidVertex(ws[0]))
    else
      var r := AddEdges(g[v := [ws[0]] + g[v]], v, ws[1..]);
      assert ws == [ws[0]] + ws[1..];
      if r.Success? then
        assert r.value[v] == Reverse(ws[1..]) + [ws[0]] + g[v];
        r
      else r
  }

  /**
    The hypernym loop of the constructor (lines 53 to 67) over the first
    lines of the file, from a graph of `n` vertices without edges and the
    root -1. The root line's synset becomes the root before any edge of the
    line is added; the first rejected endpoint ends the constructor.
   */
  function ReadHypernyms(n: nat, lines: seq<Line>): (r: Result<Hierarchy, GraphError>)
    ensures r.Success? <==> forall i :: 0 <= i < |lines| ==> LineValid(n, lines[i])
    ensures r.Success? ==> |r.value.graph| == n
  {
    if lines == [] then
      Success(Hierarchy(seq(n, v => []), -1))
    else
      var m := |lines| - 1;
      var line := lines[m];
      assert forall i :: 0 <= i < m ==> lines[..m][i] == lines[i];
      match ReadHypernyms(n, lines[..m])
      case Failure(e) => Failure(e)
      case Success(h) =>
        match AddEdges(h.graph, line.synset, line.hypernyms)
        case Failure(e) => Failure(e)
        case Success(g) => Success(Hierarchy(g, if line.hypernyms == [] then line.synset else h.root))
  }

  /** One step of the loop: an accepted file is an accepted prefix followed by its last line. */
  lemma ReadStep(n: nat, lines: seq<Line>)
    requires lines != [] && ReadHypernyms(n, lines).Success?
    ensures ReadHypernyms(n, lines[..|lines| - 1]).Success?
    ensures var h := ReadHypernyms(n, lines[..|lines| - 1]).value;
            var last := lines[|lines| - 1];
            && AddEdges(h.graph, last.synset, last.hypernyms).Success?
            && ReadHypernyms(n, lines).value
               == Hierarchy(AddEdges(h.graph, last.synset, last.hypernyms).value,
                            if last.hypernyms == [] then last.synset else h.root)
  {
  }

  /** A rejected file names an endpoint that some line hands to `addEdge` and that is no vertex. */
  lemma {:induction false} ReadRejects(n: nat, lines: seq<Line>)
    requires ReadHypernyms(n, lines).Failure?
    ensures exists i :: 0 <= i < |lines| && BadEndpoint(n, lines[i], ReadHypernyms(n, lines).error.vertex)
  {
    var m := |lines| - 1;
    var x := ReadHypernyms(n, lines).error.vertex;
    if ReadHypernyms(n, lines[..m]).Failure? {
      ReadRejects(n, lines[..m]);
      var i :| 0 <= i < m && BadEndpoint(n, lines[..m][i], x);
      assert lines[..m][i] == lines[i];
    } else {
      assert BadEndpoint(n, lines[m], x);
    }
  }

  /** `adj(v)` lists the hypernyms the file gives `v`, last first. */
  lemma {:induction false} ReadAdjacency(n: nat, lines: seq<Line>, v: int)
    requires ReadHypernyms(n, lines).Success? && 0 <= v < n
    ensures ReadHypernyms(n, lines).value.graph[v] == Reverse(HypernymsOf(lines, v))
  {
    if lines != [] {
      var m := |lines| - 1;
      var line := lines[m];
      ReadStep(n, lines);
      var h := ReadHypernyms(n, lines[..m]);
      var g := AddEdges(h.value.graph, line.synset, line.hypernyms);
      ReadAdjacency(n, lines[..m], v);
      var before := HypernymsOf(lines[..m], v);
      if v == line.synset {
        assert HypernymsOf(lines, v) == before + line.hypernyms;
        assert g.value[v] == Reverse(line.hypernyms) + Reverse(before);
        ReverseAppend(before, line.hypernyms);
      } else {
        assert HypernymsOf(lines, v) == before + [];
        assert g.value[v] == h.value.graph[v];
      }
    }
  }

  /** The synset of the last root line, or -1. */
  function LastRoot(lines: seq<Line>): int {
    if lines == [] then -1
    else if lines[|lines| - 1].hypernyms == [] then lines[|lines| - 1].synset
    else LastRoot(lines[..|lines| - 1])
  }

  lemma {:induction false} LastRootLine(lines: seq<Line>) returns (i: int)
    ensures -1 <= i < |lines|
    ensures forall k :: i < k < |lines| ==> lines[k].hypernyms != []
    ensures i == -1 ==> LastRoot(lines) == -1
    ensures i >= 0 ==> lines[i].hypernyms == [] && lines[i].synset == LastRoot(lines)
  {
    if lines == [] {
      i := -1;
    } else if lines[|lines| - 1].hypernyms == [] {
      i := |lines| - 1;
    } else {
      var m := |lines| - 1;
      i := LastRootLine(lines[..m]);
      forall k | i < k < |lines|
        ensures lines[k].hypernyms != []
      {
        if k < m {
          assert lines[..m][k] == lines[k];
        }
      }
      if i >= 0 {
        assert lines[..m][i] == lines[i];
      }
    }
  }

  lemma {:induction false} ReadRootIsLast(n: nat, lines: seq<Line>)
    requires ReadHypernyms(n, lines).Success?
    ensures ReadHypernyms(n, lines).value.root == LastRoot(lines)
  {
    if lines != [] {
      ReadStep(n, lines);
      ReadRootIsLast(n, lines[..|lines| - 1]);
    }
  }

  /**
    The root is the synset of the last root line `i`, or -1 when the file
    has none (`i == -1`).
   */
  lemma ReadRoot(n: nat, lines: seq<Line>) returns (i: int)
    requires ReadHypernyms(n, lines).Success?
    ensures -1 <= i < |lines|
    ensures forall k :: i < k < |lines| ==> lines[k].hypernyms != []
    ensures i == -1 ==> ReadHypernyms(n, lines).value.root == -1
    ensures i >= 0 ==> lines[i].hypernyms == [] && lines[i].synset == ReadHypernyms(n, lines).value.root
  {
    ReadRootIsLast(n, lines);
    i := LastRootLine(lines);
  }

  lemma {:induction false} HypernymsOfMembers(lines: seq<Line>, v: int, w: int)
    ensures w in HypernymsOf(lines, v) <==>
      exists i :: 0 <= i < |lines| && lines[i].synset == v && w in lines[i].hypernyms
  {
    if lines != [] {
      var m := |lines| - 1;
      HypernymsOfMembers(lines[..m], v, w);
      if exists i :: 0 <= i < |lines| && lines[i].synset == v && w in lines[i].hypernyms {
        var i :| 0 <= i < |lines| && lines[i].synset == v && w in lines[i].hypernyms;
        if i < m {
          assert lines[..m][i] == lines[i];
        }
      }
    }
  }

  /** `v -> w` is an edge exactly when some line of `v` lists `w`. */
  lemma HypernymEdges(n: nat, lines: seq<Line>, v: int, w: int)
    requires ReadHypernyms(n, lines).Success? && 0 <= v < n
    ensures w in ReadHypernyms(n, lines).value.graph[v] <==>
      exists i :: 0 <= i < |lines| && lines[i].synset == v && w in lines[i].hypernyms
  {
    ReadAdjacency(n, lines, v);
    HypernymsOfMembers(lines, v, w);
    var s := HypernymsOf(lines, v);
    if w in s {
      var k :| 0 <= k < |s| && s[k] == w;
      assert Reverse(s)[|s| - 1 - k] == w;
    }
  }

  /** Every edge of an accepted file joins two vertices of the graph. */
  lemma AcceptedGraphValid(n: nat, lines: seq<Line>)
    requires ReadHypernyms(n, lines).Success?
    ensures ValidGraph(ReadHypernyms(n, lines).value.graph)
  {
    var g := ReadHypernyms(n, lines).value.graph;
    forall v, k | 0 <= v < |g| && 0 <= k < |g[v]|
      ensures 0 <= g[v][k] < |g|
    {
      HypernymEdges(n, lines, v, g[v][k]);
      var i :| 0 <= i < |lines| && lines[i].synset == v && g[v][k] in lines[i].hypernyms;
      assert LineValid(n, lines[i]);
    }
  }
}

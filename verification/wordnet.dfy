/**
  WordNet.java: the synset table, the hypernym graph with its root, and the
  sorted noun index, built once by the constructor; `isNoun`, `synsetIDs`,
  `distance` and `sca` answer queries on nouns by handing their synsets to
  the shortest-common-ancestor engine.

  Synset `i` is the `i`-th line of the synset file, and `synsets[i]` holds
  its nouns as the constructor splits them on spaces.
 */
module WordNet {
  import opened Wrappers
  import opened Digraph
  import opened JavaString
  import opened NounIndex
  import opened Hypernyms
  // The queries' module under another name: `Sca` is also the name of the method modelling `sca` below.
  import Engine = Sca

  /** A constructed `WordNet` object: the synset table, the hypernym graph and its root, and the noun index. */
  datatype Net = Net(synsets: seq<seq<string>>, graph: seq<seq<int>>, root: int, nouns: seq<string>)

  /** No noun of any synset has a blank or control character: an assumption about the synset file, since `split(" ")` removes only spaces. */
  ghost predicate NounsPrintable(synsets: seq<seq<string>>) {
    forall i, j :: 0 <= i < |synsets| && 0 <= j < |synsets[i]| ==> Printable(synsets[i][j])
  }

  /**
    What the constructor establishes: one vertex per synset, edges between
    vertices only, and the index holding, sorted, the entry of every noun
    of every synset.
   */
  ghost predicate Valid(wn: Net) {
    && NounsPrintable(wn.synsets)
    && |wn.graph| == |wn.synsets|
    && ValidGraph(wn.graph)
    && ValidIndex(wn.nouns)
    && Sorted(wn.nouns)
    && multiset(wn.nouns) == multiset(Entries(wn.synsets))
  }

  /** The synsets holding `word`: the vertex set a query on `word` starts from. */
  ghost function SynsetsOf(wn: Net, word: string): set<int> {
    set id | 0 <= id < |wn.synsets| && word in wn.synsets[id]
  }

  /** Every entry of a permutation of the synset entries is well formed. */
  lemma IndexWellFormed(synsets: seq<seq<string>>, nouns: seq<string>)
    requires NounsPrintable(synsets) && multiset(nouns) == multiset(Entries(synsets))
    ensures ValidIndex(nouns)
  {
    forall k | 0 <= k < |nouns|
      ensures WellFormed(nouns[k])
    {
      assert nouns[k] in multiset(Entries(synsets));
      var i, j := EntriesSound(synsets, nouns[k]);
      EntryParts(synsets[i][j], i);
    }
  }

  /** The entry at position `k` files a noun of a synset under that synset's id. */
  lemma EntrySound(wn: Net, k: nat) returns (j: nat)
    requires Valid(wn) && k < |wn.nouns|
    ensures IdOf(wn.nouns[k]) < |wn.synsets|
    ensures j < |wn.synsets[IdOf(wn.nouns[k])]| && wn.synsets[IdOf(wn.nouns[k])][j] == Token(wn.nouns[k])
  {
    assert wn.nouns[k] in multiset(Entries(wn.synsets));
    var i, j' := EntriesSound(wn.synsets, wn.nouns[k]);
    EntryParts(wn.synsets[i][j'], i);
    j := j';
  }

  /** Every noun of every synset has an entry in the index. */
  lemma EntryComplete(wn: Net, id: nat, j: nat) returns (k: nat)
    requires Valid(wn) && id < |wn.synsets| && j < |wn.synsets[id]|
    ensures k < |wn.nouns| && Token(wn.nouns[k]) == wn.synsets[id][j] && IdOf(wn.nouns[k]) == id
  {
    var word := wn.synsets[id][j];
    EntriesComplete(wn.synsets, id, j);
    assert Entry(word, id) in multiset(wn.nouns);
    var k' :| 0 <= k' < |wn.nouns| && wn.nouns[k'] == Entry(word, id);
    EntryParts(word, id);
    k := k';
  }

  /** An index entry filing `word` under `id` comes from synset `id`. */
  lemma IndexSound(wn: Net, word: string, id: int)
    requires Valid(wn)
    ensures (exists k :: 0 <= k < |wn.nouns| && Tokens(wn.nouns)[k] == word && Ids(wn.nouns)[k] == id)
        ==> id in SynsetsOf(wn, word)
  {
    var tokens, ids := Tokens(wn.nouns), Ids(wn.nouns);
    if exists k :: 0 <= k < |wn.nouns| && tokens[k] == word && ids[k] == id {
      var k :| 0 <= k < |wn.nouns| && tokens[k] == word && ids[k] == id;
      EntryInSynset(wn, k);
    }
  }

  /** The synset an entry is filed under holds the entry's noun. */
  lemma EntryInSynset(wn: Net, k: nat)
    requires Valid(wn) && k < |wn.nouns|
    ensures Ids(wn.nouns)[k] in SynsetsOf(wn, Tokens(wn.nouns)[k])
  {
    var j := EntrySound(wn, k);
    var id, word := IdOf(wn.nouns[k]), Token(wn.nouns[k]);
    assert wn.synsets[id][j] == word;
    assert id in SynsetsOf(wn, word);
  }

  /** Synset `id` holding `word` has an index entry filing `word` under `id`. */
  lemma IndexComplete(wn: Net, word: string, id: int)
    requires Valid(wn)
    ensures id in SynsetsOf(wn, word)
        ==> exists k :: 0 <= k < |wn.nouns| && Tokens(wn.nouns)[k] == word && Ids(wn.nouns)[k] == id
  {
    if id in SynsetsOf(wn, word) {
      var j :| 0 <= j < |wn.synsets[id]| && wn.synsets[id][j] == word;
      var k := EntryComplete(wn, id, j);
      assert Tokens(wn.nouns)[k] == word && Ids(wn.nouns)[k] == id;
    }
  }

  /** Position `k` of the index files `word` under synset `id` exactly when synset `id` holds `word`. */
  lemma IndexMeaning(wn: Net, word: string, id: int)
    requires Valid(wn)
    ensures (exists k :: 0 <= k < |wn.nouns| && Tokens(wn.nouns)[k] == word && Ids(wn.nouns)[k] == id)
        <==> id in SynsetsOf(wn, word)
  {
    IndexSound(wn, word, id);
    IndexComplete(wn, word, id);
  }

  /** A token of the index is a noun of some synset, and the other way round. */
  lemma ListedMeaning(wn: Net, word: string)
    requires Valid(wn)
    ensures word in Tokens(wn.nouns) <==> SynsetsOf(wn, word) != {}
  {
    var tokens, ids := Tokens(wn.nouns), Ids(wn.nouns);
    if word in tokens {
      var k :| 0 <= k < |tokens| && tokens[k] == word;
      IndexMeaning(wn, word, ids[k]);
    }
    if SynsetsOf(wn, word) != {} {
      var id :| id in SynsetsOf(wn, word);
      IndexMeaning(wn, word, id);
    }
  }

  /** The ids the index files under `word` are the synsets holding `word`. */
  lemma MatchingMeaning(wn: Net, word: string)
    requires Valid(wn)
    ensures Members(MatchingIds(Tokens(wn.nouns), Ids(wn.nouns), word)) == SynsetsOf(wn, word)
  {
    var tokens, ids := Tokens(wn.nouns), Ids(wn.nouns);
    forall id: int
      ensures id in MatchingIds(tokens, ids, word) <==> id in SynsetsOf(wn, word)
    {
      if id >= 0 {
        MatchingBelowMembers(tokens, ids, word, |tokens|, id);
      }
      IndexMeaning(wn, word, id);
    }
  }

  /**
    The constructor on the parsed synset and hypernym files: the graph has
    one vertex per synset, the hypernym lines give its edges and root, and
    `extractNouns` builds the index. A line naming a vertex outside the
    graph ends it with `addEdge`'s exception.
   */
  method Build(synsets: seq<seq<string>>, lines: seq<Line>) returns (r: Result<Net, GraphError>)
    requires NounsPrintable(synsets)
    ensures r.Success? <==> forall i :: 0 <= i < |lines| ==> LineValid(|synsets|, lines[i])
    ensures r.Failure? ==> ReadHypernyms(|synsets|, lines) == Failure(r.error)
    ensures r.Success? ==> Valid(r.value) && r.value.synsets == synsets
    ensures r.Success? ==> ReadHypernyms(|synsets|, lines) == Success(Hierarchy(r.value.graph, r.value.root))
  {
    var h := ReadHypernyms(|synsets|, lines);
    if h.Failure? {
      return Failure(h.error);
    }
    AcceptedGraphValid(|synsets|, lines);
    var nouns := ExtractNouns(synsets);
    IndexWellFormed(synsets, nouns);
    return Success(Net(synsets, h.value.graph, h.value.root, nouns));
  }

  /** `isNoun(word)`: whether some synset holds `word`. */
  method IsNoun(wn: Net, word: string) returns (b: bool)
    requires Valid(wn)
    ensures b <==> SynsetsOf(wn, word) != {}
  {
    SortedEntriesSortTokens(wn.nouns);
    ListedMeaning(wn, word);
    b := NounIndex.IsNoun(wn.nouns, word);
  }

  /** `noun` is a word of some synset, and no word of any synset sorts before it. */
  ghost predicate SortsFirst(wn: Net, noun: string) {
    && SynsetsOf(wn, noun) != {}
    && forall i, j :: 0 <= i < |wn.synsets| && 0 <= j < |wn.synsets[i]| ==> CompareTo(noun, wn.synsets[i][j]) <= 0
  }

  /** `noun` is a word of some synset, and no word of any synset sorts after it. */
  ghost predicate SortsLast(wn: Net, noun: string) {
    && SynsetsOf(wn, noun) != {}
    && forall i, j :: 0 <= i < |wn.synsets| && 0 <= j < |wn.synsets[i]| ==> CompareTo(noun, wn.synsets[i][j]) >= 0
  }

  /** The first entry of the index files the word that sorts first. */
  lemma FirstMeaning(wn: Net, noun: string)
    requires Valid(wn)
    ensures (|wn.nouns| > 0 && Tokens(wn.nouns)[0] == noun) <==> SortsFirst(wn, noun)
  {
    var tokens := Tokens(wn.nouns);
    SortedEntriesSortTokens(wn.nouns);
    ListedMeaning(wn, noun);
    if |wn.nouns| > 0 && tokens[0] == noun {
      forall i, j | 0 <= i < |wn.synsets| && 0 <= j < |wn.synsets[i]|
        ensures CompareTo(noun, wn.synsets[i][j]) <= 0
      {
        var k := EntryComplete(wn, i, j);
        assert tokens[k] == wn.synsets[i][j];
      }
    }
    if SortsFirst(wn, noun) {
      var k :| 0 <= k < |tokens| && tokens[k] == noun;
      var j := EntrySound(wn, 0);
      assert CompareTo(noun, tokens[0]) <= 0 && CompareTo(tokens[0], noun) <= 0;
      CompareAntisymmetric(noun, tokens[0]);
      CompareZeroIff(noun, tokens[0]);
    }
  }

  /** In sorted tokens, every token sorts at or before the last one. */
  lemma BelowLast(tokens: seq<string>, k: nat)
    requires Sorted(tokens) && k < |tokens|
    ensures CompareTo(tokens[k], tokens[|tokens| - 1]) <= 0
    ensures CompareTo(tokens[|tokens| - 1], tokens[k]) >= 0
  {
    if k < |tokens| - 1 {
      assert CompareTo(tokens[k], tokens[|tokens| - 1]) <= 0;
    }
    CompareAntisymmetric(tokens[k], tokens[|tokens| - 1]);
  }

  /** The word of the last entry sorts after every word of every synset. */
  lemma LastSortsLast(wn: Net)
    requires Valid(wn) && |wn.nouns| > 0
    ensures SortsLast(wn, Tokens(wn.nouns)[|wn.nouns| - 1])
  {
    var tokens := Tokens(wn.nouns);
    var noun := tokens[|wn.nouns| - 1];
    SortedEntriesSortTokens(wn.nouns);
    ListedMeaning(wn, noun);
    forall i, j | 0 <= i < |wn.synsets| && 0 <= j < |wn.synsets[i]|
      ensures CompareTo(noun, wn.synsets[i][j]) >= 0
    {
      var k := EntryComplete(wn, i, j);
      BelowLast(tokens, k);
    }
  }

  /** In sorted tokens, a token sorting at or after the last one is the last one. */
  lemma LastOfSorted(tokens: seq<string>, k: nat)
    requires Sorted(tokens) && k < |tokens|
    requires CompareTo(tokens[k], tokens[|tokens| - 1]) >= 0
    ensures tokens[|tokens| - 1] == tokens[k]
  {
    BelowLast(tokens, k);
    CompareZeroIff(tokens[k], tokens[|tokens| - 1]);
  }

  /** A word that sorts last is the word of the last entry. */
  lemma SortsLastIsLast(wn: Net, noun: string)
    requires Valid(wn) && SortsLast(wn, noun)
    ensures |wn.nouns| > 0 && Tokens(wn.nouns)[|wn.nouns| - 1] == noun
  {
    var id0 :| id0 in SynsetsOf(wn, noun);
    var j0 :| 0 <= j0 < |wn.synsets[id0]| && wn.synsets[id0][j0] == noun;
    var k := EntryComplete(wn, id0, j0);
    var n := |wn.nouns|;
    var j := EntrySound(wn, n - 1);
    var tokens := Tokens(wn.nouns);
    assert CompareTo(tokens[k], tokens[n - 1]) >= 0;
    SortedEntriesSortTokens(wn.nouns);
    LastOfSorted(tokens, k);
  }

  /** The last entry of the index files the word that sorts last. */
  lemma LastMeaning(wn: Net, noun: string)
    requires Valid(wn)
    ensures (|wn.nouns| > 0 && Tokens(wn.nouns)[|wn.nouns| - 1] == noun) <==> SortsLast(wn, noun)
  {
    if |wn.nouns| > 0 {
      LastSortsLast(wn);
    }
    if SortsLast(wn, noun) {
      SortsLastIsLast(wn, noun);
    }
  }

  /**
    What `synsetIDs(noun)` answers, in terms of the synsets: "Noun not in
    WordNet" when no synset holds `noun`, the scans' overrun when `noun`
    sorts first or last among all the words, and otherwise the synsets
    holding `noun`.
   */
  ghost function Lookup(wn: Net, noun: string): Result<set<int>, IdsError> {
    if SynsetsOf(wn, noun) == {} then Failure(NotANoun)
    else if SortsFirst(wn, noun) || SortsLast(wn, noun) then Failure(OutOfBounds)
    else Success(SynsetsOf(wn, noun))
  }

  /**
    `synsetIDs(noun)` as written: the synsets holding `noun`, the "Noun not
    in WordNet" error, or the overrun of a scan that runs past the first or
    the last entry of the index.
   */
  method SynsetIds(wn: Net, noun: string) returns (r: Result<seq<int>, IdsError>)
    requires Valid(wn)
    ensures r == Failure(NotANoun) <==> SynsetsOf(wn, noun) == {}
    ensures r == Failure(OutOfBounds) <==> SortsFirst(wn, noun) || SortsLast(wn, noun)
    ensures r.Success? ==> Members(r.value) == SynsetsOf(wn, noun)
  {
    SortedEntriesSortTokens(wn.nouns);
    ListedMeaning(wn, noun);
    MatchingMeaning(wn, noun);
    FirstMeaning(wn, noun);
    LastMeaning(wn, noun);
    var ids := NounIndex.SynsetIdsAsWritten(wn.nouns, noun);
    match ids
    case Failure(e) =>
      return Failure(e);
    case Success(v) =>
      var matching := MatchingIds(Tokens(wn.nouns), Ids(wn.nouns), noun);
      assert forall x :: x in v <==> x in multiset(v);
      assert forall x :: x in matching <==> x in multiset(matching);
      return Success(v);
  }

  /** `synsetIDs` fails or succeeds as `Lookup` says, with the same error or the same synsets. */
  lemma LookupAgrees(wn: Net, noun: string, r: Result<seq<int>, IdsError>)
    requires r == Failure(NotANoun) <==> SynsetsOf(wn, noun) == {}
    requires r == Failure(OutOfBounds) <==> SortsFirst(wn, noun) || SortsLast(wn, noun)
    requires r.Success? ==> Members(r.value) == SynsetsOf(wn, noun)
    ensures r.Failure? <==> Lookup(wn, noun).Failure?
    ensures r.Failure? ==> r.error == Lookup(wn, noun).error
    ensures r.Success? ==> Lookup(wn, noun) == Success(Members(r.value))
  {
    if r.Failure? {
      assert r.error == NotANoun || r.error == OutOfBounds;
    }
  }

  /** Every id `synsetIDs` returns is a vertex of the graph. */
  lemma SynsetsAreVertices(wn: Net, word: string, ids: seq<int>)
    requires Valid(wn) && Members(ids) == SynsetsOf(wn, word)
    ensures forall i :: 0 <= i < |ids| ==> IsVertex(wn.graph, ids[i])
  {
    forall i | 0 <= i < |ids|
      ensures IsVertex(wn.graph, ids[i])
    {
      assert ids[i] in Members(ids);
    }
  }

  /**
    `distance(noun1, noun2)`: the length of a shortest ancestral path
    between the synsets of the two nouns, or the vertex count exactly when
    they have no common ancestor. `noun1` is looked up first, so its
    failure is the one reported.
   */
  method Distance(wn: Net, noun1: string, noun2: string) returns (r: Result<int, IdsError>)
    requires Valid(wn)
    ensures r.Success? <==> Lookup(wn, noun1).Success? && Lookup(wn, noun2).Success?
    ensures r.Failure? ==>
      r.error == (if Lookup(wn, noun1).Failure? then Lookup(wn, noun1).error else Lookup(wn, noun2).error)
    ensures r.Success? ==>
      Engine.CappedShortest(wn.graph, SynsetsOf(wn, noun1), SynsetsOf(wn, noun2), |wn.graph|, r.value)
    ensures r.Success? ==>
      (Engine.HaveCommonAncestor(wn.graph, SynsetsOf(wn, noun1), SynsetsOf(wn, noun2)) <==> r.value < |wn.graph|)
  {
    var a := SynsetIds(wn, noun1);
    LookupAgrees(wn, noun1, a);
    if a.Failure? {
      return Failure(a.error);
    }
    var b := SynsetIds(wn, noun2);
    LookupAgrees(wn, noun2, b);
    if b.Failure? {
      return Failure(b.error);
    }
    SynsetsAreVertices(wn, noun1, a.value);
    SynsetsAreVertices(wn, noun2, b.value);
    var sca, len := Engine.SetQuery(wn.graph, wn.root, a.value, b.value);
    return Success(len);
  }

  /**
    `sca(noun1, noun2)`: the nouns of a common ancestor on a shortest
    ancestral path between the synsets of the two nouns. Without a common
    ancestor the engine answers the root, and `synsetTable.get` of a root
    outside the table (-1 when the hypernym file has no root line) is null.
   */
  method Sca(wn: Net, noun1: string, noun2: string) returns (r: Result<Option<seq<string>>, IdsError>)
    requires Valid(wn)
    ensures r.Success? <==> Lookup(wn, noun1).Success? && Lookup(wn, noun2).Success?
    ensures r.Failure? ==>
      r.error == (if Lookup(wn, noun1).Failure? then Lookup(wn, noun1).error else Lookup(wn, noun2).error)
    ensures r.Success? && Engine.HaveCommonAncestor(wn.graph, SynsetsOf(wn, noun1), SynsetsOf(wn, noun2)) ==>
      exists x, len :: len < |wn.graph| &&
        Engine.CappedShortest(wn.graph, SynsetsOf(wn, noun1), SynsetsOf(wn, noun2), |wn.graph|, len) &&
        Engine.AncestralPath(wn.graph, SynsetsOf(wn, noun1), SynsetsOf(wn, noun2), x, len) &&
        0 <= x < |wn.synsets| && r.value == Some(wn.synsets[x])
    ensures r.Success? && !Engine.HaveCommonAncestor(wn.graph, SynsetsOf(wn, noun1), SynsetsOf(wn, noun2)) ==>
      r.value == (if 0 <= wn.root < |wn.synsets| then Some(wn.synsets[wn.root]) else None)
  {
    var a := SynsetIds(wn, noun1);
    LookupAgrees(wn, noun1, a);
    if a.Failure? {
      return Failure(a.error);
    }
    var b := SynsetIds(wn, noun2);
    LookupAgrees(wn, noun2, b);
    if b.Failure? {
      return Failure(b.error);
    }
    SynsetsAreVertices(wn, noun1, a.value);
    SynsetsAreVertices(wn, noun2, b.value);
    var sca, len := Engine.SetQuery(wn.graph, wn.root, a.value, b.value);
    if len < |wn.graph| {
      AncestorIsVertex(wn, Members(a.value), Members(b.value), sca, len);
    }
    if 0 <= sca < |wn.synsets| {
      return Success(Some(wn.synsets[sca]));
    }
    return Success(None);
  }

  /** The ancestor of an ancestral path between vertex sets is a vertex. */
  lemma AncestorIsVertex(wn: Net, A: set<int>, B: set<int>, x: int, len: int)
    requires Valid(wn) && forall v :: v in A ==> IsVertex(wn.graph, v)
    requires Engine.AncestralPath(wn.graph, A, B, x, len)
    ensures 0 <= x < |wn.synsets|
  {
    var da: nat, db: nat :| IsShortest(wn.graph, A, x, da) && IsShortest(wn.graph, B, x, db) && len == da + db;
    ReachIsVertex(wn.graph, A, x, da);
  }
}

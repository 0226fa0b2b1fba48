# WordNet shortest common ancestors, in Dafny

A model of a WordNet query engine:

- `ShortestCommonAncestor` answers "nearest common hypernym" questions on a
  digraph of synsets. It runs breadth-first searches over hypernym edges.
- `WordNet` builds that digraph and a sorted noun index from the synset
  and hypernym files. It answers `isNoun`, `synsetIDs`, `distance` and `sca`.
- `Outcast` picks, from a list of nouns, the one farthest in total from
  the others.

The model is a set of modules that follow these classes:

| module | models |
|---|---|
| `Digraph` | the adjacency-list graph; reachability within `k` hops (`ReachIn`) and shortest distances (`IsShortest`), the reference every search is proved against |
| `Bfs` | the three searches of `BFSPath`: single-source `bfs`, multi-source `bfs`, early-stopping `bfsStopAt` |
| `Sca` | `length`/`ancestor` for a pair of vertices and for two vertex sets; the root comes from `setRoot` and is a parameter |
| `JavaString` | `String.compareTo` and the order `Arrays.sort` gives an array of strings |
| `Decimal` | how a synset id is written into an index entry and read back |
| `NounIndex` | `extractNouns`, the binary search of `isNoun`, and the scans of `synsetIDs` |
| `Hypernyms` | the constructor's hypernym loop: edges, root line, and `addEdge`'s rejection of unknown vertices |
| `WordNet` | the constructor, and `isNoun`, `synsetIDs`, `distance` and `sca` in terms of the synsets holding a noun |
| `Outcast` | `outcast`, with the noun distance as a parameter |

Some choices in how the Java is modelled:

- **The BFS queue.** It is the whole enqueue history `order` plus the
  number `h` of dequeues; the live queue is `order[h..]`.
- **`HashSet` iteration order.** It is unspecified, so `Sca.Enumerate`
  picks an arbitrary order. Every contract about the set queries holds
  whatever that order is.
- **Exceptions.** They become `Result` failures:
  - `IdsError.NotANoun` is the "Noun not in WordNet" exception.
  - `IdsError.OutOfBounds` is the array overrun of `synsetIDs`, which
    `distance` and `sca` pass on.
  - `GraphError.InvalidVertex` is `addEdge`'s exception.
  - `LengthError.MissingDistance` is the null unboxing in the pair `length`.
  - `OutcastError.NoNouns` is the empty-array overrun in `outcast`.

What the code does where its comments say less, or something else; the
model follows the code:

- **The pair query.** The comment on `length(v, w)`
  (ShortestCommonAncestor.java:36-46) calls its result the length of the
  shortest common ancestral path. The code stops at the common ancestor
  nearest to `w`, and that ancestor need not minimise the total length
  (see Findings).
- **Common ancestors.** The code does not assume that two vertices have
  one, and neither does the model:
  - The set queries fall back to the root and `V`. They return `V`
    exactly when there is no common ancestor: a least ancestral path
    visits `len + 1` distinct vertices, so it is always shorter than `V`
    (`Sca.CommonAncestorShort`).
  - The pair `length` fails on a missing distance.
- **`synsetIDs` at the ends of the index.** The scans of
  WordNet.java:154-158 read past the array for a noun that sorts first or
  last among all nouns. `WordNet.SynsetIds`, `WordNet.Distance` and
  `WordNet.Sca` keep that failure (`OutOfBounds`); the bounded scans
  appear only in `NounIndex.SynsetIds` (see Findings).
- **Outcast distances.** The comment (Outcast.java:21-23) sums the
  distances "between each noun and all the others". The code asks for the
  distance of every ordered pair of distinct positions, so each pair is
  looked up in both directions, and a noun repeated at another position
  is counted.

## Model

| member | source | states |
|---|---|---|
| Bfs.BfsFrom | ShortestCommonAncestor.java:211-227 | The source is visited at distance 0. Every recorded distance is the shortest hop count from the source. Every vertex reachable from the source is visited. Distances stay below the vertex count. |
| Bfs.Bfs | ShortestCommonAncestor.java:241-259 | Every source is at distance 0. Visited vertices are exactly the keys of `distTo`, and the set is closed under edges. Each distance is the shortest from the source set, and everything reachable is visited. Each visited non-source vertex was discovered from a parent one hop closer. Duplicated sources are enqueued as given; discovered vertices are enqueued once, after the sources, in non-decreasing distance. |
| Bfs.BfsStopAt | ShortestCommonAncestor.java:270-294 | If some stop vertex is reachable: `stopVertex` is the first stop dequeued, it is at shortest distance, and no reachable stop is nearer. Otherwise `stopVertex` is the root. A source that is itself a stop is returned at once. Every visited vertex is reachable at its recorded distance. |
| Bfs.Seed | ShortestCommonAncestor.java:243-247 | Enqueueing the sources at distance 0 establishes the search invariant, with the queue equal to the source list. |
| Bfs.Relax | ShortestCommonAncestor.java:249-257 | Expanding the queue head keeps the search invariant. It only appends to the queue, keeps recorded distances, and visits as many new vertices as it enqueues. |
| Bfs.Visit | ShortestCommonAncestor.java:251-256 | Looking at one out-neighbour of the head keeps the search invariant and all recorded distances. An unvisited neighbour is visited and enqueued once; afterwards the neighbour has a distance at most one more than the head's. |
| Bfs.Drain | ShortestCommonAncestor.java:241-259 | The queue loop runs until the queue is empty. Every recorded distance is then achieved by some path from the sources, and the visited set is exactly the set of vertices with a distance. |
| Bfs.StopStep | ShortestCommonAncestor.java:285-292 | Expanding a head that is not a stop vertex keeps the search invariant, dequeues no stop vertex, and keeps the visited set within the graph. |
| Bfs.StopSearch | ShortestCommonAncestor.java:279-293 | The stop loop ends either with an empty queue and `stopVertex == root`, or at a head in `stops`; no stop was dequeued earlier. |
| Bfs.ParentsReach | ShortestCommonAncestor.java:248-258 | At every point of the search, each recorded distance is achieved: the vertex is reachable from the sources in that many hops, through its chain of discovering parents. |
| Bfs.FinishShortest | ShortestCommonAncestor.java:248-258 | When the queue is empty, every recorded distance equals the reference shortest distance. |
| Bfs.FinishComplete | ShortestCommonAncestor.java:248-258 | When the queue is empty, every vertex reachable from the sources has been visited. |
| Bfs.FinishClosed | ShortestCommonAncestor.java:248-258 | When the queue is empty, the visited set is closed under out-edges, and each edge adds at most one hop. |
| Sca.AncestralPathSymmetric | ShortestCommonAncestor.java:78-101 | An ancestral path from A to B is one from B to A, with the same ancestor and length. |
| Sca.CappedShortestSymmetric | ShortestCommonAncestor.java:78-101 | Swapping the two vertex sets does not change the capped shortest length. |
| Sca.CappedShortestUnique | ShortestCommonAncestor.java:78-101 | The capped shortest length of two sets is unique. |
| Sca.Enumerate | ShortestCommonAncestor.java:303-310 | `getVisitedVertices` lists every visited vertex exactly once, in some order. |
| Sca.KeepInMembers | ShortestCommonAncestor.java:82-90 | The candidate queue holds exactly the vertices visited by both searches, and none twice. |
| Sca.CommonCandidates | ShortestCommonAncestor.java:82-90 | The nested loop with `break` enqueues each vertex of the first list that occurs in the second, in first-list order. |
| Sca.MinCandidate | ShortestCommonAncestor.java:91-99 | The result is the first candidate of least total distance strictly below the cap. If no candidate beats the cap, the length is the cap and the ancestor is the root. |
| Sca.CappedQuery | ShortestCommonAncestor.java:78-101 | The set `length` is the shortest ancestral path between the sets, capped at the given bound. Below the cap, `ancestor` is the common ancestor of that path; at the cap it is the root. |
| Sca.SetQuery | ShortestCommonAncestor.java:78-135 | The set `length` is `V` exactly when the sets have no common ancestor, and otherwise the length of a shortest ancestral path between them. Below `V`, `ancestor` is a common ancestor on such a path; at `V` it is the root. |
| Sca.ShortestChain | ShortestCommonAncestor.java:248-258 | A vertex at shortest distance `d` from a set ends a chain with one vertex at each shortest distance `0..d`. |
| Sca.MinimalAncestralPath | ShortestCommonAncestor.java:91-99 | If the sets have an ancestral path, they have one of least length. |
| Sca.MinimalPathShort | ShortestCommonAncestor.java:91-99 | A least ancestral path is shorter than `V`: the two chains to its ancestor share only the ancestor, so together they hold `len + 1` distinct vertices. |
| Sca.CommonAncestorShort | ShortestCommonAncestor.java:91-100 | Sets with a common ancestor have an ancestral path shorter than `V`, so the start value `V` and the strict `<` never hide one. |
| Sca.PairQuery | ShortestCommonAncestor.java:47-65 | With a common ancestor, `ancestor(v, w)` is a common ancestor nearest to `w`, and `length(v, w)` is the length of the path through it. Without one, `ancestor` gives the root and `length` fails on a missing distance. `v == w` gives `(v, 0)`. Among several nearest ancestors, the contract does not say which one; the first dequeued is stated only by `Bfs.BfsStopAt`. |
| Sca.PairLengthOvershoots | ShortestCommonAncestor.java:47-52 | On a seven-vertex graph, the pair `length` returns 4 through vertex 3, although an ancestral path of length 3 goes through vertex 0. |
| Sca.PairShortest | ShortestCommonAncestor.java:47-65 | Corrected pair query: with a common ancestor, the result is a shortest ancestral path and its ancestor. Without one, it returns the root and a failure. |
| JavaString.CompareTo | WordNet.java:95-96 | Equal strings compare to 0. Otherwise the first differing character decides, by the difference of the two character codes. |
| JavaString.CompareZeroIff | WordNet.java:95-97 | `compareTo` returns 0 exactly on equal strings. |
| JavaString.CompareAntisymmetric | WordNet.java:95-96 | Swapping the arguments of `compareTo` negates its result. |
| JavaString.CompareTransitive | WordNet.java:136 | The order `compareTo` induces is transitive. |
| JavaString.SortStrings | WordNet.java:136 | `Arrays.sort` yields a permutation of its input, ascending by `compareTo`. |
| JavaString.SortedPermutationUnique | WordNet.java:136 | Two ascending permutations of the same strings are equal, so the sorted index does not depend on the sorting algorithm. |
| Decimal.NatToDecimal | WordNet.java:133 | `"" + i` writes only digits, and starts with `0` only for the id 0, which is then the single digit `0`. |
| Decimal.ParseDecimal | WordNet.java:155 | On unsigned text, `Integer.valueOf` succeeds exactly on strings of decimal digits: the id fields the index holds, which `"" + i` wrote. |
| Decimal.ParseWritten | WordNet.java:155 | `Integer.valueOf` reads back exactly the id that `+ i` wrote into the entry. |
| Decimal.WrittenInjective | WordNet.java:133 | Distinct ids are written as distinct texts. |
| NounIndex.Token | WordNet.java:150 | `split(" ")[0]` of an entry is the longest prefix without a space: the entry is cut at its first space. |
| NounIndex.Entry | WordNet.java:133 | For a token without blanks, `token + " " + i` splits at its first space into the token and the decimal text of `i`. |
| NounIndex.EntryParts | WordNet.java:133 | An entry built from a blank-free token and an id is well formed. `split(" ")[0]` gives back the token and `split(" ")[1]` the id. |
| NounIndex.EntryJoin | WordNet.java:150 | A well-formed entry is its token, one space, and its id field. |
| NounIndex.EntriesCount | WordNet.java:44-49 | `nounCount` equals the number of entries `extractNouns` writes, so the array is filled exactly. |
| NounIndex.EntriesMembers | WordNet.java:130-135 | An entry is in the unsorted index exactly when some synset `i` holds its token and its id is `i`. |
| NounIndex.ExtractNouns | WordNet.java:128-137 | The index has `nounCount` entries, is sorted by `compareTo`, and is a permutation of the "noun id" entries of all synsets. |
| NounIndex.TokenOrder | WordNet.java:136 | Sorting whole entries sorts their tokens too, because the space sorts below every token character. |
| NounIndex.SortedEntriesSortTokens | WordNet.java:136 | The tokens of a sorted index are sorted. |
| NounIndex.Locate | WordNet.java:88-100 | The binary search returns only positions whose token is the word. On sorted tokens it finds every word that is present. |
| NounIndex.IsNoun | WordNet.java:88-100 | `isNoun` answers true only for a listed token. On a sorted index, it is true exactly when the word is listed. |
| NounIndex.MatchingBelowMembers | WordNet.java:153-160 | An id is among the matching ids exactly when some entry holds both the word and that id. |
| NounIndex.ScanOutcome | WordNet.java:153-160 | The two scans from a hit collect exactly the ids of the word's run of entries. The run starts at index 0 exactly when the first token is the word, and ends at the last index exactly when the last token is the word. |
| NounIndex.ScanDownAsWritten | WordNet.java:154-156 | The downward scan as written reads index -1 exactly when every entry from 0 to `mid` is the word. Otherwise it stops at the first other token below `mid`, having collected the ids from `mid` down to just above it. |
| NounIndex.ScanUpAsWritten | WordNet.java:157-160 | The upward scan as written reads past the last index exactly when every entry after `mid` is the word. Otherwise it stops at the first other token after `mid`, having appended the ids in between. |
| NounIndex.ScanDown | WordNet.java:154-156 | The bounded downward scan stops at index -1 or at the first other token below `mid`, having collected the ids of the entries in between, top down. |
| NounIndex.ScanUp | WordNet.java:157-160 | The bounded upward scan stops after the last index or at the first other token after `mid`, having appended the ids of the entries in between. |
| NounIndex.ScanIdsAsWritten | WordNet.java:146-164 | Search and scans as written: a word that is not listed is rejected. On sorted tokens, a listed word fails out of bounds exactly when its run touches the first or the last entry; otherwise the result holds exactly the word's ids, as a multiset. |
| NounIndex.ScanIds | WordNet.java:146-164 | Search with scans stopped at the array ends: on sorted tokens it succeeds exactly for listed words, with exactly their ids as a multiset. Its only failure is "not a noun". |
| NounIndex.SynsetIdsAsWritten | WordNet.java:141-165 | `synsetIDs` as written, on a sorted index: "not a noun" exactly for an unlisted word. A listed word fails out of bounds exactly when its run touches the first or the last entry. Otherwise the result is exactly the word's ids, as a multiset. |
| NounIndex.SynsetIds | WordNet.java:141-165 | Corrected `synsetIDs` on a sorted index: it succeeds exactly for listed words, with exactly their ids as a multiset. |
| NounIndex.SingleEntryIndex | WordNet.java:154-158 | On an index of one entry, `synsetIDs` as written fails out of bounds, while the corrected version returns the entry's id. |
| Hypernyms.Reverse | WordNet.java:65 | The adjacency bag lists its elements last-added first. |
| Hypernyms.AddEdges | WordNet.java:63-66 | Adding a line's edges succeeds exactly when the line has no hypernyms, or when its synset and all its hypernyms are vertices. A failure names an endpoint that is no vertex. On success only `adj(v)` changes, gaining the hypernyms in reverse. |
| Hypernyms.ReadHypernyms | WordNet.java:59-67 | The hypernym file is accepted exactly when every line is a root line or names only vertices. The graph has one vertex per synset. |
| Hypernyms.ReadRejects | WordNet.java:59-67 | A rejected file names an endpoint that some non-root line hands to `addEdge` and that is no vertex. |
| Hypernyms.ReadAdjacency | WordNet.java:59-67 | `adj(v)` is every hypernym the file gives `v`, last first. |
| Hypernyms.ReadRoot | WordNet.java:55-62 | The root is the synset of the last root line (a line with one field), or -1 when there is none. |
| Hypernyms.HypernymEdges | WordNet.java:63-66 | `v -> w` is an edge exactly when some line of `v` lists `w`. |
| Hypernyms.AcceptedGraphValid | WordNet.java:53-67 | Every edge of an accepted file joins two vertices. |
| WordNet.Build | WordNet.java:30-73 | Construction succeeds exactly when every hypernym line is valid, and otherwise fails with `addEdge`'s error. On success: the graph is the hypernym graph with its root; it has a vertex per synset and is valid; the index is sorted and holds exactly the synsets' entries. |
| WordNet.IndexMeaning | WordNet.java:128-137 | Some index entry files `word` under `id` exactly when synset `id` holds `word`. |
| WordNet.ListedMeaning | WordNet.java:128-137 | A word is listed in the index exactly when some synset holds it. |
| WordNet.MatchingMeaning | WordNet.java:141-165 | The ids the index files under a word are exactly the synsets holding it. |
| WordNet.IsNoun | WordNet.java:88-100 | `isNoun(word)` is true exactly when some synset holds `word`. |
| WordNet.FirstMeaning | WordNet.java:136 | The first entry of the index files a word exactly when that word belongs to some synset and sorts at or before every word of every synset. |
| WordNet.LastMeaning | WordNet.java:136 | The last entry of the index files a word exactly when that word belongs to some synset and sorts at or after every word of every synset. |
| WordNet.SynsetIds | WordNet.java:141-165 | `synsetIDs(noun)` as written fails with "not a noun" exactly when no synset holds `noun`. It fails out of bounds exactly when `noun` sorts first or last among all the words. Otherwise it returns the synsets holding `noun`, as a set. |
| WordNet.LookupAgrees | WordNet.java:141-165 | The outcome of `synsetIDs` is the one `Lookup` gives in terms of the synsets: the same error, or the same synsets. |
| WordNet.Distance | WordNet.java:109-112 | `distance` fails exactly when one of the two lookups fails, with the first failing lookup's error. Otherwise it is `V` exactly when the synsets of the two nouns have no common ancestor, and otherwise the length of a shortest ancestral path between them. |
| WordNet.Sca | WordNet.java:103-106 | `sca` fails as `distance` does. With a common ancestor, it gives the nouns of a common ancestor on a shortest ancestral path. Without one, it gives the root's synset, or nothing when the root is -1. |
| Outcast.SelfExcluded | Outcast.java:35-40 | A noun's sum skips its own position only: it is the full row less the distance of the noun to itself. |
| Outcast.OutcastUnique | Outcast.java:41-44 | At most one position satisfies the outcast rule. |
| Outcast.Outcast | Outcast.java:28-47 | An empty list fails, and a failing distance ends the search with the first failure in loop order. Otherwise the result is `nouns[at]`, where `at` is the first position of the largest positive sum, or 0 when no sum is positive. |

## Left out

- **File reading.** Splitting synset and hypernym lines on `,` and `In` are left out. The constructor receives the synsets as token lists and the hypernym lines as parsed integers.
- **Malformed input.** `NumberFormatException` on malformed numbers is left out, and so is the `ArrayIndexOutOfBoundsException` of a synset line without a comma.
- **Synset ids.** Synset ids are assumed to be `0 .. n-1` in file order. The Java keys the table by the parsed id, and both `extractNouns` and the `Digraph` size assume the same.
- **Null arguments.** The `NullPointerException` guards of the constructors are left out.
- **Other members left out.** `getSCA`, `nouns()`, the `main` drivers and `StdOut` are left out. `Outcast` takes the distance as a function, since `getSCA()` only hands out the engine.
- **Commented-out code.** The commented-out `edgeTo` table and `toUpperCase` calls have no effect and are not modelled.
- **`synsetTable` values.** `WordNet.Sca` returns the synset as its list of nouns, not the space-joined string stored in `synsetTable`.
- **Integer width.** `int` is unbounded in the model: distances, sums and `(lo + hi) / 2` cannot overflow. This matters for the following members:
  - Outcast.Outcast: the sums are unbounded; Java's `int d` would wrap past 2^31 - 1, which needs about 2^31 / V noun pairs.
  - NounIndex.Locate: `(lo + hi) / 2` is computed on unbounded integers; Java overflows only for arrays of more than 2^30 entries.
- WordNet.Build: requires every synset noun to have no character at or below the space. `split(" ")` removes only spaces, so this is an assumption about the synset file (the WordNet data holds no tabs or control characters), not something the Java ensures. With such a character the order breaks: the entries `"a\tb 3"` and `"a 5"` sort with `"a\tb 3"` first, because the tab is below the space, so the tokens `"a\tb"` and `"a"` are out of order and `isNoun("a")` can answer false for a listed word. The model does not cover that case.
- Decimal.ParseDecimal: models `Integer.valueOf` on unsigned digit strings only. A leading `+` or `-` and the `NumberFormatException` for values past 2147483647 are not modelled, because the index holds only ids written by `"" + i`.
- JavaString.CompareTo: characters are Unicode scalar values compared by code point. Java compares UTF-16 code units, so a character above U+FFFF (two surrogate units, each from 0xD800) sorts below a character from U+E000 to U+FFFF in Java and above it here. The order of `Arrays.sort` and the binary searches of `isNoun` and `synsetIDs` agree with Java only for words within the Basic Multilingual Plane.
- **Invalid vertices.** Bfs.BfsFrom, Bfs.Bfs, Bfs.BfsStopAt, Sca.CappedQuery, Sca.SetQuery and Sca.PairQuery require their vertex arguments to be vertices of the graph. The public `length` and `ancestor` accept any `int`, and algs4's `Digraph.adj` throws `IllegalArgumentException` for a vertex outside the graph; that error is not modelled. Through `WordNet`, the arguments are always synset ids, which are vertices.
- **Hash tables.** `LinearProbingHashST` and `HashSet` are modelled as maps and sets. Their iteration order is left arbitrary.

## Findings

| source | as written | input that shows it | evidently intended | confidence | as-written member | corrected member |
|---|---|---|---|---|---|---|
| ShortestCommonAncestor.java:47-52 | `length(v, w)` and `ancestor(v, w)` stop at the common ancestor nearest to `w` and add the two distances to it | the graph with edges 1→4, 1→0, 2→3, 2→6, 4→5, 5→3, 3→0 and 6→0, queried with `length(1, 2)`: it returns 4 through vertex 3 | the length of a shortest ancestral path (3, through vertex 0) | not executed | Sca.PairLengthOvershoots | Sca.PairShortest |
| WordNet.java:154-158 | the scans step to `nouns[--i]`, `nouns[mid + 1]` and `nouns[++i]` without a bounds check | any noun whose entries include the first or the last entry of the index, e.g. an index of the single entry `t 0` | stop each scan at the array ends and return the noun's ids | not executed | NounIndex.SingleEntryIndex | NounIndex.SynsetIds |

/**
  The sorted noun index of WordNet.java: one entry "token id" per noun token
  of every synset (`extractNouns`), searched by binary search on the token
  (`isNoun`), and the scan that collects every id filed under a token
  (`synsetIDs`).
 */
module NounIndex {
  import opened Wrappers
  import opened JavaString
  import opened Decimal

  /** Index of the first space of `e`, or `|e|` when there is none. */
  function SpaceAt(e: string): (k: nat)
    ensures k <= |e|
    ensures forall j :: 0 <= j < k ==> e[j] != ' '
    ensures k < |e| ==> e[k] == ' '
  {
    if e == [] || e[0] == ' ' then 0 else 1 + SpaceAt(e[1..])
  }

  /** `e.split(" ")[0]`: the noun token of an entry. */
  function Token(e: string): (t: string)
    ensures |t| <= |e| && t == e[..|t|] && ' ' !in t
    ensures |t| < |e| ==> e[|t|] == ' '
  {
    e[..SpaceAt(e)]
  }

  /** `e.split(" ")[1]` on an entry with one space: the synset id as text. */
  function Field(e: string): string {
    if SpaceAt(e) < |e| then e[SpaceAt(e) + 1..] else []
  }

  /** A token has no character at or below the space (no blanks, no control characters). */
  predicate Printable(t: string) {
    forall i :: 0 <= i < |t| ==> t[i] > ' '
  }

  /** The shape `extractNouns` gives every entry: a token, one space, a decimal id. */
  predicate WellFormed(e: string) {
    Printable(Token(e)) && IsDigits(Field(e))
  }

  predicate ValidIndex(nouns: seq<string>) {
    forall i :: 0 <= i < |nouns| ==> WellFormed(nouns[i])
  }

  /** `Integer.valueOf(e.split(" ")[1])`. */
  function IdOf(e: string): nat
    requires WellFormed(e)
  {
    DigitsValue(Field(e))
  }

  lemma {:induction false} SpaceAfterToken(t: string, rest: string)
    ensures Printable(t) ==> SpaceAt(t + [' '] + rest) == |t|
    decreases |t|
  {
    if t != [] && Printable(t) {
      assert (t + [' '] + rest)[1..] == t[1..] + [' '] + rest;
      SpaceAfterToken(t[1..], rest);
    }
  }

  /**
    `currentSynset[j] + " " + i`: for a token without blanks, the first
    space of the entry ends the token, and the id's digits follow it.
   */
  function Entry(t: string, id: nat): (e: string)
    ensures Printable(t) ==> Token(e) == t && Field(e) == NatToDecimal(id)
  {
    SpaceAfterToken(t, NatToDecimal(id));
    t + [' '] + NatToDecimal(id)
  }

  /** An entry splits back into the token and the id it was built from. */
  lemma EntryParts(t: string, id: nat)
    requires Printable(t)
    ensures WellFormed(Entry(t, id))
    ensures Token(Entry(t, id)) == t
    ensures IdOf(Entry(t, id)) == id
  {
    ParseWritten(id);
  }

  /** A well-formed entry is its token, a space and its id text. */
  lemma EntryJoin(e: string)
    requires WellFormed(e)
    ensures e == Token(e) + [' '] + Field(e)
  {
  }

  /** The entries of one synset `id`, in the order of its tokens. */
  function SynsetEntries(tokens: seq<string>, id: nat): (r: seq<string>)
    ensures |r| == |tokens|
    ensures forall j :: 0 <= j < |tokens| ==> r[j] == Entry(tokens[j], id)
  {
    if tokens == [] then []
    else SynsetEntries(tokens[..|tokens| - 1], id) + [Entry(tokens[|tokens| - 1], id)]
  }

  /**
    Every entry of the synset table (synset `i` holds the tokens
    `synsets[i]`), synset by synset, before sorting.
   */
  function Entries(synsets: seq<seq<string>>): seq<string> {
    if synsets == [] then []
    else Entries(synsets[..|synsets| - 1]) + SynsetEntries(synsets[|synsets| - 1], |synsets| - 1)
  }

  /** `nounCount`: the number of tokens summed over the synsets. */
  function NounCount(synsets: seq<seq<string>>): nat {
    if synsets == [] then 0
    else NounCount(synsets[..|synsets| - 1]) + |synsets[|synsets| - 1]|
  }

  /** One entry per token. */
  lemma {:induction false} EntriesCount(synsets: seq<seq<string>>)
    ensures |Entries(synsets)| == NounCount(synsets)
    decreases |synsets|
  {
    if synsets != [] {
      EntriesCount(synsets[..|synsets| - 1]);
    }
  }

  /** Every unsorted entry is "token id" for a token of synset `id`. */
  lemma {:induction false} EntriesSound(synsets: seq<seq<string>>, e: string) returns (i: nat, j: nat)
    requires e in Entries(synsets)
    ensures i < |synsets| && j < |synsets[i]| && e == Entry(synsets[i][j], i)
    decreases |synsets|
  {
    var n := |synsets| - 1;
    if e in Entries(synsets[..n]) {
      i, j := EntriesSound(synsets[..n], e);
      assert synsets[..n][i] == synsets[i];
    } else {
      var k :| 0 <= k < |synsets[n]| && SynsetEntries(synsets[n], n)[k] == e;
      i, j := n, k;
    }
  }

  /** Every token of every synset has its entry. */
  lemma {:induction false} EntriesComplete(synsets: seq<seq<string>>, i: nat, j: nat)
    requires i < |synsets| && j < |synsets[i]|
    ensures Entry(synsets[i][j], i) in Entries(synsets)
    decreases |synsets|
  {
    var n := |synsets| - 1;
    if i < n {
      assert synsets[..n][i] == synsets[i];
      EntriesComplete(synsets[..n], i, j);
    } else {
      assert SynsetEntries(synsets[n], n)[j] == Entry(synsets[i][j], i);
    }
  }

  /** The unsorted entries are exactly "token id" for each token of each synset. */
  lemma EntriesMembers(synsets: seq<seq<string>>, e: string)
    ensures e in Entries(synsets) <==>
      exists i, j :: 0 <= i < |synsets| && 0 <= j < |synsets[i]| && e == Entry(synsets[i][j], i)
  {
    if e in Entries(synsets) {
      var i, j := EntriesSound(synsets, e);
    }
    if exists i, j :: 0 <= i < |synsets| && 0 <= j < |synsets[i]| && e == Entry(synsets[i][j], i) {
      var i, j :| 0 <= i < |synsets| && 0 <= j < |synsets[i]| && e == Entry(synsets[i][j], i);
      EntriesComplete(synsets, i, j);
    }
  }

  /**
    `extractNouns`: fills `nounCount` slots synset by synset, token by token,
    then sorts them with `Arrays.sort`.
   */
  method ExtractNouns(synsets: seq<seq<string>>) returns (nouns: seq<string>)
    ensures |nouns| == NounCount(synsets)
    ensures Sorted(nouns)
    ensures multiset(nouns) == multiset(Entries(synsets))
  {
    var filled: seq<string> := [];
    var i := 0;
    while i < |synsets|
      invariant 0 <= i <= |synsets|
      invariant filled == Entries(synsets[..i])
    {
      var current := synsets[i];
      var j := 0;
      while j < |current|
        invariant 0 <= j <= |current|
        invariant filled == Entries(synsets[..i]) + SynsetEntries(current[..j], i)
      {
        assert current[..j + 1][..j] == current[..j];
        filled := filled + [Entry(current[j], i)];
        j := j + 1;
      }
      assert current[..j] == current;
      assert synsets[..i + 1][..i] == synsets[..i];
      i := i + 1;
    }
    assert synsets[..i] == synsets;
    EntriesCount(synsets);
    nouns := SortStrings(filled);
    assert |nouns| == |multiset(nouns)| == |multiset(filled)| == |filled|;
  }

  /**
    A token without blanks that sorts after another keeps doing so once
    " id" is appended to both: the space sorts below every token character.
   */
  lemma {:induction false} TokenOrder(t1: string, x: string, t2: string, y: string)
    requires Printable(t1) && Printable(t2)
    requires CompareTo(t1 + [' '] + x, t2 + [' '] + y) <= 0
    ensures CompareTo(t1, t2) <= 0
    decreases |t1|
  {
    if t1 != [] && t2 != [] {
      if t1[0] == t2[0] {
        assert (t1 + [' '] + x)[1..] == t1[1..] + [' '] + x;
        assert (t2 + [' '] + y)[1..] == t2[1..] + [' '] + y;
        TokenOrder(t1[1..], x, t2[1..], y);
      }
    }
  }

  /**
    The token of every entry, in index order: what `split(" ")[0]` reads at
    each position.
   */
  function Tokens(nouns: seq<string>): (r: seq<string>)
    ensures |r| == |nouns|
    ensures forall k :: 0 <= k < |nouns| ==> r[k] == Token(nouns[k])
  {
    seq(|nouns|, k requires 0 <= k < |nouns| => Token(nouns[k]))
  }

  /** The id of every entry, in index order: what `Integer.valueOf(split(" ")[1])` reads. */
  function Ids(nouns: seq<string>): (r: seq<nat>)
    requires ValidIndex(nouns)
    ensures |r| == |nouns|
    ensures forall k :: 0 <= k < |nouns| ==> r[k] == IdOf(nouns[k])
  {
    seq(|nouns|, k requires 0 <= k < |nouns| => IdOf(nouns[k]))
  }

  /** Sorting the entries sorts their tokens, which is what the binary search relies on. */
  lemma SortedEntriesSortTokens(nouns: seq<string>)
    requires Sorted(nouns) && ValidIndex(nouns)
    ensures Sorted(Tokens(nouns))
  {
    var tokens := Tokens(nouns);
    forall i, j | 0 <= i < j < |tokens|
      ensures CompareTo(tokens[i], tokens[j]) <= 0
    {
      EntryJoin(nouns[i]);
      EntryJoin(nouns[j]);
      TokenOrder(Token(nouns[i]), Field(nouns[i]), Token(nouns[j]), Field(nouns[j]));
    }
  }

  /**
    The binary search shared by `isNoun` and `synsetIDs`, over the tokens of
    the index: the index `mid` at which it meets `word`, or `None` when `lo`
    passes `hi`. `mid = (lo + hi) / 2` with `0 <= lo <= hi`, so Java's
    truncating division and Dafny's agree.
   */
  method Locate(tokens: seq<string>, word: string) returns (r: Option<nat>)
    ensures r.Some? ==> r.value < |tokens| && tokens[r.value] == word
    ensures Sorted(tokens) && word in tokens ==> r.Some?
  {
    var lo, hi := 0, |tokens| - 1;
    while lo <= hi
      invariant 0 <= lo && hi < |tokens|
      invariant Sorted(tokens) ==>
        forall i :: 0 <= i < |tokens| && tokens[i] == word ==> lo <= i <= hi
    {
      var mid := (lo + hi) / 2;
      if CompareTo(word, tokens[mid]) < 0 {
        Below(tokens, word, mid);
        hi := mid - 1;
      } else if CompareTo(word, tokens[mid]) > 0 {
        Above(tokens, word, mid);
        lo := mid + 1;
      } else {
        CompareZeroIff(word, tokens[mid]);
        return Some(mid);
      }
    }
    return None;
  }

  /** When `word` sorts below the token at `mid`, no token from `mid` on is `word`. */
  lemma Below(tokens: seq<string>, word: string, mid: nat)
    requires mid < |tokens| && CompareTo(word, tokens[mid]) < 0
    ensures Sorted(tokens) ==> forall i :: mid <= i < |tokens| ==> tokens[i] != word
  {
    if Sorted(tokens) {
      forall i | mid <= i < |tokens|
        ensures tokens[i] != word
      {
        CompareAntisymmetric(word, tokens[mid]);
        assert CompareTo(tokens[mid], tokens[i]) <= 0;
      }
    }
  }

  /** When `word` sorts above the token at `mid`, no token up to `mid` is `word`. */
  lemma Above(tokens: seq<string>, word: string, mid: nat)
    requires mid < |tokens| && CompareTo(word, tokens[mid]) > 0
    ensures Sorted(tokens) ==> forall i :: 0 <= i <= mid ==> tokens[i] != word
  {
    if Sorted(tokens) {
      forall i | 0 <= i <= mid
        ensures tokens[i] != word
      {
        assert CompareTo(tokens[i], tokens[mid]) <= 0;
      }
    }
  }

  /**
    `isNoun`: whether the binary search meets `word`. On an index sorted by
    token this is exactly whether some entry is filed under `word`; on an
    empty index it is false.
   */
  method IsNoun(nouns: seq<string>, word: string) returns (b: bool)
    ensures b ==> word in Tokens(nouns)
    ensures Sorted(Tokens(nouns)) ==> (b <==> word in Tokens(nouns))
  {
    var r := Locate(Tokens(nouns), word);
    b := r.Some?;
  }

  /** The ids among the first `n` entries whose token is `word`, in order. */
  function MatchingBelow(tokens: seq<string>, ids: seq<nat>, word: string, n: nat): (r: seq<nat>)
    requires |tokens| == |ids| && n <= |ids|
    ensures |r| <= n
  {
    if n == 0 then []
    else MatchingBelow(tokens, ids, word, n - 1) + (if tokens[n - 1] == word then [ids[n - 1]] else [])
  }

  /** The ids of all entries filed under `word`, in index order. */
  function MatchingIds(tokens: seq<string>, ids: seq<nat>, word: string): (r: seq<nat>)
    requires |tokens| == |ids|
  {
    MatchingBelow(tokens, ids, word, |tokens|)
  }

  /** An id is collected exactly when some entry pairs it with `word`. */
  lemma {:induction false} MatchingBelowMembers(tokens: seq<string>, ids: seq<nat>, word: string, n: nat, id: nat)
    requires |tokens| == |ids| && n <= |ids|
    ensures id in MatchingBelow(tokens, ids, word, n) <==>
      exists k :: 0 <= k < n && tokens[k] == word && ids[k] == id
  {
    if n > 0 {
      MatchingBelowMembers(tokens, ids, word, n - 1, id);
      if tokens[n - 1] == word && ids[n - 1] == id {
        assert id in MatchingBelow(tokens, ids, word, n);
      }
    }
  }

  /**
    When the tokens equal to `word` are exactly those at `lo` to `hi - 1`,
    the matches among the first `n` are the ids from `lo` up to `n`, clamped
    to that range.
   */
  lemma {:induction false} MatchingBelowRange(tokens: seq<string>, ids: seq<nat>, word: string,
                                              lo: nat, hi: nat, n: nat)
    requires |tokens| == |ids| && lo <= hi <= |ids| && n <= |ids|
    requires forall k :: 0 <= k < |tokens| ==> (tokens[k] == word <==> lo <= k < hi)
    ensures MatchingBelow(tokens, ids, word, n) == ids[lo..if n < lo then lo else if n < hi then n else hi]
  {
    if n > 0 {
      MatchingBelowRange(tokens, ids, word, lo, hi, n - 1);
      if lo < n <= hi {
        assert ids[lo..n] == ids[lo..n - 1] + [ids[n - 1]];
      }
    }
  }

  /** On a sorted token sequence the positions holding one token are contiguous. */
  lemma Contiguous(tokens: seq<string>, word: string, i: nat, j: nat, k: nat)
    requires Sorted(tokens) && i <= j <= k < |tokens|
    requires tokens[i] == word && tokens[k] == word
    ensures tokens[j] == word
  {
    if i < j < k {
      CompareAntisymmetric(word, tokens[j]);
      CompareZeroIff(word, tokens[j]);
    }
  }

  /**
    A run of `word`, bounded on each side by the end of the index or by
    another token, holds every occurrence of `word`.
   */
  lemma RunBounds(tokens: seq<string>, word: string, lo: nat, hi: nat)
    requires Sorted(tokens) && lo < hi <= |tokens|
    requires forall k :: lo <= k < hi ==> tokens[k] == word
    requires lo == 0 || tokens[lo - 1] != word
    requires hi == |tokens| || tokens[hi] != word
    ensures forall k :: 0 <= k < |tokens| ==> (tokens[k] == word <==> lo <= k < hi)
  {
    forall k | 0 <= k < |tokens| && tokens[k] == word
      ensures lo <= k < hi
    {
      if k < lo {
        Contiguous(tokens, word, k, lo - 1, lo);
      } else if k >= hi {
        Contiguous(tokens, word, lo, hi, k);
      }
    }
  }

  /** How `synsetIDs` fails. */
  datatype IdsError =
    | NotANoun     // the IllegalArgumentException "Noun not in WordNet"
    | OutOfBounds  // an ArrayIndexOutOfBoundsException from the scan

  /** `ids[mid]`, `ids[mid - 1]`, ..., `ids[i + 1]`: what a downward scan from `mid` has collected. */
  function DownSeq(ids: seq<nat>, mid: nat, i: int): seq<nat>
    requires -1 <= i <= mid < |ids|
    decreases mid - i
  {
    if i == mid then [] else DownSeq(ids, mid, i + 1) + [ids[i + 1]]
  }

  /** `ids[from]`, ..., `ids[j - 1]`: what an upward scan from `from` has collected. */
  function UpSeq(ids: seq<nat>, from: nat, j: nat): seq<nat>
    requires from <= j <= |ids|
    decreases j - from
  {
    if j == from then [] else UpSeq(ids, from, j - 1) + [ids[j - 1]]
  }

  lemma {:induction false} DownSeqSlice(ids: seq<nat>, mid: nat, i: int)
    requires -1 <= i <= mid < |ids|
    ensures multiset(DownSeq(ids, mid, i)) == multiset(ids[i + 1..mid + 1])
    decreases mid - i
  {
    if i < mid {
      DownSeqSlice(ids, mid, i + 1);
      assert ids[i + 1..mid + 1] == [ids[i + 1]] + ids[i + 2..mid + 1];
    }
  }

  lemma {:induction false} UpSeqSlice(ids: seq<nat>, from: nat, j: nat)
    requires from <= j <= |ids|
    ensures UpSeq(ids, from, j) == ids[from..j]
    decreases j - from
  {
    if from < j {
      UpSeqSlice(ids, from, j - 1);
      assert ids[from..j] == ids[from..j - 1] + [ids[j - 1]];
    }
  }

  /** The two scans together collect the ids of the run `lo` to `hi - 1`, in some order. */
  lemma ScansCollect(ids: seq<nat>, lo: nat, mid: nat, hi: nat)
    requires lo <= mid < hi <= |ids|
    ensures multiset(DownSeq(ids, mid, lo as int - 1) + UpSeq(ids, mid + 1, hi)) == multiset(ids[lo..hi])
  {
    DownSeqSlice(ids, mid, lo as int - 1);
    UpSeqSlice(ids, mid + 1, hi);
    assert ids[lo..hi] == ids[lo..mid + 1] + ids[mid + 1..hi];
  }

  /**
    What both versions of `synsetIDs` conclude once the scans have stopped
    at `lo - 1` and `hi` without running off the index: they collected the
    ids of every entry filed under `noun`, and the run touches an end of the
    index exactly when it stopped there.
   */
  lemma ScanOutcome(tokens: seq<string>, ids: seq<nat>, noun: string, lo: nat, mid: nat, hi: nat)
    requires Sorted(tokens) && |tokens| == |ids| && lo <= mid < hi <= |tokens|
    requires forall k :: lo <= k < hi ==> tokens[k] == noun
    requires lo == 0 || tokens[lo - 1] != noun
    requires hi == |tokens| || tokens[hi] != noun
    ensures multiset(DownSeq(ids, mid, lo as int - 1) + UpSeq(ids, mid + 1, hi))
         == multiset(MatchingIds(tokens, ids, noun))
    ensures tokens[0] == noun <==> lo == 0
    ensures tokens[|tokens| - 1] == noun <==> hi == |tokens|
  {
    RunBounds(tokens, noun, lo, hi);
    MatchingBelowRange(tokens, ids, noun, lo, hi, |tokens|);
    ScansCollect(ids, lo, mid, hi);
  }

  /**
    The downward scan of `synsetIDs` as written: from `mid` (filed under
    `noun`) it collects ids while the entry is filed under `noun`, reading the
    entry below before each test; `overrun` is the read at index -1.
   */
  method ScanDownAsWritten(tokens: seq<string>, ids: seq<nat>, noun: string, mid: nat)
    returns (overrun: bool, acc: seq<nat>, i: int)
    requires |tokens| == |ids| && mid < |tokens| && tokens[mid] == noun
    ensures overrun <==> forall k :: 0 <= k <= mid ==> tokens[k] == noun
    ensures !overrun ==> 0 <= i < mid && tokens[i] != noun
    ensures !overrun ==> forall k :: i < k <= mid ==> tokens[k] == noun
    ensures !overrun ==> acc == DownSeq(ids, mid, i)
  {
    acc := [];
    i := mid;
    while tokens[i] == noun
      invariant 0 <= i <= mid
      invariant forall k :: i < k <= mid ==> tokens[k] == noun
      invariant acc == DownSeq(ids, mid, i)
      decreases i
    {
      acc := acc + [ids[i]];
      if i == 0 {
        return true, acc, i;
      }
      i := i - 1;
    }
    overrun := false;
  }

  /**
    The upward scan of `synsetIDs` as written, from `mid + 1`, appending to
    `acc0`; `overrun` is the read at index `|tokens|`.
   */
  method ScanUpAsWritten(tokens: seq<string>, ids: seq<nat>, noun: string, mid: nat, acc0: seq<nat>)
    returns (overrun: bool, acc: seq<nat>, j: nat)
    requires |tokens| == |ids| && mid + 1 < |tokens|
    ensures overrun <==> forall k :: mid < k < |tokens| ==> tokens[k] == noun
    ensures !overrun ==> mid < j < |tokens| && tokens[j] != noun
    ensures !overrun ==> forall k :: mid < k < j ==> tokens[k] == noun
    ensures !overrun ==> acc == acc0 + UpSeq(ids, mid + 1, j)
  {
    acc := acc0;
    j := mid + 1;
    while tokens[j] == noun
      invariant mid < j < |tokens|
      invariant forall k :: mid < k < j ==> tokens[k] == noun
      invariant acc == acc0 + UpSeq(ids, mid + 1, j)
      decreases |tokens| - j
    {
      acc := acc + [ids[j]];
      if j + 1 == |tokens| {
        return true, acc, j;
      }
      j := j + 1;
    }
    overrun := false;
  }

  /**
    `synsetIDs` as written, over the tokens and ids of the index: after the
    binary search meets `noun` at `mid`, it collects ids downwards from `mid`
    and then upwards from `mid + 1`, each scan reading the next entry before
    testing whether the run goes on. The downward scan reads index -1 when
    the run starts at 0; the upward one reads index `|tokens|` when `mid` is
    the last index or the run ends there.
   */
  method ScanIdsAsWritten(tokens: seq<string>, ids: seq<nat>, noun: string) returns (r: Result<seq<nat>, IdsError>)
    requires |tokens| == |ids|
    ensures noun !in tokens ==> r == Failure(NotANoun)
    ensures Sorted(tokens) ==> (r == Failure(NotANoun) <==> noun !in tokens)
    ensures Sorted(tokens) && noun in tokens ==>
      (r == Failure(OutOfBounds) <==> tokens[0] == noun || tokens[|tokens| - 1] == noun)
    ensures Sorted(tokens) && r.Success? ==> multiset(r.value) == multiset(MatchingIds(tokens, ids, noun))
  {
    // `isNoun` runs the same binary search as the loop that follows it, so
    // both meet `noun` at the same `mid`.
    var found := Locate(tokens, noun);
    if found.None? {
      return Failure(NotANoun);
    }
    var mid := found.value;
    var overrun, acc, i := ScanDownAsWritten(tokens, ids, noun, mid);
    if overrun {
      return Failure(OutOfBounds);
    }
    if mid + 1 == |tokens| {
      return Failure(OutOfBounds);
    }
    var overrunUp, all, j := ScanUpAsWritten(tokens, ids, noun, mid, acc);
    if overrunUp {
      return Failure(OutOfBounds);
    }
    if Sorted(tokens) {
      ScanOutcome(tokens, ids, noun, i + 1, mid, j);
    }
    return Success(all);
  }

  /** The downward scan stopping at index 0. */
  method ScanDown(tokens: seq<string>, ids: seq<nat>, noun: string, mid: nat) returns (acc: seq<nat>, i: int)
    requires |tokens| == |ids| && mid < |tokens| && tokens[mid] == noun
    ensures -1 <= i < mid && (i == -1 || tokens[i] != noun)
    ensures forall k :: i < k <= mid ==> tokens[k] == noun
    ensures acc == DownSeq(ids, mid, i)
  {
    acc := [];
    i := mid;
    while 0 <= i && tokens[i] == noun
      invariant -1 <= i <= mid
      invariant forall k :: i < k <= mid ==> tokens[k] == noun
      invariant acc == DownSeq(ids, mid, i)
      decreases i
    {
      acc := acc + [ids[i]];
      i := i - 1;
    }
  }

  /** The upward scan stopping after the last index. */
  method ScanUp(tokens: seq<string>, ids: seq<nat>, noun: string, mid: nat, acc0: seq<nat>) returns (acc: seq<nat>, j: nat)
    requires |tokens| == |ids| && mid < |tokens|
    ensures mid < j <= |tokens| && (j == |tokens| || tokens[j] != noun)
    ensures forall k :: mid < k < j ==> tokens[k] == noun
    ensures acc == acc0 + UpSeq(ids, mid + 1, j)
  {
    acc := acc0;
    j := mid + 1;
    while j < |tokens| && tokens[j] == noun
      invariant mid < j <= |tokens|
      invariant forall k :: mid < k < j ==> tokens[k] == noun
      invariant acc == acc0 + UpSeq(ids, mid + 1, j)
      decreases |tokens| - j
    {
      acc := acc + [ids[j]];
      j := j + 1;
    }
  }

  /**
    `synsetIDs` with each scan stopping at the ends of the index: every id
    filed under `noun`, and the error only when `noun` is not in the index.
   */
  method ScanIds(tokens: seq<string>, ids: seq<nat>, noun: string) returns (r: Result<seq<nat>, IdsError>)
    requires |tokens| == |ids|
    ensures noun !in tokens ==> r == Failure(NotANoun)
    ensures r.Failure? ==> r == Failure(NotANoun)
    ensures Sorted(tokens) ==> (r.Success? <==> noun in tokens)
    ensures Sorted(tokens) && r.Success? ==> multiset(r.value) == multiset(MatchingIds(tokens, ids, noun))
  {
    var found := Locate(tokens, noun);
    if found.None? {
      return Failure(NotANoun);
    }
    var mid := found.value;
    var acc, i := ScanDown(tokens, ids, noun, mid);
    var all, j := ScanUp(tokens, ids, noun, mid, acc);
    if Sorted(tokens) {
      ScanOutcome(tokens, ids, noun, i + 1, mid, j);
    }
    return Success(all);
  }

  /** `synsetIDs(noun)` as written, on the entries of the index. */
  method SynsetIdsAsWritten(nouns: seq<string>, noun: string) returns (r: Result<seq<nat>, IdsError>)
    requires ValidIndex(nouns)
    ensures noun !in Tokens(nouns) ==> r == Failure(NotANoun)
    ensures Sorted(nouns) ==> (r == Failure(NotANoun) <==> noun !in Tokens(nouns))
    ensures Sorted(nouns) && noun in Tokens(nouns) ==>
      (r == Failure(OutOfBounds) <==> Token(nouns[0]) == noun || Token(nouns[|nouns| - 1]) == noun)
    ensures Sorted(nouns) && r.Success? ==>
      multiset(r.value) == multiset(MatchingIds(Tokens(nouns), Ids(nouns), noun))
  {
    var tokens, ids := Tokens(nouns), Ids(nouns);
    if Sorted(nouns) {
      SortedEntriesSortTokens(nouns);
    }
    r := ScanIdsAsWritten(tokens, ids, noun);
    if |nouns| > 0 {
      assert tokens[0] == Token(nouns[0]) && tokens[|nouns| - 1] == Token(nouns[|nouns| - 1]);
    }
  }

  /** `synsetIDs(noun)` with the scans kept inside the index, on its entries. */
  method SynsetIds(nouns: seq<string>, noun: string) returns (r: Result<seq<nat>, IdsError>)
    requires ValidIndex(nouns)
    ensures r.Failure? ==> r == Failure(NotANoun)
    ensures Sorted(nouns) ==> (r.Success? <==> noun in Tokens(nouns))
    ensures Sorted(nouns) && r.Success? ==>
      multiset(r.value) == multiset(MatchingIds(Tokens(nouns), Ids(nouns), noun))
  {
    var tokens, ids := Tokens(nouns), Ids(nouns);
    if Sorted(nouns) {
      SortedEntriesSortTokens(nouns);
    }
    r := ScanIds(tokens, ids, noun);
  }

  /** The index of the single entry `t id`. */
  lemma SingleEntry(t: string, id: nat)
    requires Printable(t)
    ensures ValidIndex([Entry(t, id)]) && Sorted([Entry(t, id)])
    ensures Tokens([Entry(t, id)]) == [t] && Ids([Entry(t, id)]) == [id]
    ensures MatchingIds([t], [id], t) == [id]
  {
    EntryParts(t, id);
    assert Tokens([Entry(t, id)]) == [t];
  }

  /** The only sequence holding exactly one `x` is `[x]`. */
  lemma SingletonMultiset(v: seq<nat>, x: nat)
    requires multiset(v) == multiset{x}
    ensures v == [x]
  {
    assert |v| == |multiset(v)| == 1;
    assert v[0] in multiset(v);
  }

  /**
    An index of a single entry: the scans as written run off both of its
    ends, while the bounded scans return its id.
   */
  method SingleEntryIndex(t: string, id: nat) returns (asWritten: Result<seq<nat>, IdsError>, corrected: Result<seq<nat>, IdsError>)
    requires Printable(t)
    ensures asWritten == Failure(OutOfBounds)
    ensures corrected == Success([id])
  {
    var nouns := [Entry(t, id)];
    SingleEntry(t, id);
    asWritten := SynsetIdsAsWritten(nouns, t);
    corrected := SynsetIds(nouns, t);
    SingletonMultiset(corrected.value, id);
  }
}

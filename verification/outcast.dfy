/**
  Outcast.java: among a list of nouns, the one whose distances to all the
  others add up to the most. The distance of two nouns is a parameter here
  (WordNet.java answers it with `length(synsetIDs(a), synsetIDs(b))`, see
  `WordNet.Distance`); a failing lookup ends the search with its error.
 */
module Outcast {
  import opened Wrappers

  /** `ArrayIndexOutOfBoundsException` on an empty list, or the first distance that failed. */
  datatype OutcastError<E> = NoNouns | DistanceFailed(error: E)

  /** Every pair of distinct positions before `(i, j)`, in loop order, has a distance. */
  ghost predicate PairsBefore<E>(nouns: seq<string>, dist: (string, string) -> Result<int, E>, i: int, j: int) {
    forall a, b :: 0 <= a < |nouns| && 0 <= b < |nouns| && a != b && (a < i || (a == i && b < j)) ==>
      dist(nouns[a], nouns[b]).Success?
  }

  /** Every pair of distinct positions has a distance. */
  ghost predicate AllDefined<E>(nouns: seq<string>, dist: (string, string) -> Result<int, E>) {
    PairsBefore(nouns, dist, |nouns|, 0)
  }

  /** The distances from `nouns[i]` to the nouns at the other positions below `n`, added up. */
  function SumOthers<E>(nouns: seq<string>, dist: (string, string) -> Result<int, E>, i: nat, n: nat): int
    requires i < |nouns| && n <= |nouns|
    requires forall j :: 0 <= j < n && j != i ==> dist(nouns[i], nouns[j]).Success?
  {
    if n == 0 then 0
    else SumOthers(nouns, dist, i, n - 1) + (if n - 1 == i then 0 else dist(nouns[i], nouns[n - 1]).value)
  }

  /** The distances from `nouns[i]` to the nouns at every position below `n`, itself included. */
  function SumAll<E>(nouns: seq<string>, dist: (string, string) -> Result<int, E>, i: nat, n: nat): int
    requires i < |nouns| && n <= |nouns|
    requires forall j :: 0 <= j < n ==> dist(nouns[i], nouns[j]).Success?
  {
    if n == 0 then 0 else SumAll(nouns, dist, i, n - 1) + dist(nouns[i], nouns[n - 1]).value
  }

  /** The sum `outcast` computes for position `i`: its distances to the other positions. */
  ghost function RowSum<E>(nouns: seq<string>, dist: (string, string) -> Result<int, E>, i: nat): int
    requires AllDefined(nouns, dist) && i < |nouns|
  {
    SumOthers(nouns, dist, i, |nouns|)
  }

  /**
    Position `i` is excluded from its own sum by position, not by noun: the
    sum is the full row less the one distance of `nouns[i]` to itself, and a
    repeated noun at another position still counts.
   */
  lemma {:induction false} SelfExcluded<E>(nouns: seq<string>, dist: (string, string) -> Result<int, E>, i: nat, n: nat)
    requires i < n <= |nouns|
    requires forall j :: 0 <= j < n ==> dist(nouns[i], nouns[j]).Success?
    ensures SumOthers(nouns, dist, i, n) == SumAll(nouns, dist, i, n) - dist(nouns[i], nouns[i]).value
  {
    if n - 1 != i {
      SelfExcluded(nouns, dist, i, n - 1);
    } else {
      SumsBelowSelf(nouns, dist, i, n - 1);
    }
  }

  /** Below position `i` nothing is excluded. */
  lemma {:induction false} SumsBelowSelf<E>(nouns: seq<string>, dist: (string, string) -> Result<int, E>, i: nat, n: nat)
    requires i < |nouns| && n <= i
    requires forall j :: 0 <= j < n ==> dist(nouns[i], nouns[j]).Success?
    ensures SumOthers(nouns, dist, i, n) == SumAll(nouns, dist, i, n)
  {
    if n > 0 {
      SumsBelowSelf(nouns, dist, i, n - 1);
    }
  }

  /**
    The position `outcast` answers: the first position of the largest sum
    when some sum is positive, and position 0 otherwise (the running best
    starts at 0 and is replaced only by a strictly larger sum).
   */
  ghost predicate IsOutcast<E>(nouns: seq<string>, dist: (string, string) -> Result<int, E>, at: nat)
    requires AllDefined(nouns, dist) && at < |nouns|
  {
    if forall k :: 0 <= k < |nouns| ==> RowSum(nouns, dist, k) <= 0 then at == 0
    else
      && (forall k :: 0 <= k < |nouns| ==> RowSum(nouns, dist, k) <= RowSum(nouns, dist, at))
      && (forall k :: 0 <= k < at ==> RowSum(nouns, dist, k) < RowSum(nouns, dist, at))
  }

  /** At most one position is the outcast. */
  lemma OutcastUnique<E>(nouns: seq<string>, dist: (string, string) -> Result<int, E>, a: nat, b: nat)
    requires AllDefined(nouns, dist) && a < |nouns| && b < |nouns|
    requires IsOutcast(nouns, dist, a) && IsOutcast(nouns, dist, b)
    ensures a == b
  {
    if !(forall k :: 0 <= k < |nouns| ==> RowSum(nouns, dist, k) <= 0) {
      assert RowSum(nouns, dist, a) <= RowSum(nouns, dist, b) <= RowSum(nouns, dist, a);
    }
  }

  /**
    `outcast(nouns)`: the sum of each noun's distances to the nouns at the
    other positions, and the noun of the first largest positive sum, or
    `nouns[0]` when no sum is positive. Distances are asked for in loop
    order; the first that fails ends the search.
   */
  method Outcast<E>(nouns: seq<string>, dist: (string, string) -> Result<int, E>)
    returns (r: Result<string, OutcastError<E>>, at: nat)
    ensures r == Failure(NoNouns) <==> |nouns| == 0
    ensures r.Success? <==> |nouns| > 0 && AllDefined(nouns, dist)
    ensures r.Failure? && r.error.DistanceFailed? ==>
      exists i, j :: 0 <= i < |nouns| && 0 <= j < |nouns| && i != j
        && dist(nouns[i], nouns[j]) == Failure(r.error.error) && PairsBefore(nouns, dist, i, j)
    ensures r.Success? ==> at < |nouns| && r.value == nouns[at] && IsOutcast(nouns, dist, at)
  {
    var n := |nouns|;
    var best := 0;
    at := 0;
    var i := 0;
    while i < n
      invariant 0 <= i <= n
      invariant PairsBefore(nouns, dist, i, 0)
      invariant best >= 0 && (at == 0 || at < i)
      invariant best == 0 ==> at == 0
      invariant best > 0 ==> at < i && best == SumOthers(nouns, dist, at, n)
      invariant forall k :: 0 <= k < i ==> SumOthers(nouns, dist, k, n) <= best
      invariant forall k :: 0 <= k < at ==> SumOthers(nouns, dist, k, n) < best
    {
      var d := 0;
      var j := 0;
      while j < n
        invariant 0 <= j <= n
        invariant PairsBefore(nouns, dist, i, j)
        invariant d == SumOthers(nouns, dist, i, j)
      {
        if i != j {
          var l := dist(nouns[i], nouns[j]);
          if l.Failure? {
            return Failure(DistanceFailed(l.error)), at;
          }
          d := d + l.value;
        }
        j := j + 1;
      }
      if d > best {
        best := d;
        at := i;
      }
      i := i + 1;
    }
    if n == 0 {
      return Failure(NoNouns), at;
    }
    OutcastFound(nouns, dist, at, best);
    r := Success(nouns[at]);
  }

  /** What the loop of `outcast` leaves behind is the outcast. */
  lemma OutcastFound<E>(nouns: seq<string>, dist: (string, string) -> Result<int, E>, at: nat, best: int)
    requires AllDefined(nouns, dist) && at < |nouns|
    requires best >= 0 && (best == 0 ==> at == 0)
    requires best > 0 ==> best == RowSum(nouns, dist, at)
    requires forall k :: 0 <= k < |nouns| ==> RowSum(nouns, dist, k) <= best
    requires forall k :: 0 <= k < at ==> RowSum(nouns, dist, k) < best
    ensures IsOutcast(nouns, dist, at)
  {
  }
}

/**
  Java's `String.compareTo` and `Arrays.sort` on strings, as the noun index
  uses them. A string is a sequence of characters compared by code.
 */
module JavaString {

  /**
    `a.compareTo(b)`: the difference of the first differing characters, or
    of the lengths when one string is a prefix of the other.
   */
  function CompareTo(a: string, b: string): (r: int)
    ensures a == b ==> r == 0
    ensures a != [] && b != [] && a[0] != b[0] ==> r == a[0] as int - b[0] as int
  {
    if a == [] || b == [] then |a| - |b|
    else if a[0] != b[0] then a[0] as int - b[0] as int
    else CompareTo(a[1..], b[1..])
  }

  /** `compareTo` returns 0 exactly on equal strings. */
  lemma {:induction false} CompareZeroIff(a: string, b: string)
    ensures CompareTo(a, b) == 0 <==> a == b
  {
    if a != [] && b != [] && a[0] == b[0] {
      CompareZeroIff(a[1..], b[1..]);
      assert a == [a[0]] + a[1..] && b == [b[0]] + b[1..];
    }
  }

  /** Swapping the arguments negates the result. */
  lemma {:induction false} CompareAntisymmetric(a: string, b: string)
    ensures CompareTo(b, a) == -CompareTo(a, b)
  {
    if a != [] && b != [] && a[0] == b[0] {
      CompareAntisymmetric(a[1..], b[1..]);
    }
  }

  /** The order `compareTo` induces is transitive. */
  lemma {:induction false} CompareTransitive(a: string, b: string, c: string)
    requires CompareTo(a, b) <= 0 && CompareTo(b, c) <= 0
    ensures CompareTo(a, c) <= 0
  {
    if a != [] && b != [] && c != [] && a[0] == b[0] && b[0] == c[0] {
      CompareTransitive(a[1..], b[1..], c[1..]);
    }
  }

  /** Strings ascending by `compareTo`. */
  ghost predicate Sorted(xs: seq<string>) {
    forall i, j :: 0 <= i < j < |xs| ==> CompareTo(xs[i], xs[j]) <= 0
  }

  /** Places `x` before the first element it does not exceed. */
  function Insert(x: string, xs: seq<string>): (r: seq<string>)
    ensures multiset(r) == multiset(xs) + multiset{x}
  {
    if xs == [] then [x]
    else if CompareTo(x, xs[0]) <= 0 then [x] + xs
    else
      assert xs == [xs[0]] + xs[1..];
      [xs[0]] + Insert(x, xs[1..])
  }

  lemma SortedTail(xs: seq<string>)
    requires Sorted(xs) && xs != []
    ensures Sorted(xs[1..])
  {
  }

  /** A string no greater than the head of a sorted sequence may lead it. */
  lemma SortedCons(x: string, xs: seq<string>)
    requires Sorted(xs)
    requires forall j :: 0 <= j < |xs| ==> CompareTo(x, xs[j]) <= 0
    ensures Sorted([x] + xs)
  {
    forall i, j | 0 <= i < j < |xs| + 1
      ensures CompareTo(([x] + xs)[i], ([x] + xs)[j]) <= 0
    {
      if i > 0 {
        assert ([x] + xs)[i] == xs[i - 1];
      }
      assert ([x] + xs)[j] == xs[j - 1];
    }
  }

  /** Inserting keeps a sorted sequence sorted. */
  lemma {:induction false} InsertSorted(x: string, xs: seq<string>)
    requires Sorted(xs)
    ensures Sorted(Insert(x, xs))
  {
    if xs == [] {
    } else if CompareTo(x, xs[0]) <= 0 {
      forall j | 0 <= j < |xs|
        ensures CompareTo(x, xs[j]) <= 0
      {
        if j > 0 {
          CompareTransitive(x, xs[0], xs[j]);
        }
      }
      SortedCons(x, xs);
    } else {
      CompareAntisymmetric(x, xs[0]);
      SortedTail(xs);
      var r := Insert(x, xs[1..]);
      InsertSorted(x, xs[1..]);
      forall j | 0 <= j < |r|
        ensures CompareTo(xs[0], r[j]) <= 0
      {
        assert r[j] in multiset(r);
        if r[j] != x {
          assert r[j] in multiset(xs[1..]);
          var k :| 0 <= k < |xs[1..]| && xs[1..][k] == r[j];
          assert xs[k + 1] == r[j];
        }
      }
      SortedCons(xs[0], r);
    }
  }

  /**
    `Arrays.sort` on strings: the ascending permutation (insertion sort
    here; every sorting algorithm yields the same array, see
    `SortedPermutationUnique`).
   */
  function SortStrings(xs: seq<string>): (r: seq<string>)
    ensures multiset(r) == multiset(xs)
    ensures Sorted(r)
  {
    if xs == [] then []
    else
      assert xs == [xs[0]] + xs[1..];
      var rest := SortStrings(xs[1..]);
      InsertSorted(xs[0], rest);
      Insert(xs[0], rest)
  }

  /** Sorted permutations of the same strings begin alike. */
  lemma SameHead(a: seq<string>, b: seq<string>)
    requires Sorted(a) && Sorted(b) && multiset(a) == multiset(b) && a != []
    ensures b != [] && a[0] == b[0]
  {
    assert a[0] in multiset(b);
    var i :| 0 <= i < |b| && b[i] == a[0];
    assert b[0] in multiset(a);
    var k :| 0 <= k < |a| && a[k] == b[0];
    assert CompareTo(b[0], a[0]) <= 0;
    assert CompareTo(a[0], b[0]) <= 0;
    CompareAntisymmetric(a[0], b[0]);
    CompareZeroIff(a[0], b[0]);
  }

  /** Two sorted permutations of the same strings are equal. */
  lemma {:induction false} SortedPermutationUnique(a: seq<string>, b: seq<string>)
    requires Sorted(a) && Sorted(b) && multiset(a) == multiset(b)
    ensures a == b
    decreases |a|
  {
    if a == [] {
      assert |multiset(b)| == |b|;
    } else {
      SameHead(a, b);
      assert a == [a[0]] + a[1..] && b == [b[0]] + b[1..];
      assert multiset(a) == multiset{a[0]} + multiset(a[1..]);
      assert multiset(b) == multiset{a[0]} + multiset(b[1..]);
      assert multiset(a[1..]) == multiset(a) - multiset{a[0]};
      assert multiset(b[1..]) == multiset(b) - multiset{a[0]};
      SortedTail(a);
      SortedTail(b);
      SortedPermutationUnique(a[1..], b[1..]);
    }
  }
}

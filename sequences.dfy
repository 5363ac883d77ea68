/**
 * The array helpers the core leans on: `unique`, `add` and `remove` of the
 * project's Array module and the `numericAscending` sort order. Their source
 * is not part of this model; each is given its evident meaning.
 */
module Sequences {

  /** No element occurs twice. */
  predicate Distinct<T(==)>(s: seq<T>)
  {
    forall i, j :: 0 <= i < j < |s| ==> s[i] != s[j]
  }

  /** Each element is at most the next one. */
  predicate Ascending(s: seq<int>)
  {
    forall i, j :: 0 <= i < j < |s| ==> s[i] <= s[j]
  }

  /** Each element is below the next one. */
  predicate StrictlyAscending(s: seq<int>)
  {
    forall i, j :: 0 <= i < j < |s| ==> s[i] < s[j]
  }

  lemma DistinctAppend<T>(a: seq<T>, b: seq<T>)
    requires Distinct(a) && Distinct(b)
    requires forall v :: v in a ==> v !in b
    ensures Distinct(a + b)
  {
    var ab := a + b;
    forall i, j | 0 <= i < j < |ab|
      ensures ab[i] != ab[j]
    {
      if j < |a| {
        assert ab[i] == a[i] && ab[j] == a[j];
      } else if i >= |a| {
        assert ab[i] == b[i - |a|] && ab[j] == b[j - |a|];
      } else {
        assert ab[i] == a[i] && a[i] in a;
        assert ab[j] == b[j - |a|] && b[j - |a|] in b;
      }
    }
  }

  /** A sorted list without repeats is strictly ascending, and conversely. */
  lemma StrictlyAscendingIff(s: seq<int>)
    ensures StrictlyAscending(s) <==> Ascending(s) && Distinct(s)
  {
  }

  /** `unique`: the elements in order of first occurrence, each kept once. */
  function Unique(s: seq<int>): (r: seq<int>)
    ensures Distinct(r)
    ensures forall x :: x in r <==> x in s
    ensures |r| <= |s|
  {
    if s == [] then []
    else
      var u := Unique(s[..|s| - 1]);
      var last := s[|s| - 1];
      assert forall x :: x in s <==> x in s[..|s| - 1] || x == last;
      if last in u then u
      else
        DistinctAppend(u, [last]);
        u + [last]
  }

  /** A list without repeats is its own `unique`. */
  lemma {:induction false} UniqueOfDistinct(s: seq<int>)
    requires Distinct(s)
    ensures Unique(s) == s
  {
    if s != [] {
      var front := s[..|s| - 1];
      assert Distinct(front);
      UniqueOfDistinct(front);
      assert s[|s| - 1] !in front;
      assert front + [s[|s| - 1]] == s;
    }
  }

  /** `add(array, value, index)`: `value` inserted at `index`. */
  function Add(a: seq<int>, v: int, i: int): (r: seq<int>)
    requires 0 <= i <= |a|
    ensures |r| == |a| + 1 && r[i] == v
    ensures forall j :: 0 <= j < i ==> r[j] == a[j]
    ensures forall j :: i <= j < |a| ==> r[j + 1] == a[j]
    ensures multiset(r) == multiset(a) + multiset{v}
  {
    assert a == a[..i] + a[i..];
    a[..i] + [v] + a[i..]
  }

  /** `remove(array, index)`: the element at `index` deleted, the rest kept in order. */
  function Remove(a: seq<int>, i: int): (r: seq<int>)
    requires 0 <= i < |a|
    ensures |r| == |a| - 1
    ensures forall j :: 0 <= j < i ==> r[j] == a[j]
    ensures forall j :: i <= j < |r| ==> r[j] == a[j + 1]
    ensures multiset(r) == multiset(a) - multiset{a[i]}
  {
    assert a == a[..i] + [a[i]] + a[i + 1..];
    a[..i] + a[i + 1..]
  }

  /** Places `x` into an ascending list before its first larger element. */
  function Insert(x: int, s: seq<int>): (r: seq<int>)
    requires Ascending(s)
    ensures Ascending(r)
    ensures forall y :: y in r <==> y == x || y in s
    ensures multiset(r) == multiset(s) + multiset{x}
  {
    if s == [] then [x]
    else if x <= s[0] then [x] + s
    else
      var t := Insert(x, s[1..]);
      assert s == [s[0]] + s[1..];
      ConsAscending(s[0], t);
      [s[0]] + t
  }

  /** A list stays ascending with an element in front that is at most all of its elements. */
  lemma ConsAscending(x: int, s: seq<int>)
    requires Ascending(s) && forall y :: y in s ==> x <= y
    ensures Ascending([x] + s)
  {
    var r := [x] + s;
    forall i, j | 0 <= i < j < |r|
      ensures r[i] <= r[j]
    {
      assert r[j] == s[j - 1] && s[j - 1] in s;
    }
  }

  /** `sort(numericAscending)`: the ascending permutation of `s`. */
  function SortAscending(s: seq<int>): (r: seq<int>)
    ensures Ascending(r)
    ensures multiset(r) == multiset(s)
  {
    if s == [] then []
    else
      assert s == [s[0]] + s[1..];
      Insert(s[0], SortAscending(s[1..]))
  }

  /** An ascending list sorts to itself; with the multiset ensures this makes the sort unique. */
  lemma {:induction false} SortedUnique(a: seq<int>, b: seq<int>)
    requires Ascending(a) && Ascending(b) && multiset(a) == multiset(b)
    ensures a == b
    decreases |a|
  {
    if a != [] {
      assert a[0] in multiset(a);
      assert b != [];
      assert b[0] in multiset(b);
      MinimumOfAscending(a, b[0]);
      MinimumOfAscending(b, a[0]);
      assert a[0] == b[0];
      assert a == [a[0]] + a[1..];
      assert b == [b[0]] + b[1..];
      assert multiset(a[1..]) == multiset(a) - multiset{a[0]};
      assert multiset(b[1..]) == multiset(b) - multiset{b[0]};
      SortedUnique(a[1..], b[1..]);
    }
  }

  lemma MinimumOfAscending(s: seq<int>, x: int)
    requires Ascending(s) && x in multiset(s)
    ensures s[0] <= x
  {
    assert x in s;
  }

  /** An ascending list is its own sort. */
  lemma SortOfAscending(s: seq<int>)
    requires Ascending(s)
    ensures SortAscending(s) == s
  {
    SortedUnique(SortAscending(s), s);
  }

  /** A prefix of `s` grown by the element of `s` that follows it is the next prefix. */
  lemma PrefixExtend(s: seq<int>, prefix: seq<int>, v: int)
    requires |prefix| < |s| && prefix == s[..|prefix|] && v == s[|prefix|]
    ensures prefix + [v] == s[..|prefix| + 1]
  {
  }

  /** In a list without repeats every element occurs once. */
  lemma MultisetOfDistinct(s: seq<int>)
    requires Distinct(s)
    ensures forall x :: x in s ==> multiset(s)[x] == 1
  {
    forall x | x in s
      ensures multiset(s)[x] == 1
    {
      var i :| 0 <= i < |s| && s[i] == x;
      assert s == s[..i] + [x] + s[i + 1..];
      assert forall k :: 0 <= k < i ==> s[k] != x;
      assert x !in s[..i];
      assert x !in s[i + 1..];
    }
  }

  /** A list whose elements each occur at most once has no repeats. */
  lemma DistinctOfMultiset(s: seq<int>)
    requires forall x :: multiset(s)[x] <= 1
    ensures Distinct(s)
  {
    forall i, j | 0 <= i < j < |s|
      ensures s[i] != s[j]
    {
      TwoOccurrences(s, i, j);
    }
  }

  lemma TwoOccurrences(s: seq<int>, i: int, j: int)
    requires 0 <= i < j < |s|
    ensures s[i] == s[j] ==> multiset(s)[s[i]] >= 2
  {
    assert s == s[..i] + [s[i]] + s[i + 1..j] + [s[j]] + s[j + 1..];
  }

  /** A permutation of a list without repeats has none either. */
  lemma DistinctOfPermutation(a: seq<int>, b: seq<int>)
    requires Distinct(a) && multiset(a) == multiset(b)
    ensures Distinct(b)
  {
    MultisetOfDistinct(a);
    forall x
      ensures multiset(b)[x] <= 1
    {
      if x in a {
      } else {
        assert x !in multiset(a);
      }
    }
    DistinctOfMultiset(b);
  }

  /** Two strictly ascending lists with the same elements are equal. */
  lemma SameMembersStrictlyAscending(a: seq<int>, b: seq<int>)
    requires StrictlyAscending(a) && StrictlyAscending(b)
    requires forall x :: x in a <==> x in b
    ensures a == b
  {
    StrictlyAscendingIff(a);
    StrictlyAscendingIff(b);
    MultisetOfDistinct(a);
    MultisetOfDistinct(b);
    assert multiset(a) == multiset(b) by {
      forall x
        ensures multiset(a)[x] == multiset(b)[x]
      {
        if x !in a {
          assert x !in multiset(a) && x !in multiset(b);
        }
      }
    }
    SortedUnique(a, b);
  }
}

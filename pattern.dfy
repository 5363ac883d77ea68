/**
 * Pattern.ts and the `matchPattern` helper of GenerationCa.ts and
 * LifelikeCa.ts: birth and survival patterns are lists of neighbour counts.
 */
module Pattern {
  import opened Wrappers
  import opened Sequences

  /** `array.findIndex(isMatch)`: the first index whose element satisfies `isMatch`, or -1. */
  function FindIndex(s: seq<int>, isMatch: int -> bool): (i: int)
    ensures -1 <= i < |s|
    ensures i == -1 <==> forall j :: 0 <= j < |s| ==> !isMatch(s[j])
    ensures 0 <= i ==> isMatch(s[i]) && forall j :: 0 <= j < i ==> !isMatch(s[j])
  {
    if s == [] then -1
    else if isMatch(s[0]) then 0
    else
      var i := FindIndex(s[1..], isMatch);
      assert forall j :: 1 <= j < |s| ==> s[1..][j - 1] == s[j];
      if i == -1 then -1 else i + 1
  }

  /** `array.indexOf(value)`: the first index holding `value`, or -1. */
  function IndexOf(s: seq<int>, value: int): (i: int)
    ensures -1 <= i < |s|
    ensures i == -1 <==> value !in s
    ensures 0 <= i ==> s[i] == value && value !in s[..i]
  {
    FindIndex(s, x => x == value)
  }

  /** matchPattern: `pattern.find(count => count === value)`, the first listed
      count equal to `value`, or undefined. */
  function MatchPattern(value: int, pattern: seq<int>): (r: Option<int>)
    ensures r.Some? <==> value in pattern
    ensures r.Some? ==> r.value == value
  {
    if pattern == [] then None
    else if pattern[0] == value then Some(pattern[0])
    else MatchPattern(value, pattern[1..])
  }

  /** The test `matchPattern(sum, pattern) ? ... : ...`: since `find` hands back
      the count itself, a listed count of 0 is falsy and never matches. */
  function Matches(value: int, pattern: seq<int>): (b: bool)
    ensures b <==> value in pattern && value != 0
  {
    Truthy(MatchPattern(value, pattern))
  }

  /** addAscendingOrder: `addValue` goes in front of the first larger element,
      or at the end when there is none. */
  function AddAscendingOrder(values: seq<int>, addValue: int): (r: seq<int>)
    ensures multiset(r) == multiset(values) + multiset{addValue}
    ensures Ascending(values) ==> Ascending(r)
    ensures StrictlyAscending(values) && addValue !in values ==> StrictlyAscending(r)
  {
    var firstLargerIndex := FindIndex(values, value => value > addValue);
    if firstLargerIndex == -1 then
      assert values + [addValue] == Add(values, addValue, |values|);
      InsertKeepsOrder(values, addValue, |values|);
      values + [addValue]
    else
      InsertKeepsOrder(values, addValue, firstLargerIndex);
      Add(values, addValue, firstLargerIndex)
  }

  /** Inserting after every element not above `v` and before a larger one keeps a list sorted. */
  lemma InsertKeepsOrder(values: seq<int>, v: int, i: int)
    requires 0 <= i <= |values|
    requires forall j :: 0 <= j < i ==> values[j] <= v
    requires i < |values| ==> values[i] > v
    ensures Ascending(values) ==> Ascending(Add(values, v, i))
    ensures StrictlyAscending(values) && v !in values ==> StrictlyAscending(Add(values, v, i))
  {
    var r := Add(values, v, i);
    assert forall j :: 0 <= j < |r| ==> r[j] == if j < i then values[j] else if j == i then v else values[j - 1];
    if Ascending(values) {
      forall j, k | 0 <= j < k < |r|
        ensures r[j] <= r[k]
      {
        if k == i && j < i {
          assert r[j] == values[j];
        } else if j == i && k > i {
          assert values[i] > v;
        }
      }
    }
    if StrictlyAscending(values) && v !in values {
      forall j, k | 0 <= j < k < |r|
        ensures r[j] < r[k]
      {
        if k == i && j < i {
          assert r[j] == values[j] && values[j] in values;
        } else if j == i && k > i {
          assert values[i] > v;
        }
      }
    }
  }

  /** updatePattern: a count's checkbox toggled to `isChecked`. */
  function UpdatePattern(pattern: seq<int>, value: int, isChecked: bool): (r: seq<int>)
    ensures (value in pattern) == isChecked ==> r == pattern
    ensures multiset(r) == if (value in pattern) == isChecked then multiset(pattern)
                           else if isChecked then multiset(pattern) + multiset{value}
                           else multiset(pattern) - multiset{value}
    ensures isChecked ==> value in r
    ensures Ascending(pattern) ==> Ascending(r)
    ensures StrictlyAscending(pattern) ==> StrictlyAscending(r)
  {
    var foundIndex := IndexOf(pattern, value);
    if foundIndex == -1 then
      if isChecked then
        var r := AddAscendingOrder(pattern, value);
        assert value in multiset(r);
        r
      else pattern
    else
      if isChecked then pattern
      else RemoveKeepsOrder(pattern, foundIndex); Remove(pattern, foundIndex)
  }

  /** Deleting one element keeps the rest in their order, so sortedness survives. */
  lemma RemoveKeepsOrder(a: seq<int>, i: int)
    requires 0 <= i < |a|
    ensures Ascending(a) ==> Ascending(Remove(a, i))
    ensures StrictlyAscending(a) ==> StrictlyAscending(Remove(a, i))
  {
    var r := Remove(a, i);
    assert forall j :: 0 <= j < |r| ==> r[j] == a[if j < i then j else j + 1];
  }

  /** Unticking removes the count's only occurrence: on a pattern without
      repeats the count is listed afterwards exactly when it is ticked. */
  lemma UpdatePatternMembership(pattern: seq<int>, value: int, isChecked: bool)
    requires Distinct(pattern)
    ensures value in UpdatePattern(pattern, value, isChecked) <==> isChecked
    ensures Distinct(UpdatePattern(pattern, value, isChecked))
  {
    var r := UpdatePattern(pattern, value, isChecked);
    MultisetOfDistinct(pattern);
    if (value in pattern) != isChecked {
      if isChecked {
        assert multiset(r) == multiset(pattern) + multiset{value};
        assert value !in multiset(pattern);
      } else {
        assert multiset(pattern)[value] == 1;
        assert multiset(r)[value] == 0;
      }
    }
    DistinctOfMultiset(r);
  }

  /** Applying the same toggle twice is the same as applying it once. */
  lemma UpdatePatternIdempotent(pattern: seq<int>, value: int, isChecked: bool)
    requires Distinct(pattern)
    ensures UpdatePattern(UpdatePattern(pattern, value, isChecked), value, isChecked)
         == UpdatePattern(pattern, value, isChecked)
  {
    UpdatePatternMembership(pattern, value, isChecked);
  }
}

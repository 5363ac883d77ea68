/**
 * Interpolate.ts: `{{name}}` placeholders in a message key are replaced by
 * the option of that (trimmed) name.
 */
module Interpolate {
  import opened Wrappers
  import opened EcmaScript

  const UnclosedMessage := "Invalid key. Parameter does not have closing braces."

  /** `options[parameter]` appended to a string: a missing option reads as
      undefined and is written "undefined". */
  function Lookup(options: map<string, string>, parameter: string): string
  {
    if parameter in options then options[parameter] else "undefined"
  }

  /** A `{{` starts at `i`. */
  predicate OpensAt(key: string, i: int)
  {
    0 <= i && i + 1 < |key| && key[i] == '{' && key[i + 1] == '{'
  }

  /** A `}}` starts at `k`. */
  predicate ClosesAt(key: string, k: int)
  {
    0 <= k && k + 1 < |key| && key[k] == '}' && key[k + 1] == '}'
  }

  /** `key.indexOf("}}", from)`: the first `}}` at or after `from`, or -1 when there is none. */
  function ClosingIndex(key: string, from: nat): (r: int)
    ensures r == -1 || (from <= r && ClosesAt(key, r))
    ensures r == -1 ==> forall k :: from <= k ==> !ClosesAt(key, k)
    ensures r != -1 ==> forall k :: from <= k < r ==> !ClosesAt(key, k)
    decreases |key| - from
  {
    if from + 1 >= |key| then -1
    else if ClosesAt(key, from) then from
    else ClosingIndex(key, from + 1)
  }

  /** A `}}` at `e` with none between `from` and `e` is the one the search finds. */
  lemma {:induction false} ClosingIndexAt(key: string, from: nat, e: int)
    requires from <= e && ClosesAt(key, e)
    requires forall k :: from <= k < e ==> !ClosesAt(key, k)
    ensures ClosingIndex(key, from) == e
    decreases e - from
  {
    if from < e {
      ClosingIndexAt(key, from + 1, e);
    }
  }

  /**
   * What the loop ends with when it reaches index `i` having built `acc`. A
   * `{{` looks for the next `}}` after it and throws when there is none; the
   * loop then resumes one past `endBraceIndex + 2`, so the character right
   * after `}}` is dropped. Any other character, a lone `{` included, is
   * copied.
   */
  function InterpolateFrom(key: string, options: map<string, string>, i: nat, acc: string): Completion<string>
    decreases |key| - i
  {
    if i >= |key| then Normal(acc)
    else if OpensAt(key, i) then
      var endBraceIndex := ClosingIndex(key, i + 2);
      if endBraceIndex == -1 then Throw(UnclosedMessage)
      else InterpolateFrom(key, options, endBraceIndex + 2 + 1, acc + Lookup(options, Trim(key[i + 2..endBraceIndex])))
    else InterpolateFrom(key, options, i + 1, acc + [key[i]])
  }

  /** interpolate: the `for` loop over the key, whose index jumps over each placeholder. */
  method Interpolate(key: string, options: map<string, string>) returns (r: Completion<string>)
    ensures r == InterpolateFrom(key, options, 0, "")
  {
    var result := "";
    var i := 0;
    while i < |key|
      invariant 0 <= i
      invariant InterpolateFrom(key, options, 0, "") == InterpolateFrom(key, options, i, result)
      decreases |key| - i
    {
      var nextChar := key[i];
      if nextChar == '{' && i + 1 < |key| && key[i + 1] == '{' {
        var parameterStartIndex := i + 2;
        var endBraceIndex := ClosingIndex(key, parameterStartIndex);
        if endBraceIndex == -1 {
          return Throw(UnclosedMessage);
        }
        result := result + Lookup(options, Trim(key[parameterStartIndex..endBraceIndex]));
        i := endBraceIndex + 2;
      } else {
        result := result + [nextChar];
      }
      i := i + 1;
    }
    return Normal(result);
  }

  /** A character that does not start `{{` is copied. */
  lemma CopyUnfold(key: string, options: map<string, string>, i: nat, acc: string)
    requires i < |key| && !OpensAt(key, i)
    ensures InterpolateFrom(key, options, i, acc) == InterpolateFrom(key, options, i + 1, acc + [key[i]])
  {
  }

  /** No `{{` from `i` on: the rest of the key is copied as it is, single
      braces of either kind included. */
  lemma {:induction false} NoPlaceholderCopied(key: string, options: map<string, string>, i: nat, acc: string)
    requires forall k :: i <= k ==> !OpensAt(key, k)
    ensures InterpolateFrom(key, options, i, acc) == Normal(acc + if i <= |key| then key[i..] else "")
    decreases |key| - i
  {
    if i < |key| {
      CopyUnfold(key, options, i, acc);
      NoPlaceholderCopied(key, options, i + 1, acc + [key[i]]);
      assert key[i..] == [key[i]] + if i + 1 <= |key| then key[i + 1..] else "";
      assert acc + [key[i]] + (if i + 1 <= |key| then key[i + 1..] else "") == acc + key[i..];
    } else {
      assert acc + "" == acc;
    }
  }

  /** A key without `{{`, in particular one without `{`, is returned unchanged. */
  lemma NoPlaceholderUnchanged(key: string, options: map<string, string>)
    requires forall k :: !OpensAt(key, k)
    ensures InterpolateFrom(key, options, 0, "") == Normal(key)
  {
    NoPlaceholderCopied(key, options, 0, "");
    assert "" + key[0..] == key;
  }

  /**
   * A placeholder `{{name}}` at `i`, `name` without `}`, is replaced by the
   * option named by the trimmed `name`, and the character right after the
   * closing `}}` (at `i + |name| + 4`) is skipped.
   */
  lemma PlaceholderReplaced(key: string, options: map<string, string>, i: nat, name: string, acc: string)
    requires i + |name| + 4 <= |key|
    requires key[i..i + 2] == "{{" && key[i + 2..i + 2 + |name|] == name && key[i + 2 + |name|..i + 4 + |name|] == "}}"
    requires '}' !in name
    ensures InterpolateFrom(key, options, i, acc)
         == InterpolateFrom(key, options, i + |name| + 5, acc + Lookup(options, Trim(name)))
  {
    PlaceholderFound(key, i, name);
    PlaceholderAt(key, options, i, acc, name);
  }

  /** The step at an opening `{{` whose closing `}}` follows `name`. */
  lemma PlaceholderAt(key: string, options: map<string, string>, i: nat, acc: string, name: string)
    requires i + 2 + |name| <= |key| && key[i + 2..i + 2 + |name|] == name
    requires OpensAt(key, i) && ClosingIndex(key, i + 2) == i + 2 + |name|
    ensures InterpolateFrom(key, options, i, acc)
         == InterpolateFrom(key, options, i + |name| + 5, acc + Lookup(options, Trim(name)))
  {
    PlaceholderUnfold(key, options, i, acc);
    ResumeAfter(key, options, i, acc, i + 2 + |name|, name);
  }

  lemma ResumeAfter(key: string, options: map<string, string>, i: nat, acc: string, e: nat, name: string)
    requires e == i + 2 + |name| && e <= |key| && key[i + 2..e] == name
    requires InterpolateFrom(key, options, i, acc) == InterpolateFrom(key, options, e + 2 + 1, acc + Lookup(options, Trim(key[i + 2..e])))
    ensures InterpolateFrom(key, options, i, acc) == InterpolateFrom(key, options, i + |name| + 5, acc + Lookup(options, Trim(name)))
  {
    assert e + 2 + 1 == i + |name| + 5;
  }

  /** The `{{` of a placeholder `{{name}}` opens it and its `}}` is the first after it. */
  lemma PlaceholderFound(key: string, i: nat, name: string)
    requires i + |name| + 4 <= |key|
    requires key[i..i + 2] == "{{" && key[i + 2..i + 2 + |name|] == name && key[i + 2 + |name|..i + 4 + |name|] == "}}"
    requires '}' !in name
    ensures OpensAt(key, i) && ClosingIndex(key, i + 2) == i + 2 + |name|
  {
    var e := i + 2 + |name|;
    assert OpensAt(key, i) by {
      assert key[i] == key[i..i + 2][0] && key[i + 1] == key[i..i + 2][1];
    }
    assert ClosesAt(key, e) by {
      assert key[e] == key[e..e + 2][0] && key[e + 1] == key[e..e + 2][1];
    }
    forall k | i + 2 <= k < e
      ensures !ClosesAt(key, k)
    {
      assert key[k] == name[k - i - 2];
      assert key[k] in name;
    }
    ClosingIndexAt(key, i + 2, e);
  }

  /** One step of the loop at a closed placeholder. */
  lemma PlaceholderUnfold(key: string, options: map<string, string>, i: nat, acc: string)
    requires OpensAt(key, i) && ClosingIndex(key, i + 2) != -1
    ensures var e := ClosingIndex(key, i + 2);
      InterpolateFrom(key, options, i, acc) == InterpolateFrom(key, options, e + 2 + 1, acc + Lookup(options, Trim(key[i + 2..e])))
  {
  }

  /** `{{` with no `}}` after it throws, whatever was built before it. */
  lemma UnclosedThrows(key: string, options: map<string, string>, i: nat)
    requires forall k :: 0 <= k < i ==> !OpensAt(key, k)
    requires OpensAt(key, i) && ClosingIndex(key, i + 2) == -1
    ensures InterpolateFrom(key, options, 0, "") == Throw(UnclosedMessage)
  {
    UnclosedThrowsFrom(key, options, 0, i, "");
  }

  lemma {:induction false} UnclosedThrowsFrom(key: string, options: map<string, string>, j: nat, i: nat, acc: string)
    requires j <= i
    requires forall k :: j <= k < i ==> !OpensAt(key, k)
    requires OpensAt(key, i) && ClosingIndex(key, i + 2) == -1
    ensures InterpolateFrom(key, options, j, acc) == Throw(UnclosedMessage)
    decreases i - j
  {
    if j < i {
      UnclosedThrowsFrom(key, options, j + 1, i, acc + [key[j]]);
    }
  }
}

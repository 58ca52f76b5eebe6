/** The two value-level operations a Rust `Vec` offers that the hole loop
    uses besides sorting: `retain` (keep the elements a closure accepts, in
    their original order) and `reverse`. */
module Sequences {

  /** The elements of `s` that `keep` accepts, in their original order: what
      `Vec::retain(keep)` leaves behind. */
  function Filter<T>(keep: T -> bool, s: seq<T>): (r: seq<T>)
    ensures |r| <= |s|
  {
    if |s| == 0 then []
    else Filter(keep, s[..|s| - 1]) + (if keep(s[|s| - 1]) then [s[|s| - 1]] else [])
  }

  /** `s` in reverse order: what `Vec::reverse` leaves behind. */
  function Reversed<T>(s: seq<T>): (r: seq<T>)
    ensures |r| == |s|
  {
    if |s| == 0 then [] else [s[|s| - 1]] + Reversed(s[..|s| - 1])
  }

  /** Filtering distributes over concatenation. */
  lemma {:induction false} FilterConcat<T>(keep: T -> bool, a: seq<T>, b: seq<T>)
    ensures Filter(keep, a + b) == Filter(keep, a) + Filter(keep, b)
  {
    if |b| == 0 {
      assert a + b == a;
    } else {
      assert (a + b)[..|a + b| - 1] == a + b[..|b| - 1];
      FilterConcat(keep, a, b[..|b| - 1]);
    }
  }

  /** Every element survives as often as it occurs, exactly when `keep`
      accepts it: filtering removes the rejected elements and nothing else. */
  lemma {:induction false} FilterCount<T>(keep: T -> bool, s: seq<T>, x: T)
    ensures multiset(Filter(keep, s))[x] == if keep(x) then multiset(s)[x] else 0
  {
    if |s| > 0 {
      FilterCount(keep, s[..|s| - 1], x);
      assert s == s[..|s| - 1] + [s[|s| - 1]];
    }
  }

  lemma FilterMember<T>(keep: T -> bool, s: seq<T>, x: T)
    ensures x in Filter(keep, s) <==> x in s && keep(x)
  {
    FilterCount(keep, s, x);
    assert x in Filter(keep, s) <==> multiset(Filter(keep, s))[x] > 0;
    assert x in s <==> multiset(s)[x] > 0;
  }

  /** Where `s[i]` lands in `Filter(keep, s)`: the number of accepted elements
      before it. */
  function FilterPos<T>(keep: T -> bool, s: seq<T>, i: nat): nat
    requires i <= |s|
  {
    |Filter(keep, s[..i])|
  }

  lemma FilterOfPrefix<T>(keep: T -> bool, s: seq<T>, i: nat)
    requires i <= |s|
    ensures Filter(keep, s[..i]) <= Filter(keep, s)
  {
    assert s == s[..i] + s[i..];
    FilterConcat(keep, s[..i], s[i..]);
  }

  lemma FilterOfPrefixStep<T>(keep: T -> bool, s: seq<T>, i: nat)
    requires i < |s|
    ensures Filter(keep, s[..i + 1]) == Filter(keep, s[..i]) + (if keep(s[i]) then [s[i]] else [])
  {
    assert s[..i + 1][..i] == s[..i];
  }

  /** An accepted element is found in the filtered sequence at its position. */
  lemma FilterAt<T>(keep: T -> bool, s: seq<T>, i: nat)
    requires i < |s| && keep(s[i])
    ensures FilterPos(keep, s, i) < |Filter(keep, s)|
    ensures Filter(keep, s)[FilterPos(keep, s, i)] == s[i]
  {
    assert s[..i + 1][..i] == s[..i];
    assert Filter(keep, s[..i + 1]) == Filter(keep, s[..i]) + [s[i]];
    FilterOfPrefix(keep, s, i + 1);
  }

  /** Filtering keeps relative order: two accepted elements `s[i]`, `s[j]`
      with `i < j` sit at increasing positions of the result. */
  lemma FilterKeepsOrder<T>(keep: T -> bool, s: seq<T>, i: nat, j: nat)
    requires i < j < |s| && keep(s[i]) && keep(s[j])
    ensures FilterPos(keep, s, i) < FilterPos(keep, s, j) < |Filter(keep, s)|
    ensures Filter(keep, s)[FilterPos(keep, s, i)] == s[i]
    ensures Filter(keep, s)[FilterPos(keep, s, j)] == s[j]
  {
    FilterAt(keep, s, i);
    FilterAt(keep, s, j);
    assert s[..j] == s[..j][..i + 1] + s[..j][i + 1..];
    FilterConcat(keep, s[..j][..i + 1], s[..j][i + 1..]);
    assert s[..j][..i + 1] == s[..i + 1];
    assert s[..i + 1][..i] == s[..i];
    assert Filter(keep, s[..i + 1]) == Filter(keep, s[..i]) + [s[i]];
  }

  /** Two filters in a row are one filter by their conjunction. */
  lemma {:induction false} FilterFilter<T>(first: T -> bool, second: T -> bool, both: T -> bool, s: seq<T>)
    requires forall x :: both(x) == (first(x) && second(x))
    ensures Filter(second, Filter(first, s)) == Filter(both, s)
  {
    if |s| > 0 {
      var last := s[|s| - 1];
      FilterFilter(first, second, both, s[..|s| - 1]);
      FilterConcat(second, Filter(first, s[..|s| - 1]), if first(last) then [last] else []);
      assert both(last) == (first(last) && second(last));
    }
  }

  lemma {:induction false} ReversedAt<T>(s: seq<T>, k: nat)
    requires k < |s|
    ensures Reversed(s)[k] == s[|s| - 1 - k]
  {
    if k > 0 {
      ReversedAt(s[..|s| - 1], k - 1);
    }
  }

  lemma {:induction false} ReversedMultiset<T>(s: seq<T>)
    ensures multiset(Reversed(s)) == multiset(s)
  {
    if |s| > 0 {
      ReversedMultiset(s[..|s| - 1]);
      assert s == s[..|s| - 1] + [s[|s| - 1]];
    }
  }

  /** Reversing twice gives back the original sequence. */
  lemma ReversedReversed<T>(s: seq<T>)
    ensures Reversed(Reversed(s)) == s
  {
    forall k | 0 <= k < |s|
      ensures Reversed(Reversed(s))[k] == s[k]
    {
      ReversedAt(Reversed(s), k);
      ReversedAt(s, |s| - 1 - k);
    }
  }
}

/** The part of Rust's `Vec<T>` that the hole loop uses: a buffer of slots
    whose first `len` slots hold the contents, updated in place by `retain`,
    `reverse` and `sort_by_key`. */
module Vectors {
  import opened Lex
  import opened Sequences
  import opened StableSort

  class Vec<T> {
    var elems: array<T>
    var len: nat

    ghost predicate Valid()
      reads this
    {
      len <= elems.Length
    }

    /** The elements the vector holds, in order. */
    ghost function Contents(): seq<T>
      reads this, elems
      requires Valid()
    {
      elems[..len]
    }

    constructor FromSeq(s: seq<T>)
      ensures Valid() && fresh(elems)
      ensures Contents() == s
    {
      elems := new T[|s|](i requires 0 <= i < |s| => s[i]);
      len := |s|;
    }

    /** `Vec::len`. */
    function Len(): (n: nat)
      reads this, elems
      requires Valid()
      ensures n == |Contents()|
    {
      len
    }

    /** `Vec::retain(keep)`: compacts the accepted elements to the front of
        the buffer, in their original order. */
    method Retain(keep: T -> bool)
      requires Valid()
      modifies this, elems
      ensures Valid() && elems == old(elems)
      ensures Contents() == Filter(keep, old(Contents()))
    {
      len := Compact(elems, len, keep);
    }

    /** `Vec::reverse`: swaps the elements pairwise from both ends. */
    method Reverse()
      requires Valid()
      modifies elems
      ensures Valid()
      ensures Contents() == Reversed(old(Contents()))
    {
      var a, n := elems, len;
      ghost var s := a[..n];
      var i := 0;
      while i < n / 2
        modifies a
        invariant 0 <= i <= n / 2
        invariant forall k :: 0 <= k < i ==> a[k] == s[n - 1 - k] && a[n - 1 - k] == s[k]
        invariant forall k :: i <= k < n - i ==> a[k] == s[k]
      {
        a[i], a[n - 1 - i] := a[n - 1 - i], a[i];
        i := i + 1;
      }
      forall k | 0 <= k < n
        ensures a[k] == Reversed(s)[k]
      {
        ReversedAt(s, k);
      }
    }

    /** `Vec::sort_by_key(key)`: a stable sort, here by insertion, shifting
        every element whose key is strictly greater one slot to the right. */
    method SortByKey(key: T -> string)
      requires Valid()
      modifies elems
      ensures Valid()
      ensures Contents() == InsertionSort(key, old(Contents()))
    {
      var a, n := elems, len;
      ghost var s := a[..n];
      var i := 0;
      while i < n
        modifies a
        invariant 0 <= i <= n
        invariant a[..i] == InsertionSort(key, s[..i])
        invariant a[i..n] == s[i..]
      {
        assert a[i] == a[i..n][0] == s[i];
        assert s[..i + 1] == s[..i] + [a[i]];
        ghost var tail := a[i + 1..];
        assert a[i + 1..n] == tail[..n - i - 1] == s[i + 1..];
        InsertInPlace(a, i, key);
        assert a[i + 1..n] == tail[..n - i - 1];
        i := i + 1;
      }
      assert s[..n] == s;
    }
  }

  /** The loop of `Vec::retain`: copies each accepted element of `a[..n]` to
      the next free slot at the front and returns how many there were. */
  method Compact<T>(a: array<T>, n: nat, keep: T -> bool) returns (w: nat)
    requires n <= a.Length
    modifies a
    ensures w <= n
    ensures a[..w] == Filter(keep, old(a[..n]))
  {
    ghost var s := a[..n];
    w := 0;
    var r := 0;
    while r < n
      invariant 0 <= w <= r <= n
      invariant a[..w] == Filter(keep, s[..r])
      invariant forall m :: r <= m < n ==> a[m] == s[m]
    {
      var x := a[r];
      FilterOfPrefixStep(keep, s, r);
      if keep(x) {
        a[w] := x;
        w := w + 1;
      }
      r := r + 1;
    }
    assert s[..n] == s;
  }

  /** One step of the in-place insertion sort: moves `a[i]` left past every
      element of the sorted-so-far prefix `a[..i]` whose key is strictly
      greater. */
  method InsertInPlace<T>(a: array<T>, i: nat, key: T -> string)
    requires i < a.Length
    modifies a
    ensures a[..i + 1] == Insert(key, old(a[..i]), old(a[i]))
    ensures a[i + 1..] == old(a[i + 1..])
  {
    var x := a[i];
    ghost var p := a[..i];
    var j := i;
    while j > 0 && !LexLe(key(a[j - 1]), key(x))
      invariant 0 <= j <= i
      invariant a[..j] == p[..j]
      invariant a[j + 1..i + 1] == p[j..]
      invariant forall k :: j <= k < i ==> !LexLe(key(p[k]), key(x))
      invariant a[i + 1..] == old(a[i + 1..])
    {
      a[j] := a[j - 1];
      j := j - 1;
    }
    a[j] := x;
    InsertAt(key, p, x, j);
    assert a[..i + 1] == a[..j] + [a[j]] + a[j + 1..i + 1];
  }

  /** The slot the in-place insertion finds is where `Insert` puts `x`. */
  lemma {:induction false} InsertAt<T>(key: T -> string, p: seq<T>, x: T, j: nat)
    requires j <= |p|
    requires forall k :: j <= k < |p| ==> !LexLe(key(p[k]), key(x))
    requires j == 0 || LexLe(key(p[j - 1]), key(x))
    ensures Insert(key, p, x) == p[..j] + [x] + p[j..]
    decreases |p|
  {
    if j < |p| {
      var init := p[..|p| - 1];
      InsertAt(key, init, x, j);
      assert init[..j] == p[..j];
      assert p[j..] == init[j..] + [p[|p| - 1]];
    }
  }
}

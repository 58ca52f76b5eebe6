/** Stable sorting by a string key, as `Vec::sort_by_key` does it when the key
    is a `String`.

    The reference definition is insertion sort. Rust's library uses another
    algorithm, but a stable sort has only one possible result: the lemma
    `StableSortIsUnique` shows that any ordering that is sorted by the key and
    keeps, for every key value, the input order of the elements with that key
    is exactly `InsertionSort`. */
module StableSort {
  import opened Lex
  import opened Sequences

  /** Non-decreasing by `key` in Rust's string order. */
  predicate SortedBy<T>(key: T -> string, s: seq<T>)
  {
    forall i, j :: 0 <= i < j < |s| ==> LexLe(key(s[i]), key(s[j]))
  }

  /** Non-increasing by `key` in Rust's string order. */
  predicate SortedDescendingBy<T>(key: T -> string, s: seq<T>)
  {
    forall i, j :: 0 <= i < j < |s| ==> LexLe(key(s[j]), key(s[i]))
  }

  /** Accepts exactly the elements whose key is `k`. */
  function HasKey<T>(key: T -> string, k: string): T -> bool
  {
    x => key(x) == k
  }

  /** `r` orders the elements of each key class as `s` does: the elements
      with any one key appear in `r` in the same order as in `s`. This is
      what "stable" means, and it also makes `r` a permutation of `s`
      (`StablyOrderedPermutation`). */
  ghost predicate KeepsKeyClassOrder<T>(key: T -> string, r: seq<T>, s: seq<T>)
  {
    forall k :: Filter(HasKey(key, k), r) == Filter(HasKey(key, k), s)
  }

  /** Inserts `x` into `s` after every element whose key is `<=` the key of
      `x`, scanning from the end. */
  function Insert<T>(key: T -> string, s: seq<T>, x: T): seq<T>
  {
    if |s| == 0 then [x]
    else if LexLe(key(s[|s| - 1]), key(x)) then s + [x]
    else Insert(key, s[..|s| - 1], x) + [s[|s| - 1]]
  }

  /** Inserts the elements of `s` one at a time, from the left. */
  function InsertionSort<T>(key: T -> string, s: seq<T>): seq<T>
  {
    if |s| == 0 then [] else Insert(key, InsertionSort(key, s[..|s| - 1]), s[|s| - 1])
  }

  lemma {:induction false} InsertMultiset<T>(key: T -> string, s: seq<T>, x: T)
    ensures multiset(Insert(key, s, x)) == multiset(s) + multiset{x}
  {
    if |s| > 0 && !LexLe(key(s[|s| - 1]), key(x)) {
      InsertMultiset(key, s[..|s| - 1], x);
      assert s == s[..|s| - 1] + [s[|s| - 1]];
    }
  }

  lemma {:induction false} InsertSorted<T>(key: T -> string, s: seq<T>, x: T)
    requires SortedBy(key, s)
    ensures SortedBy(key, Insert(key, s, x))
  {
    if |s| == 0 {
    } else if LexLe(key(s[|s| - 1]), key(x)) {
      var r := s + [x];
      forall i, j | 0 <= i < j < |r| ensures LexLe(key(r[i]), key(r[j])) {
        if j == |s| && i < |s| - 1 {
          LexLeTransitive(key(s[i]), key(s[|s| - 1]), key(x));
        }
      }
    } else {
      var last := s[|s| - 1];
      var init := s[..|s| - 1];
      InsertSorted(key, init, x);
      InsertMultiset(key, init, x);
      LexLtIsNotLe(key(x), key(last));
      var r := Insert(key, init, x) + [last];
      forall i, j | 0 <= i < j < |r| ensures LexLe(key(r[i]), key(r[j])) {
        if j == |r| - 1 {
          var e := r[i];
          assert e in multiset(Insert(key, init, x));
          if e != x {
            assert e in init;
            var m :| 0 <= m < |init| && init[m] == e;
            assert s[m] == e;
          }
        }
      }
    }
  }

  /** Inserting `x` appends it to the class of its own key and leaves every
      other key class as it was. */
  lemma {:induction false} InsertKeepsKeyClasses<T>(key: T -> string, s: seq<T>, x: T, k: string)
    ensures Filter(HasKey(key, k), Insert(key, s, x)) == Filter(HasKey(key, k), s + [x])
  {
    if |s| > 0 && !LexLe(key(s[|s| - 1]), key(x)) {
      var p := HasKey(key, k);
      var last := s[|s| - 1];
      var init := s[..|s| - 1];
      var ins := Insert(key, init, x);
      assert Insert(key, s, x) == ins + [last];
      InsertKeepsKeyClasses(key, init, x, k);
      LexLtIsNotLe(key(x), key(last));
      FilterConcat(p, ins, [last]);
      FilterConcat(p, init + [x], [last]);
      SwapUnrelated(p, init, x, last);
      assert s + [x] == init + [last] + [x];
    }
  }

  /** Two adjacent elements that are not both accepted can be swapped without
      changing the filtered sequence. */
  lemma SwapUnrelated<T>(keep: T -> bool, a: seq<T>, x: T, y: T)
    requires !(keep(x) && keep(y))
    ensures Filter(keep, a + [x] + [y]) == Filter(keep, a + [y] + [x])
  {
    FilterConcat(keep, a + [x], [y]);
    FilterConcat(keep, a, [x]);
    FilterConcat(keep, a + [y], [x]);
    FilterConcat(keep, a, [y]);
    FilterSingle(keep, x);
    FilterSingle(keep, y);
  }

  lemma FilterSingle<T>(keep: T -> bool, x: T)
    ensures Filter(keep, [x]) == if keep(x) then [x] else []
  {
    assert [x][..0] == [];
  }

  lemma {:induction false} InsertionSortMultiset<T>(key: T -> string, s: seq<T>)
    ensures multiset(InsertionSort(key, s)) == multiset(s)
  {
    if |s| > 0 {
      InsertionSortMultiset(key, s[..|s| - 1]);
      InsertMultiset(key, InsertionSort(key, s[..|s| - 1]), s[|s| - 1]);
      assert s == s[..|s| - 1] + [s[|s| - 1]];
    }
  }

  lemma {:induction false} InsertionSortSorted<T>(key: T -> string, s: seq<T>)
    ensures SortedBy(key, InsertionSort(key, s))
  {
    if |s| > 0 {
      InsertionSortSorted(key, s[..|s| - 1]);
      InsertSorted(key, InsertionSort(key, s[..|s| - 1]), s[|s| - 1]);
    }
  }

  /** Insertion sort is stable. */
  lemma {:induction false} InsertionSortStable<T>(key: T -> string, s: seq<T>)
    ensures KeepsKeyClassOrder(key, InsertionSort(key, s), s)
  {
    if |s| > 0 {
      var init := s[..|s| - 1];
      var last := s[|s| - 1];
      InsertionSortStable(key, init);
      forall k ensures Filter(HasKey(key, k), InsertionSort(key, s)) == Filter(HasKey(key, k), s) {
        InsertKeepsKeyClasses(key, InsertionSort(key, init), last, k);
        FilterConcat(HasKey(key, k), InsertionSort(key, init), [last]);
        FilterConcat(HasKey(key, k), init, [last]);
        assert s == init + [last];
      }
    }
  }

  /** All the properties of the reference sort in one place. */
  lemma InsertionSortCorrect<T>(key: T -> string, s: seq<T>)
    ensures SortedBy(key, InsertionSort(key, s))
    ensures multiset(InsertionSort(key, s)) == multiset(s)
    ensures KeepsKeyClassOrder(key, InsertionSort(key, s), s)
  {
    InsertionSortSorted(key, s);
    InsertionSortMultiset(key, s);
    InsertionSortStable(key, s);
  }

  /** Keeping every key class in order makes `r` a permutation of `s`. */
  lemma StablyOrderedPermutation<T>(key: T -> string, r: seq<T>, s: seq<T>)
    requires KeepsKeyClassOrder(key, r, s)
    ensures multiset(r) == multiset(s)
  {
    forall x ensures multiset(r)[x] == multiset(s)[x] {
      var p := HasKey(key, key(x));
      assert Filter(p, r) == Filter(p, s);
      FilterCount(p, r, x);
      FilterCount(p, s, x);
    }
  }

  lemma FilterOfDropLast<T>(keep: T -> bool, s: seq<T>)
    requires |s| > 0
    ensures Filter(keep, s) == Filter(keep, s[..|s| - 1]) + (if keep(s[|s| - 1]) then [s[|s| - 1]] else [])
  {
  }

  /** Two sequences sorted by `key` whose key classes agree are equal. */
  lemma {:induction false} SortedWithSameClassesEqual<T>(key: T -> string, r: seq<T>, t: seq<T>)
    requires SortedBy(key, r) && SortedBy(key, t)
    requires KeepsKeyClassOrder(key, r, t)
    ensures r == t
    decreases |r|
  {
    if |r| == 0 || |t| == 0 {
      if |t| > 0 {
        EmptyClassMeansAbsent(key, r, t, t[0]);
      } else if |r| > 0 {
        EmptyClassMeansAbsent(key, t, r, r[0]);
      }
    } else {
      var x, y := r[|r| - 1], t[|t| - 1];
      KeyBelowLast(key, t, r, x);
      KeyBelowLast(key, r, t, y);
      LexLeAntisymmetric(key(x), key(y));
      var r', t' := r[..|r| - 1], t[..|t| - 1];
      var px := HasKey(key, key(x));
      assert px(x) && px(y);
      assert Filter(px, r) == Filter(px, t);
      FilterOfDropLast(px, r);
      FilterOfDropLast(px, t);
      assert x == Filter(px, r)[|Filter(px, r)| - 1];
      assert y == Filter(px, t)[|Filter(px, t)| - 1];
      assert x == y;
      forall k ensures Filter(HasKey(key, k), r') == Filter(HasKey(key, k), t') {
        var p := HasKey(key, k);
        FilterOfDropLast(p, r);
        FilterOfDropLast(p, t);
        assert Filter(p, r) == Filter(p, t);
        if k == key(x) {
          assert p(x) && p(y);
          assert Filter(p, r') == Filter(p, r)[..|Filter(p, r)| - 1];
          assert Filter(p, t') == Filter(p, t)[..|Filter(p, t)| - 1];
        } else {
          assert !p(x) && !p(y);
          assert Filter(p, r) == Filter(p, r');
          assert Filter(p, t) == Filter(p, t');
        }
      }
      SortedWithSameClassesEqual(key, r', t');
      assert r == r' + [x];
      assert t == t' + [y];
    }
  }

  /** When the key classes of `r` and `t` agree, `r` is empty only if `t` is. */
  lemma EmptyClassMeansAbsent<T>(key: T -> string, r: seq<T>, t: seq<T>, x: T)
    requires KeepsKeyClassOrder(key, r, t)
    requires x in t
    ensures |r| > 0
  {
    var p := HasKey(key, key(x));
    FilterMember(p, t, x);
    assert Filter(p, r) == Filter(p, t);
  }

  /** If `t` is sorted and every key class of `r` equals that of `t`, then the
      key of any element of `r` is at most the key of the last element of `t`. */
  lemma KeyBelowLast<T>(key: T -> string, t: seq<T>, r: seq<T>, x: T)
    requires SortedBy(key, t) && |t| > 0
    requires KeepsKeyClassOrder(key, r, t) || KeepsKeyClassOrder(key, t, r)
    requires x in r
    ensures LexLe(key(x), key(t[|t| - 1]))
  {
    var p := HasKey(key, key(x));
    FilterMember(p, r, x);
    assert Filter(p, r) == Filter(p, t);
    FilterMember(p, t, Filter(p, t)[0]);
    var e := Filter(p, t)[0];
    assert e in Filter(p, t);
    var m :| 0 <= m < |t| && t[m] == e;
    if m == |t| - 1 {
      LexLeReflexive(key(e));
    }
  }

  /** Any stable sort of `s` by `key` gives `InsertionSort(key, s)`: an
      ordering that is sorted by the key and keeps every key class in input
      order is unique. */
  lemma StableSortIsUnique<T>(key: T -> string, s: seq<T>, r: seq<T>)
    requires SortedBy(key, r)
    requires KeepsKeyClassOrder(key, r, s)
    ensures r == InsertionSort(key, s)
  {
    InsertionSortCorrect(key, s);
    SortedWithSameClassesEqual(key, r, InsertionSort(key, s));
  }

  /** Reversing an ascending sequence gives a descending one. */
  lemma ReversedSortedDescending<T>(key: T -> string, s: seq<T>)
    requires SortedBy(key, s)
    ensures SortedDescendingBy(key, Reversed(s))
  {
    var r := Reversed(s);
    forall i, j | 0 <= i < j < |r| ensures LexLe(key(r[j]), key(r[i])) {
      ReversedAt(s, i);
      ReversedAt(s, j);
    }
  }

  /** Filtering keeps a descending sequence descending. */
  lemma {:induction false} FilterSortedDescending<T>(key: T -> string, keep: T -> bool, s: seq<T>)
    requires SortedDescendingBy(key, s)
    ensures SortedDescendingBy(key, Filter(keep, s))
  {
    if |s| > 0 {
      var init, last := s[..|s| - 1], s[|s| - 1];
      FilterSortedDescending(key, keep, init);
      if keep(last) {
        var f := Filter(keep, init);
        var r := f + [last];
        forall i, j | 0 <= i < j < |r| ensures LexLe(key(r[j]), key(r[i])) {
          if j == |f| {
            FilterMember(keep, init, r[i]);
            assert r[i] in f;
            var m :| 0 <= m < |init| && init[m] == r[i];
            assert s[m] == r[i];
          }
        }
      }
    }
  }
}

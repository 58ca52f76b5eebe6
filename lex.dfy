/** Ordering of strings as Rust orders `str` values.

    Rust compares two `str` values byte by byte over their UTF-8 encodings,
    and a proper prefix sorts before every extension of it. Dafny's `char` is
    a Unicode scalar value, and UTF-8 encodes scalar values so that byte order
    and scalar order agree, so comparing characters gives the same answer as
    comparing bytes. Dafny's own `<` and `<=` on sequences mean prefix, not
    this order, so it is defined here.
 */
module Lex {

  /** `a <= b` in the lexicographic order of Rust's `str`. */
  predicate LexLe(a: string, b: string)
  {
    if |a| == 0 then true
    else if |b| == 0 then false
    else if a[0] != b[0] then a[0] < b[0]
    else LexLe(a[1..], b[1..])
  }

  /** Independent description of the order: `a` is a prefix of `b`, or the two
      agree up to some position where `a` has the smaller character. */
  ghost predicate LexLeByFirstDifference(a: string, b: string)
  {
    a <= b || SmallerAtFirstDifference(a, b)
  }

  ghost predicate SmallerAtFirstDifference(a: string, b: string)
  {
    exists k :: 0 <= k < |a| && k < |b| && a[..k] == b[..k] && a[k] < b[k]
  }

  /** The recursive definition and the first-difference description agree. */
  lemma {:induction false} LexLeCharacterised(a: string, b: string)
    ensures LexLe(a, b) <==> LexLeByFirstDifference(a, b)
  {
    if |a| == 0 {
      assert a <= b;
    } else if |b| == 0 {
      assert !(a <= b);
    } else if a[0] != b[0] {
      assert !(a <= b);
      if a[0] < b[0] {
        assert a[..0] == b[..0];
      }
    } else {
      LexLeCharacterised(a[1..], b[1..]);
      PrefixAfterCommonHead(a, b);
      DifferenceAfterCommonHead(a, b);
    }
  }

  lemma PrefixAfterCommonHead(a: string, b: string)
    requires |a| > 0 && |b| > 0 && a[0] == b[0]
    ensures a <= b <==> a[1..] <= b[1..]
  {
    if a[1..] <= b[1..] {
      assert a == [a[0]] + a[1..];
      assert b[..|a|] == [b[0]] + b[1..][..|a| - 1];
    }
    if a <= b {
      assert a[1..] == b[1..][..|a| - 1];
    }
  }

  lemma DifferenceAfterCommonHead(a: string, b: string)
    requires |a| > 0 && |b| > 0 && a[0] == b[0]
    ensures SmallerAtFirstDifference(a, b) <==> SmallerAtFirstDifference(a[1..], b[1..])
  {
    if SmallerAtFirstDifference(a, b) {
      var k :| 0 <= k < |a| && k < |b| && a[..k] == b[..k] && a[k] < b[k];
      assert k > 0;
      assert a[1..][..k - 1] == a[..k][1..];
      assert b[1..][..k - 1] == b[..k][1..];
      assert a[1..][k - 1] == a[k];
    }
    if SmallerAtFirstDifference(a[1..], b[1..]) {
      var k :| 0 <= k < |a[1..]| && k < |b[1..]| && a[1..][..k] == b[1..][..k] && a[1..][k] < b[1..][k];
      assert a[..k + 1] == [a[0]] + a[1..][..k];
      assert b[..k + 1] == [b[0]] + b[1..][..k];
      assert a[k + 1] == a[1..][k];
    }
  }

  lemma {:induction false} LexLeReflexive(a: string)
    ensures LexLe(a, a)
  {
    if |a| > 0 {
      LexLeReflexive(a[1..]);
    }
  }

  lemma {:induction false} LexLeTotal(a: string, b: string)
    ensures LexLe(a, b) || LexLe(b, a)
  {
    if |a| > 0 && |b| > 0 && a[0] == b[0] {
      LexLeTotal(a[1..], b[1..]);
    }
  }

  lemma {:induction false} LexLeAntisymmetric(a: string, b: string)
    requires LexLe(a, b) && LexLe(b, a)
    ensures a == b
  {
    if |a| > 0 && |b| > 0 {
      LexLeAntisymmetric(a[1..], b[1..]);
      assert a == [a[0]] + a[1..];
      assert b == [b[0]] + b[1..];
    }
  }

  lemma {:induction false} LexLeTransitive(a: string, b: string, c: string)
    requires LexLe(a, b) && LexLe(b, c)
    ensures LexLe(a, c)
  {
    if |a| > 0 && a[0] == b[0] && b[0] == c[0] {
      LexLeTransitive(a[1..], b[1..], c[1..]);
    }
  }

  /** A proper extension of `b` sorts after `b`. */
  lemma {:induction false} ProperExtensionNotLe(a: string, b: string)
    requires b < a
    ensures !LexLe(a, b)
  {
    if |b| > 0 {
      assert a[0] == b[0];
      assert b[1..] == a[1..][..|b| - 1];
      ProperExtensionNotLe(a[1..], b[1..]);
    }
  }

  /** The strict order a sort compares by is the negation of `<=`: `b <= a`
      fails exactly when `a <= b` holds and the two differ. */
  lemma LexLtIsNotLe(a: string, b: string)
    ensures !LexLe(b, a) <==> LexLe(a, b) && a != b
  {
    LexLeTotal(a, b);
    LexLeReflexive(a);
    if LexLe(a, b) && LexLe(b, a) {
      LexLeAntisymmetric(a, b);
    }
  }

  /** For a proper extension `t` of a string `p` as long as `b`, the first
      `|b|` characters decide: `t <= b` exactly when `p` sorts strictly
      before `b`. */
  lemma {:induction false} ExtensionOfSameLength(p: string, b: string, t: string)
    requires |p| == |b| && p <= t && |p| < |t|
    ensures LexLe(t, b) <==> LexLe(p, b) && p != b
  {
    if |p| > 0 && p[0] == b[0] {
      ExtensionOfSameLength(p[1..], b[1..], t[1..]);
      assert p == [p[0]] + p[1..] && b == [b[0]] + b[1..];
      assert p[1..] == b[1..] ==> p == b;
    }
  }
}

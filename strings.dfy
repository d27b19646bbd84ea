/** Text comparison as SQLite's default BINARY collation performs it: the UTF-8
    bytes are compared with memcmp and, on a common prefix, the shorter text
    sorts first. UTF-8 preserves the order of code points, so comparing the
    characters of a Dafny string one by one gives the same answer. */
module Strings {
  import Ordering

  /** Three-way comparison: -1, 0 or 1. */
  function Compare(a: string, b: string): (r: int)
    ensures -1 <= r <= 1
  {
    if a == [] then (if b == [] then 0 else -1)
    else if b == [] then 1
    else if a[0] < b[0] then -1
    else if b[0] < a[0] then 1
    else Compare(a[1..], b[1..])
  }

  predicate Less(a: string, b: string)
  {
    Compare(a, b) < 0
  }

  predicate IsPrefix(p: string, s: string)
  {
    |p| <= |s| && s[..|p|] == p
  }

  lemma {:induction false} CompareZero(a: string, b: string)
    ensures Compare(a, b) == 0 <==> a == b
  {
    if a != [] && b != [] && a[0] == b[0] {
      CompareZero(a[1..], b[1..]);
      assert a == [a[0]] + a[1..] && b == [b[0]] + b[1..];
    }
  }

  lemma {:induction false} CompareAntisymmetric(a: string, b: string)
    ensures Compare(a, b) == -Compare(b, a)
  {
    if a != [] && b != [] && a[0] == b[0] {
      CompareAntisymmetric(a[1..], b[1..]);
    }
  }

  /** Comparison is transitive, and strictly so when either step is strict. */
  lemma {:induction false} CompareTransitive(a: string, b: string, c: string)
    requires Compare(a, b) <= 0 && Compare(b, c) <= 0
    ensures Compare(a, c) <= 0
    ensures Compare(a, b) < 0 || Compare(b, c) < 0 ==> Compare(a, c) < 0
  {
    if a != [] && b != [] && c != [] && a[0] == b[0] && b[0] == c[0] {
      CompareTransitive(a[1..], b[1..], c[1..]);
    } else if a != [] && b != [] && c != [] {
      // the first characters already decide
    }
  }

  /** A proper prefix sorts first. */
  lemma {:induction false} PrefixSortsFirst(p: string, s: string)
    requires IsPrefix(p, s) && p != s
    ensures Less(p, s)
  {
    if p != [] {
      assert s[1..][..|p| - 1] == p[1..];
      PrefixSortsFirst(p[1..], s[1..]);
    }
  }

  /** `Less` is a strict total order, so a GROUP BY or an ORDER BY on a text
      column has a well-defined result. */
  lemma LessIsStrictTotalOrder()
    ensures Ordering.StrictTotalOrder(Less)
  {
    forall x ensures !Less(x, x) {
      CompareZero(x, x);
    }
    forall x, y, z | Less(x, y) && Less(y, z) ensures Less(x, z) {
      CompareTransitive(x, y, z);
    }
    forall x, y | x != y ensures Less(x, y) || Less(y, x) {
      CompareZero(x, y);
      CompareAntisymmetric(x, y);
    }
  }

  /** `(a1, a2)` sorts no later than `(b1, b2)` under `ORDER BY first, second`. */
  predicate PairLessEq(a1: string, a2: string, b1: string, b2: string)
  {
    Compare(a1, b1) < 0 || (Compare(a1, b1) == 0 && Compare(a2, b2) <= 0)
  }

  lemma PairLessEqTotal(a1: string, a2: string, b1: string, b2: string)
    ensures PairLessEq(a1, a2, b1, b2) || PairLessEq(b1, b2, a1, a2)
  {
    CompareAntisymmetric(a1, b1);
    CompareAntisymmetric(a2, b2);
  }

  lemma PairLessEqTransitive(a1: string, a2: string, b1: string, b2: string, c1: string, c2: string)
    requires PairLessEq(a1, a2, b1, b2) && PairLessEq(b1, b2, c1, c2)
    ensures PairLessEq(a1, a2, c1, c2)
  {
    CompareTransitive(a1, b1, c1);
    CompareZero(a1, b1);
    CompareZero(b1, c1);
    if Compare(a1, b1) == 0 && Compare(b1, c1) == 0 {
      CompareTransitive(a2, b2, c2);
    }
  }

  /** Two pairs that sort no later than each other are the same pair. */
  lemma PairLessEqAntisymmetric(a1: string, a2: string, b1: string, b2: string)
    requires PairLessEq(a1, a2, b1, b2) && PairLessEq(b1, b2, a1, a2)
    ensures a1 == b1 && a2 == b2
  {
    CompareAntisymmetric(a1, b1);
    CompareAntisymmetric(a2, b2);
    CompareZero(a1, b1);
    CompareZero(a2, b2);
  }
}

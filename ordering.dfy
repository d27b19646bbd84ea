/** What an ORDER BY and a GROUP BY produce. An ORDER BY returns its rows as a
    permutation that is sorted by the key columns; `SortBy` is one such
    permutation (a stable insertion sort), and when the keys tell every two rows
    apart there is no other. A GROUP BY returns each distinct key once, in
    ascending order: `SortedKeys`. */
module Ordering {

  /** `le` is total and transitive: a valid sort order whose ties are allowed. */
  ghost predicate TotalPreorder<T(!new)>(le: (T, T) -> bool)
  {
    && (forall x, y :: le(x, y) || le(y, x))
    && (forall x, y, z :: le(x, y) && le(y, z) ==> le(x, z))
  }

  /** `lt` is a strict total order: irreflexive, transitive, and any two
      different values are comparable. */
  ghost predicate StrictTotalOrder<T(!new)>(lt: (T, T) -> bool)
  {
    && (forall x :: !lt(x, x))
    && (forall x, y, z :: lt(x, y) && lt(y, z) ==> lt(x, z))
    && (forall x, y :: x != y ==> lt(x, y) || lt(y, x))
  }

  predicate Sorted<T>(s: seq<T>, le: (T, T) -> bool)
  {
    forall i, j :: 0 <= i < j < |s| ==> le(s[i], s[j])
  }

  predicate StrictlySorted<T>(s: seq<T>, lt: (T, T) -> bool)
  {
    forall i, j :: 0 <= i < j < |s| ==> lt(s[i], s[j])
  }

  /** Puts `x` before the first element it does not sort after. */
  function Insert<T(!new)>(x: T, s: seq<T>, le: (T, T) -> bool): (r: seq<T>)
    requires TotalPreorder(le) && Sorted(s, le)
    ensures Sorted(r, le)
    ensures multiset(r) == multiset(s) + multiset{x}
  {
    if s == [] || le(x, s[0]) then
      [x] + s
    else
      var rest := Insert(x, s[1..], le);
      var r := [s[0]] + rest;
      assert s == [s[0]] + s[1..];
      assert Sorted(r, le) by {
        assert le(s[0], x);
        forall y | y in rest ensures le(s[0], y) {
          assert y in multiset(rest);
          if y != x {
            assert y in multiset(s[1..]);
            HeadBelowTail(s, y, le);
          }
        }
        ConsSorted(s[0], rest, le);
      }
      r
  }

  lemma HeadBelowTail<T>(s: seq<T>, y: T, le: (T, T) -> bool)
    requires Sorted(s, le) && s != [] && y in s[1..]
    ensures le(s[0], y)
  {
    var k :| 0 <= k < |s[1..]| && s[1..][k] == y;
    assert s[k + 1] == y;
  }

  lemma ConsSorted<T>(h: T, rest: seq<T>, le: (T, T) -> bool)
    requires Sorted(rest, le) && forall y :: y in rest ==> le(h, y)
    ensures Sorted([h] + rest, le)
  {
    var r := [h] + rest;
    forall i, j | 0 <= i < j < |r| ensures le(r[i], r[j]) {
      assert r[j] == rest[j - 1];
      if i > 0 {
        assert r[i] == rest[i - 1];
      } else {
        assert rest[j - 1] in rest;
      }
    }
  }

  /** Insertion sort; an element goes before the elements it ties with that
      follow it, so the sort is stable. */
  function SortBy<T(!new)>(s: seq<T>, le: (T, T) -> bool): (r: seq<T>)
    requires TotalPreorder(le)
    ensures Sorted(r, le)
    ensures multiset(r) == multiset(s)
  {
    if s == [] then []
    else
      assert s == [s[0]] + s[1..];
      Insert(s[0], SortBy(s[1..], le), le)
  }

  lemma MultisetTail<T>(s: seq<T>)
    requires s != []
    ensures multiset(s[1..]) == multiset(s) - multiset{s[0]}
  {
    assert s == [s[0]] + s[1..];
  }

  /** Two sorted permutations of one multiset start with elements that tie. */
  lemma SortedHeadsTie<T(!new)>(a: seq<T>, b: seq<T>, le: (T, T) -> bool)
    requires Sorted(a, le) && Sorted(b, le)
    requires multiset(a) == multiset(b) && a != []
    ensures b != [] && b[0] in a
    ensures a[0] == b[0] || (le(a[0], b[0]) && le(b[0], a[0]))
  {
    assert a[0] in multiset(b);
    var k :| 0 <= k < |b| && b[k] == a[0];
    assert b[0] in multiset(a);
    var j :| 0 <= j < |a| && a[j] == b[0];
    if j > 0 && k > 0 {
      assert le(a[0], a[j]) && le(b[0], b[k]);
    }
  }

  /** No two different elements of `s` tie under `le`. */
  predicate TieFree<T(==,!new)>(s: seq<T>, le: (T, T) -> bool)
  {
    forall x, y :: x in s && y in s && le(x, y) && le(y, x) ==> x == y
  }

  lemma SortedTail<T>(s: seq<T>, le: (T, T) -> bool)
    requires Sorted(s, le) && s != []
    ensures Sorted(s[1..], le)
  {
    forall i, j | 0 <= i < j < |s| - 1 ensures le(s[1..][i], s[1..][j]) {
      assert s[1..][i] == s[i + 1] && s[1..][j] == s[j + 1];
    }
  }

  lemma TieFreeTail<T(!new)>(s: seq<T>, le: (T, T) -> bool)
    requires TieFree(s, le) && s != []
    ensures TieFree(s[1..], le)
  {
    forall x, y | x in s[1..] && y in s[1..] && le(x, y) && le(y, x) ensures x == y {
      assert x in s && y in s;
    }
  }

  /** When no two different elements tie, a sorted permutation is unique: an
      ORDER BY whose last key is a primary key fixes the order of its rows. */
  lemma {:induction false} SortedPermutationUnique<T(!new)>(a: seq<T>, b: seq<T>, le: (T, T) -> bool)
    requires Sorted(a, le) && Sorted(b, le)
    requires multiset(a) == multiset(b)
    requires TieFree(a, le)
    ensures a == b
  {
    if a == [] {
      assert |b| == |multiset(b)| == 0;
    } else {
      SortedHeadsEqual(a, b, le);
      SortedTailsAgree(a, b, le);
      SortedPermutationUnique(a[1..], b[1..], le);
      assert a == [a[0]] + a[1..] && b == [b[0]] + b[1..];
    }
  }

  lemma SortedHeadsEqual<T(!new)>(a: seq<T>, b: seq<T>, le: (T, T) -> bool)
    requires Sorted(a, le) && Sorted(b, le)
    requires multiset(a) == multiset(b) && a != []
    requires TieFree(a, le)
    ensures b != [] && a[0] == b[0]
  {
    SortedHeadsTie(a, b, le);
    assert a[0] in a && b[0] in a;
  }

  lemma SortedTailsAgree<T(!new)>(a: seq<T>, b: seq<T>, le: (T, T) -> bool)
    requires Sorted(a, le) && Sorted(b, le) && a != [] && b != []
    requires multiset(a) == multiset(b) && a[0] == b[0]
    requires TieFree(a, le)
    ensures Sorted(a[1..], le) && Sorted(b[1..], le)
    ensures multiset(a[1..]) == multiset(b[1..])
    ensures TieFree(a[1..], le)
  {
    MultisetTail(a);
    MultisetTail(b);
    SortedTail(a, le);
    SortedTail(b, le);
    TieFreeTail(a, le);
  }

  /** Adds `x` to a strictly sorted sequence unless it is already there. */
  function InsertKey<T(==,!new)>(x: T, s: seq<T>, lt: (T, T) -> bool): (r: seq<T>)
    requires StrictTotalOrder(lt) && StrictlySorted(s, lt)
    ensures StrictlySorted(r, lt)
    ensures forall y :: y in r <==> y == x || y in s
  {
    if s == [] || lt(x, s[0]) then
      assert forall j :: 0 < j < |s| ==> lt(s[0], s[j]);
      [x] + s
    else if x == s[0] then
      s
    else
      var rest := InsertKey(x, s[1..], lt);
      var r := [s[0]] + rest;
      assert StrictlySorted(r, lt) by {
        assert lt(s[0], x);
        forall y | y in rest ensures lt(s[0], y) {
          if y != x {
            var k :| 0 <= k < |s[1..]| && s[1..][k] == y;
            assert s[k + 1] == y;
          }
        }
        forall i, j | 0 <= i < j < |r| ensures lt(r[i], r[j]) {
          assert r[j] == rest[j - 1];
          if i > 0 {
            assert r[i] == rest[i - 1];
          } else {
            assert rest[j - 1] in rest;
          }
        }
      }
      r
  }

  /** The distinct values of `s`, each once, in ascending order. */
  function SortedKeys<T(==,!new)>(s: seq<T>, lt: (T, T) -> bool): (r: seq<T>)
    requires StrictTotalOrder(lt)
    ensures StrictlySorted(r, lt)
    ensures forall y :: y in r <==> y in s
  {
    if s == [] then []
    else
      assert forall y :: y in s <==> y == s[0] || y in s[1..];
      InsertKey(s[0], SortedKeys(s[1..], lt), lt)
  }

  lemma StrictlySortedIsDistinct<T(!new)>(s: seq<T>, lt: (T, T) -> bool)
    requires StrictTotalOrder(lt) && StrictlySorted(s, lt)
    ensures forall i, j :: 0 <= i < j < |s| ==> s[i] != s[j]
  {
  }

  /** A prefix of a sorted sequence is sorted, is part of it, and every one
      of its elements sorts before every element left out of it. */
  lemma PrefixSortsBeforeRest<T(!new)>(s: seq<T>, n: nat, le: (T, T) -> bool)
    requires Sorted(s, le) && n <= |s|
    ensures Sorted(s[..n], le) && multiset(s[..n]) <= multiset(s)
    ensures forall x, y :: x in s[..n] && y in multiset(s) - multiset(s[..n]) ==> le(x, y)
  {
    assert s == s[..n] + s[n..];
    assert multiset(s) == multiset(s[..n]) + multiset(s[n..]);
    forall x, y | x in s[..n] && y in multiset(s) - multiset(s[..n]) ensures le(x, y) {
      assert y in s[n..];
      var i :| 0 <= i < n && s[..n][i] == x;
      var j :| 0 <= j < |s| - n && s[n..][j] == y;
      assert s[i] == x && s[n + j] == y;
    }
  }
}

/** The status histogram of `get_stats` (app.py:609-610):
    `SELECT estado, COUNT(*) FROM internos GROUP BY estado`, then the dict
    comprehension `{(k or "Desconocido"): v for k, v in rows}`. The groups
    come in key order (NULL first), a NULL or empty status is labelled
    "Desconocido", and when two groups get the same label the later one
    overwrites the earlier one's count while keeping its place, as assigning
    to an existing key of a Python dict does. The histogram works on the raw
    `estado` column, so the NULL case is visible even though the schema rules
    it out. */
module Histogram {
  import opened Common
  import opened Schema
  import opened Ordering
  import Strings

  const UNKNOWN := "Desconocido"

  /** A Python dict in insertion order. */
  type Dict = seq<(string, nat)>

  /** The order of the groups: NULL first, then texts in BINARY order. */
  predicate KeyLess(a: Option<string>, b: Option<string>)
  {
    (a.None? && b.Some?) || (a.Some? && b.Some? && Strings.Less(a.value, b.value))
  }

  lemma KeyLessIsStrictTotalOrder()
    ensures StrictTotalOrder(KeyLess)
  {
    Strings.LessIsStrictTotalOrder();
  }

  /** `k or "Desconocido"` */
  function Label(k: Option<string>): (t: string)
    ensures t != ""
    ensures t == UNKNOWN <==> k.None? || k == Some("") || k == Some(UNKNOWN)
    ensures k.Some? && k.value != "" ==> t == k.value
  {
    if k.Some? && k.value != "" then k.value else UNKNOWN
  }

  /** The position of `key` in the dict, or -1. */
  function IndexOf(d: Dict, key: string): (r: int)
    ensures -1 <= r < |d|
    ensures r >= 0 ==> d[r].0 == key
    ensures r < 0 ==> forall i :: 0 <= i < |d| ==> d[i].0 != key
  {
    if d == [] then -1
    else if d[0].0 == key then 0
    else
      var r := IndexOf(d[1..], key);
      if r < 0 then -1 else r + 1
  }

  /** `d[key]` */
  function Lookup(d: Dict, key: string): (r: Option<nat>)
    ensures r.None? <==> forall i :: 0 <= i < |d| ==> d[i].0 != key
  {
    var i := IndexOf(d, key);
    if i < 0 then None else Some(d[i].1)
  }

  /** `d[key] = v`: a new key goes last, an existing key keeps its place. */
  function Assign(d: Dict, key: string, v: nat): (r: Dict)
    ensures Lookup(r, key) == Some(v)
    ensures forall other :: other != key ==> Lookup(r, other) == Lookup(d, other)
    ensures Lookup(d, key).None? ==> r == d + [(key, v)]
  {
    var i := IndexOf(d, key);
    if i < 0 then
      var r := d + [(key, v)];
      assert r[|d|].0 == key;
      assert IndexOf(r, key) == |d| by { AppendIndex(d, key, v); }
      forall other | other != key ensures Lookup(r, other) == Lookup(d, other) {
        AppendIndexOther(d, key, v, other);
      }
      r
    else
      var r := d[i := (key, v)];
      UpdateIndex(d, i, key, v);
      forall other | other != key ensures Lookup(r, other) == Lookup(d, other) {
        UpdateIndexOther(d, i, key, v, other);
      }
      r
  }

  lemma {:induction false} AppendIndex(d: Dict, key: string, v: nat)
    requires IndexOf(d, key) < 0
    ensures IndexOf(d + [(key, v)], key) == |d|
  {
    if d != [] {
      assert (d + [(key, v)])[1..] == d[1..] + [(key, v)];
      AppendIndex(d[1..], key, v);
    }
  }

  lemma {:induction false} AppendIndexOther(d: Dict, key: string, v: nat, other: string)
    requires other != key
    ensures IndexOf(d + [(key, v)], other) == IndexOf(d, other)
  {
    if d != [] {
      assert (d + [(key, v)])[1..] == d[1..] + [(key, v)];
      AppendIndexOther(d[1..], key, v, other);
    }
  }

  lemma {:induction false} UpdateIndex(d: Dict, i: int, key: string, v: nat)
    requires 0 <= i < |d| && IndexOf(d, key) == i
    ensures IndexOf(d[i := (key, v)], key) == i
  {
    if i > 0 {
      assert d[i := (key, v)][1..] == d[1..][i - 1 := (key, v)];
      UpdateIndex(d[1..], i - 1, key, v);
    }
  }

  lemma {:induction false} UpdateIndexOther(d: Dict, i: int, key: string, v: nat, other: string)
    requires 0 <= i < |d| && d[i].0 == key && other != key
    ensures IndexOf(d[i := (key, v)], other) == IndexOf(d, other)
  {
    if d != [] && d[0].0 != other && i > 0 {
      assert d[i := (key, v)][1..] == d[1..][i - 1 := (key, v)];
      UpdateIndexOther(d[1..], i - 1, key, v, other);
    }
  }

  /** The sum of the dict's values. */
  function SumValues(d: Dict): nat
  {
    if d == [] then 0 else SumValues(d[..|d| - 1]) + d[|d| - 1].1
  }

  /** The comprehension, one group row at a time. */
  function FoldGroups(keys: seq<Option<string>>, col: seq<Option<string>>, d: Dict): Dict
  {
    if keys == [] then d
    else FoldGroups(keys[1..], col, Assign(d, Label(keys[0]), multiset(col)[keys[0]]))
  }

  /** `estados` for a column of raw `estado` values. */
  function Estados(col: seq<Option<string>>): Dict
  {
    KeyLessIsStrictTotalOrder();
    FoldGroups(SortedKeys(col, KeyLess), col, [])
  }

  /** The stored `estado` column. */
  function StatusColumn(inmates: seq<Inmate>): (r: seq<Option<string>>)
    ensures |r| == |inmates| && forall k :: 0 <= k < |r| ==> r[k] == Some(StatusName(inmates[k].estado))
  {
    seq(|inmates|, k requires 0 <= k < |inmates| => Some(StatusName(inmates[k].estado)))
  }

  /** No two different values of the column get the same label. */
  predicate LabelsInjective(col: seq<Option<string>>)
  {
    forall a, b :: a in col && b in col && Label(a) == Label(b) ==> a == b
  }

  // ---------------------------------------------------------- the counts

  /** How many of `keys` are `x`. */
  function Occurrences<T(==)>(keys: seq<T>, x: T): nat
  {
    if keys == [] then 0 else (if keys[0] == x then 1 else 0) + Occurrences(keys[1..], x)
  }

  lemma {:induction false} OccurrencesDistinct<T>(keys: seq<T>, x: T)
    requires Distinct(keys)
    ensures Occurrences(keys, x) == if x in keys then 1 else 0
  {
    if keys != [] {
      assert Distinct(keys[1..]) by {
        forall a, b | 0 <= a < b < |keys[1..]| ensures keys[1..][a] != keys[1..][b] {
          assert keys[1..][a] == keys[a + 1] && keys[1..][b] == keys[b + 1];
        }
      }
      OccurrencesDistinct(keys[1..], x);
      assert keys == [keys[0]] + keys[1..];
      if keys[0] == x {
        assert x !in keys[1..] by {
          forall m | 0 <= m < |keys[1..]| ensures keys[1..][m] != x {
            assert keys[1..][m] == keys[m + 1];
          }
        }
      }
    }
  }

  /** The group counts, key by key. */
  function SumCounts(keys: seq<Option<string>>, col: seq<Option<string>>): nat
  {
    if keys == [] then 0 else multiset(col)[keys[0]] + SumCounts(keys[1..], col)
  }

  lemma {:induction false} SumCountsStep(keys: seq<Option<string>>, col: seq<Option<string>>)
    requires col != []
    ensures SumCounts(keys, col) == Occurrences(keys, col[0]) + SumCounts(keys, col[1..])
  {
    assert col == [col[0]] + col[1..];
    if keys != [] {
      SumCountsStep(keys[1..], col);
    }
  }

  lemma {:induction false} SumCountsEmpty(keys: seq<Option<string>>)
    ensures SumCounts(keys, []) == 0
  {
    if keys != [] {
      SumCountsEmpty(keys[1..]);
    }
  }

  /** Distinct keys that cover the column count every row once. */
  lemma {:induction false} GroupCountsCoverColumn(keys: seq<Option<string>>, col: seq<Option<string>>)
    requires Distinct(keys) && forall x :: x in col ==> x in keys
    ensures SumCounts(keys, col) == |col|
  {
    if col == [] {
      SumCountsEmpty(keys);
    } else {
      SumCountsStep(keys, col);
      OccurrencesDistinct(keys, col[0]);
      GroupCountsCoverColumn(keys, col[1..]);
    }
  }

  /** With labels that never collide, folding adds every group's count. */
  lemma {:induction false} FoldSum(keys: seq<Option<string>>, col: seq<Option<string>>, d: Dict)
    requires forall i, j :: 0 <= i < j < |keys| ==> Label(keys[i]) != Label(keys[j])
    requires forall j :: 0 <= j < |keys| ==> Lookup(d, Label(keys[j])).None?
    ensures SumValues(FoldGroups(keys, col, d)) == SumValues(d) + SumCounts(keys, col)
  {
    if keys != [] {
      var d' := Assign(d, Label(keys[0]), multiset(col)[keys[0]]);
      assert d'[..|d'| - 1] == d;
      forall j | 0 <= j < |keys[1..]| ensures Lookup(d', Label(keys[1..][j])).None? {
        assert keys[1..][j] == keys[j + 1];
      }
      FoldSum(keys[1..], col, d');
    }
  }

  /** A label no group has keeps the value it had. */
  lemma {:induction false} FoldMiss(keys: seq<Option<string>>, col: seq<Option<string>>, d: Dict, name: string)
    requires forall j :: 0 <= j < |keys| ==> Label(keys[j]) != name
    ensures Lookup(FoldGroups(keys, col, d), name) == Lookup(d, name)
  {
    if keys != [] {
      FoldMiss(keys[1..], col, Assign(d, Label(keys[0]), multiset(col)[keys[0]]), name);
    }
  }

  /** A label that only one group has maps to that group's count. */
  lemma {:induction false} FoldHit(keys: seq<Option<string>>, col: seq<Option<string>>, d: Dict, j: nat)
    requires j < |keys| && forall i :: 0 <= i < |keys| && i != j ==> Label(keys[i]) != Label(keys[j])
    ensures Lookup(FoldGroups(keys, col, d), Label(keys[j])) == Some(multiset(col)[keys[j]])
  {
    var d' := Assign(d, Label(keys[0]), multiset(col)[keys[0]]);
    if j == 0 {
      FoldMiss(keys[1..], col, d', Label(keys[0]));
    } else {
      assert keys[1..][j - 1] == keys[j];
      FoldHit(keys[1..], col, d', j - 1);
    }
  }

  /** Whatever the collisions, every group's label ends up in the dict. */
  lemma {:induction false} FoldKeepsLabels(keys: seq<Option<string>>, col: seq<Option<string>>, d: Dict, name: string)
    requires Lookup(d, name).Some? || exists j :: 0 <= j < |keys| && Label(keys[j]) == name
    ensures Lookup(FoldGroups(keys, col, d), name).Some?
  {
    if keys != [] {
      var d' := Assign(d, Label(keys[0]), multiset(col)[keys[0]]);
      if !Lookup(d', name).Some? {
        var j :| 0 <= j < |keys| && Label(keys[j]) == name;
        assert keys[1..][j - 1] == keys[j];
      }
      FoldKeepsLabels(keys[1..], col, d', name);
    }
  }

  lemma GroupLabelsDistinct(col: seq<Option<string>>)
    requires LabelsInjective(col)
    ensures var keys := (KeyLessIsStrictTotalOrder(); SortedKeys(col, KeyLess));
            forall i, j :: 0 <= i < |keys| && 0 <= j < |keys| && i != j ==> Label(keys[i]) != Label(keys[j])
  {
    KeyLessIsStrictTotalOrder();
    var keys := SortedKeys(col, KeyLess);
    StrictlySortedIsDistinct(keys, KeyLess);
    forall i, j | 0 <= i < |keys| && 0 <= j < |keys| && i != j ensures Label(keys[i]) != Label(keys[j]) {
      assert keys[i] in col && keys[j] in col;
    }
  }

  // -------------------------------------------------------- the laws

  /** When no two values share a label, the counts sum to the number of
      rows. */
  lemma EstadosSumToTotal(col: seq<Option<string>>)
    requires LabelsInjective(col)
    ensures SumValues(Estados(col)) == |col|
  {
    KeyLessIsStrictTotalOrder();
    var keys := SortedKeys(col, KeyLess);
    GroupLabelsDistinct(col);
    StrictlySortedIsDistinct(keys, KeyLess);
    FoldSum(keys, col, []);
    GroupCountsCoverColumn(keys, col);
  }

  /** A NULL status is never dropped: it is counted under "Desconocido",
      with its own count unless an empty or a literal "Desconocido" status
      shares the label. */
  lemma NullIsUnknown(col: seq<Option<string>>)
    requires None in col
    ensures Lookup(Estados(col), UNKNOWN).Some?
    ensures LabelsInjective(col) ==> Lookup(Estados(col), UNKNOWN) == Some(multiset(col)[None])
  {
    KeyLessIsStrictTotalOrder();
    var keys := SortedKeys(col, KeyLess);
    var j :| 0 <= j < |keys| && keys[j] == None;
    FoldKeepsLabels(keys, col, [], UNKNOWN);
    if LabelsInjective(col) {
      GroupLabelsDistinct(col);
      FoldHit(keys, col, [], j);
    }
  }

  lemma StatusColumnLabels(inmates: seq<Inmate>)
    ensures LabelsInjective(StatusColumn(inmates))
    ensures forall x :: x in StatusColumn(inmates) ==> x.Some? && Label(x) == x.value && x.value != UNKNOWN
  {
    var col := StatusColumn(inmates);
    forall x | x in col ensures x.Some? && Label(x) == x.value && x.value != UNKNOWN {
      var k :| 0 <= k < |col| && col[k] == x;
    }
  }

  /** For the stored column the counts sum to the number of inmates. */
  lemma StoreEstadosSum(inmates: seq<Inmate>)
    ensures SumValues(Estados(StatusColumn(inmates))) == |inmates|
  {
    StatusColumnLabels(inmates);
    EstadosSumToTotal(StatusColumn(inmates));
  }

  /** For the stored column "Desconocido" never appears. */
  lemma StoreEstadosNoUnknown(inmates: seq<Inmate>)
    ensures Lookup(Estados(StatusColumn(inmates)), UNKNOWN) == None
  {
    var col := StatusColumn(inmates);
    StatusColumnLabels(inmates);
    KeyLessIsStrictTotalOrder();
    var keys := SortedKeys(col, KeyLess);
    forall j | 0 <= j < |keys| ensures Label(keys[j]) != UNKNOWN {
      assert keys[j] in col;
    }
    FoldMiss(keys, col, [], UNKNOWN);
  }

  /** For the stored column each status present maps to the number of
      inmates that have it, and an absent status has no entry. */
  lemma StoreEstadosCount(inmates: seq<Inmate>, s: Status)
    ensures var n := multiset(StatusColumn(inmates))[Some(StatusName(s))];
            Lookup(Estados(StatusColumn(inmates)), StatusName(s)) == if n > 0 then Some(n) else None
  {
    var col := StatusColumn(inmates);
    StatusColumnLabels(inmates);
    KeyLessIsStrictTotalOrder();
    var keys := SortedKeys(col, KeyLess);
    var n := multiset(col)[Some(StatusName(s))];
    if n > 0 {
      assert Some(StatusName(s)) in col;
      var j :| 0 <= j < |keys| && keys[j] == Some(StatusName(s));
      GroupLabelsDistinct(col);
      FoldHit(keys, col, [], j);
    } else {
      forall j | 0 <= j < |keys| ensures Label(keys[j]) != StatusName(s) {
        assert keys[j] in col;
      }
      FoldMiss(keys, col, [], StatusName(s));
    }
  }
}

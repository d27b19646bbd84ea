/** `ultimos_ingresos` of `get_stats` (app.py:613-626): the inmates joined to
    their cell, ordered by admission day descending and id descending, the
    first ten. */
module Recent {
  import opened Common
  import opened Schema
  import opened Ordering
  import Queries

  const LIMIT := 10

  /** `UltimoIngreso`; `celda` is the cell's `numero`. */
  datatype RecentRow = RecentRow(
    id: int,
    nombre: string,
    apellido: string,
    fechaIngreso: int,
    pabellon: Option<string>,
    celda: Option<string>)

  /** One row of `internos i LEFT JOIN celdas c`, projected. The wing and the
      cell number are NULL together, exactly when the inmate has no cell to
      join. */
  function ToRecent(cells: seq<Cell>, i: Inmate): (r: RecentRow)
    ensures r.id == i.id && r.nombre == i.nombre && r.apellido == i.apellido && r.fechaIngreso == i.fechaIngreso
    ensures r.pabellon.None? <==> r.celda.None?
    ensures r.pabellon.None? <==> !(i.celdaId.Some? && HasCell(cells, i.celdaId.value))
  {
    var c := Queries.AssignedCell(cells, i);
    RecentRow(i.id, i.nombre, i.apellido, i.fechaIngreso,
              if c.Some? then Some(c.value.pabellon) else None,
              if c.Some? then Some(c.value.numero) else None)
  }

  function Joined(cells: seq<Cell>, inmates: seq<Inmate>): (r: seq<RecentRow>)
    ensures |r| == |inmates| && forall k :: 0 <= k < |r| ==> r[k] == ToRecent(cells, inmates[k])
  {
    seq(|inmates|, k requires 0 <= k < |inmates| => ToRecent(cells, inmates[k]))
  }

  /** `ORDER BY date(i.fecha_ingreso) DESC, i.id DESC` */
  predicate RecentLe(a: RecentRow, b: RecentRow)
  {
    a.fechaIngreso > b.fechaIngreso || (a.fechaIngreso == b.fechaIngreso && a.id >= b.id)
  }

  lemma RecentLeTotalPreorder()
    ensures TotalPreorder(RecentLe)
  {
  }

  function Min(a: int, b: int): int
  {
    if a <= b then a else b
  }

  /** The join in `ORDER BY date(i.fecha_ingreso) DESC, i.id DESC` order. */
  function RecentOrder(cells: seq<Cell>, inmates: seq<Inmate>): (s: seq<RecentRow>)
    ensures Sorted(s, RecentLe) && multiset(s) == multiset(Joined(cells, inmates))
  {
    RecentLeTotalPreorder();
    SortBy(Joined(cells, inmates), RecentLe)
  }

  /** `LIMIT 10` of the ordered join: at most ten rows, sorted, taken from
      the join, and no row left out sorts before a row kept. */
  function Ultimos(cells: seq<Cell>, inmates: seq<Inmate>): (r: seq<RecentRow>)
    ensures |r| == Min(LIMIT, |inmates|)
    ensures Sorted(r, RecentLe)
    ensures multiset(r) <= multiset(Joined(cells, inmates))
    ensures forall x, y :: x in r && y in multiset(Joined(cells, inmates)) - multiset(r) ==> RecentLe(x, y)
  {
    var s := RecentOrder(cells, inmates);
    var n := Min(LIMIT, |inmates|);
    JoinedLength(cells, inmates, s);
    PrefixSortsBeforeRest(s, n, RecentLe);
    s[..n]
  }

  lemma JoinedLength(cells: seq<Cell>, inmates: seq<Inmate>, s: seq<RecentRow>)
    requires multiset(s) == multiset(Joined(cells, inmates))
    ensures |s| == |inmates|
  {
    assert |s| == |multiset(s)| == |multiset(Joined(cells, inmates))| == |inmates|;
  }

  /** Two rows that tie under the recent order have the same id. */
  lemma RecentTieSameId(x: RecentRow, y: RecentRow)
    requires RecentLe(x, y) && RecentLe(y, x)
    ensures x.id == y.id
  {
  }

  /** Two joined rows with the same id are the same row. */
  lemma JoinedIdsUnique(cells: seq<Cell>, inmates: seq<Inmate>, x: RecentRow, y: RecentRow)
    requires InmatesUnique(inmates)
    requires x in multiset(Joined(cells, inmates)) && y in multiset(Joined(cells, inmates)) && x.id == y.id
    ensures x == y
  {
    var joined := Joined(cells, inmates);
    var a :| 0 <= a < |joined| && joined[a] == x;
    var b :| 0 <= b < |joined| && joined[b] == y;
    assert inmates[a].id == inmates[b].id;
  }

  /** Ids are a primary key, so the recent order is total: any sorted
      arrangement of the join is `RecentOrder`. */
  lemma RecentOrderDeterministic(cells: seq<Cell>, inmates: seq<Inmate>, other: seq<RecentRow>)
    requires InmatesUnique(inmates)
    requires Sorted(other, RecentLe) && multiset(other) == multiset(Joined(cells, inmates))
    ensures other == RecentOrder(cells, inmates)
  {
    var s := RecentOrder(cells, inmates);
    forall x, y | x in s && y in s && RecentLe(x, y) && RecentLe(y, x) ensures x == y {
      assert x in multiset(s) && y in multiset(s);
      RecentTieSameId(x, y);
      JoinedIdsUnique(cells, inmates, x, y);
    }
    RecentLeTotalPreorder();
    SortedPermutationUnique(s, other, RecentLe);
  }

  /** So the ten rows are fully determined: taking the first ten of any
      sorted arrangement of the join gives the same rows in the same order. */
  lemma UltimosDeterministic(cells: seq<Cell>, inmates: seq<Inmate>, other: seq<RecentRow>)
    requires InmatesUnique(inmates)
    requires Sorted(other, RecentLe) && multiset(other) == multiset(Joined(cells, inmates))
    ensures |other| == |inmates| && other[..Min(LIMIT, |inmates|)] == Ultimos(cells, inmates)
  {
    RecentOrderDeterministic(cells, inmates, other);
    JoinedLength(cells, inmates, other);
  }

  /** Under referential integrity the wing and cell number of a recent
      admission are NULL exactly when the inmate has no cell. */
  lemma UltimosNullIffUnassigned(cells: seq<Cell>, inmates: seq<Inmate>, k: nat)
    requires ReferencesResolve(cells, inmates) && k < |inmates|
    ensures ToRecent(cells, inmates[k]).pabellon.None? <==> inmates[k].celdaId.None?
    ensures ToRecent(cells, inmates[k]).celda.None? <==> inmates[k].celdaId.None?
  {
  }
}

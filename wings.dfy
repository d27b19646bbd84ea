/** The per-wing breakdown of `get_stats` (app.py:587-606):

      SELECT c.pabellon, SUM(c.capacidad), SUM(CASE WHEN i.estado='Activo' THEN 1 ELSE 0 END)
      FROM celdas c LEFT JOIN internos i ON i.celda_id = c.id
      GROUP BY c.pabellon ORDER BY c.pabellon

    modelled as written: the join first (`LeftJoin`), then the groups
    (`GroupByWing`), then the loop that turns each group into a `WingStat`
    (`CollectWingStats`). Because the capacity is summed over joined rows, a
    cell counts its capacity once per inmate assigned to it, or once when it
    has none. */
module Wings {
  import opened Common
  import opened Schema
  import opened Ordering
  import opened Capacity
  import Queries
  import Strings

  /** A row of the join, reduced to the columns the query reads; `estado` is
      NULL when no inmate matched the cell. */
  datatype JoinedRow = JoinedRow(pabellon: string, capacidad: int, estado: Option<Status>)

  /** A row of the grouped result. */
  datatype GroupRow = GroupRow(pabellon: string, capacidad: int, ocupados: int)

  /** `PabellonStat` */
  datatype WingStat = WingStat(pabellon: string, capacidad: int, ocupados: int, ocupacion: real)

  /** No two cells share an id (`id INTEGER PRIMARY KEY`). */
  predicate IdsDistinct(cells: seq<Cell>)
  {
    forall a, b :: 0 <= a < b < |cells| ==> cells[a].id != cells[b].id
  }

  lemma CellsUniqueIds(cells: seq<Cell>)
    requires CellsUnique(cells)
    ensures IdsDistinct(cells)
  {
  }

  // ------------------------------------------------------------- the join

  /** The inmates whose `celda_id` is this cell, in table order. */
  function Occupants(c: Cell, inmates: seq<Inmate>): (r: seq<Inmate>)
    ensures forall i :: multiset(r)[i] == if i.celdaId == Some(c.id) then multiset(inmates)[i] else 0
  {
    if inmates == [] then []
    else
      assert inmates == [inmates[0]] + inmates[1..];
      (if inmates[0].celdaId == Some(c.id) then [inmates[0]] else []) + Occupants(c, inmates[1..])
  }

  /** One joined row per occupant. */
  function OccupantRows(c: Cell, occ: seq<Inmate>): seq<JoinedRow>
  {
    if occ == [] then []
    else [JoinedRow(c.pabellon, c.capacidad, Some(occ[0].estado))] + OccupantRows(c, occ[1..])
  }

  /** What cell `c` contributes to the LEFT JOIN: a row per occupant, or one
      row with NULL inmate columns. */
  function CellRows(c: Cell, inmates: seq<Inmate>): (r: seq<JoinedRow>)
    ensures r != []
    ensures forall k :: 0 <= k < |r| ==> r[k].pabellon == c.pabellon && r[k].capacidad == c.capacidad
  {
    var occ := Occupants(c, inmates);
    if occ == [] then [JoinedRow(c.pabellon, c.capacidad, None)]
    else
      OccupantRowsCarryCell(c, occ);
      OccupantRows(c, occ)
  }

  lemma {:induction false} OccupantRowsCarryCell(c: Cell, occ: seq<Inmate>)
    ensures |OccupantRows(c, occ)| == |occ|
    ensures forall k :: 0 <= k < |occ| ==>
              OccupantRows(c, occ)[k].pabellon == c.pabellon && OccupantRows(c, occ)[k].capacidad == c.capacidad
  {
    if occ != [] {
      OccupantRowsCarryCell(c, occ[1..]);
    }
  }

  /** `celdas c LEFT JOIN internos i ON i.celda_id = c.id` */
  function LeftJoin(cells: seq<Cell>, inmates: seq<Inmate>): seq<JoinedRow>
  {
    if cells == [] then [] else CellRows(cells[0], inmates) + LeftJoin(cells[1..], inmates)
  }

  function CellWings(cells: seq<Cell>): (r: seq<string>)
    ensures |r| == |cells| && forall k :: 0 <= k < |cells| ==> r[k] == cells[k].pabellon
  {
    seq(|cells|, k requires 0 <= k < |cells| => cells[k].pabellon)
  }

  function RowWings(rows: seq<JoinedRow>): (r: seq<string>)
    ensures |r| == |rows| && forall k :: 0 <= k < |rows| ==> r[k] == rows[k].pabellon
  {
    seq(|rows|, k requires 0 <= k < |rows| => rows[k].pabellon)
  }

  lemma RowWingsConcat(a: seq<JoinedRow>, b: seq<JoinedRow>)
    ensures RowWings(a + b) == RowWings(a) + RowWings(b)
  {
  }

  /** A cell's joined rows all carry its wing, and there is at least one. */
  lemma CellRowsWing(c: Cell, inmates: seq<Inmate>)
    ensures forall w :: w in RowWings(CellRows(c, inmates)) <==> w == c.pabellon
  {
    assert RowWings(CellRows(c, inmates))[0] == c.pabellon;
  }

  /** The wings of the joined rows are the wings of the cells: every cell
      contributes at least one row. */
  lemma {:induction false} JoinWings(cells: seq<Cell>, inmates: seq<Inmate>)
    ensures forall w :: w in RowWings(LeftJoin(cells, inmates)) <==> w in CellWings(cells)
  {
    if cells != [] {
      var head := CellRows(cells[0], inmates);
      var rest := LeftJoin(cells[1..], inmates);
      JoinWings(cells[1..], inmates);
      RowWingsConcat(head, rest);
      CellRowsWing(cells[0], inmates);
      assert CellWings(cells) == [cells[0].pabellon] + CellWings(cells[1..]);
    }
  }

  // ----------------------------------------------------------- the groups

  /** `SUM(c.capacidad)` over the rows of wing `w`. */
  function SumCapacity(rows: seq<JoinedRow>, w: string): int
  {
    if rows == [] then 0
    else (if rows[0].pabellon == w then rows[0].capacidad else 0) + SumCapacity(rows[1..], w)
  }

  /** `SUM(CASE WHEN i.estado='Activo' THEN 1 ELSE 0 END)` over the rows of
      wing `w`; a NULL status falls to the ELSE. */
  function SumActive(rows: seq<JoinedRow>, w: string): nat
  {
    if rows == [] then 0
    else (if rows[0].pabellon == w && rows[0].estado == Some(Activo) then 1 else 0) + SumActive(rows[1..], w)
  }

  /** `GROUP BY c.pabellon ORDER BY c.pabellon`: each wing of the rows once,
      ascending. */
  function GroupKeys(rows: seq<JoinedRow>): (r: seq<string>)
    ensures StrictlySorted(r, Strings.Less)
    ensures forall w :: w in r <==> w in RowWings(rows)
  {
    Strings.LessIsStrictTotalOrder();
    SortedKeys(RowWings(rows), Strings.Less)
  }

  /** The aggregates of each group. */
  function Aggregate(keys: seq<string>, rows: seq<JoinedRow>): (r: seq<GroupRow>)
    ensures |r| == |keys|
    ensures forall k :: 0 <= k < |r| ==> r[k] == GroupRow(keys[k], SumCapacity(rows, keys[k]), SumActive(rows, keys[k]))
  {
    if keys == [] then []
    else [GroupRow(keys[0], SumCapacity(rows, keys[0]), SumActive(rows, keys[0]))] + Aggregate(keys[1..], rows)
  }

  function GroupByWing(rows: seq<JoinedRow>): seq<GroupRow>
  {
    Aggregate(GroupKeys(rows), rows)
  }

  /** The grouped rows of the per-wing query: one row per wing that has a
      cell, in ascending wing order. */
  function WingQuery(cells: seq<Cell>, inmates: seq<Inmate>): (r: seq<GroupRow>)
    ensures forall a, b :: 0 <= a < b < |r| ==> Strings.Less(r[a].pabellon, r[b].pabellon)
    ensures forall k :: 0 <= k < |r| ==> r[k].pabellon in CellWings(cells)
    ensures forall j :: 0 <= j < |cells| ==> exists k :: 0 <= k < |r| && r[k].pabellon == cells[j].pabellon
  {
    var rows := LeftJoin(cells, inmates);
    var keys := GroupKeys(rows);
    JoinWings(cells, inmates);
    var r := Aggregate(keys, rows);
    forall j | 0 <= j < |cells| ensures exists k :: 0 <= k < |r| && r[k].pabellon == cells[j].pabellon {
      assert CellWings(cells)[j] == cells[j].pabellon;
      assert cells[j].pabellon in CellWings(cells);
      assert cells[j].pabellon in keys;
      var k :| 0 <= k < |keys| && keys[k] == cells[j].pabellon;
      assert r[k].pabellon == keys[k];
    }
    forall k | 0 <= k < |r| ensures r[k].pabellon in CellWings(cells) {
      assert r[k].pabellon == keys[k] && keys[k] in keys;
    }
    r
  }

  /** The loop of app.py:601-606: each group becomes a `PabellonStat` with its
      ratio. */
  method CollectWingStats(groups: seq<GroupRow>) returns (por: seq<WingStat>)
    ensures |por| == |groups|
    ensures forall k :: 0 <= k < |por| ==>
              por[k] == WingStat(groups[k].pabellon, groups[k].capacidad, groups[k].ocupados,
                                 Occupancy(groups[k].ocupados, groups[k].capacidad))
  {
    por := [];
    for k := 0 to |groups|
      invariant |por| == k
      invariant forall j :: 0 <= j < k ==>
                  por[j] == WingStat(groups[j].pabellon, groups[j].capacidad, groups[j].ocupados,
                                     Occupancy(groups[j].ocupados, groups[j].capacidad))
    {
      var g := groups[k];
      por := por + [WingStat(g.pabellon, g.capacidad, g.ocupados, Occupancy(g.ocupados, g.capacidad))];
    }
  }

  // ------------------------------------------ what the groups amount to

  function Max1(n: nat): nat
  {
    if n == 0 then 1 else n
  }

  /** The capacity of wing `w` as the query computes it, stated per cell:
      each cell of the wing counts its capacity once per occupant, or once
      when empty. */
  function WingCapacity(cells: seq<Cell>, inmates: seq<Inmate>, w: string): int
  {
    if cells == [] then 0
    else
      (if cells[0].pabellon == w then cells[0].capacidad * Max1(|Occupants(cells[0], inmates)|) else 0)
        + WingCapacity(cells[1..], inmates, w)
  }

  /** The inmate's cell exists and lies in wing `w`. */
  predicate InWing(cells: seq<Cell>, i: Inmate, w: string)
  {
    i.celdaId.Some? && Queries.GetCell(cells, i.celdaId.value).Ok?
      && Queries.GetCell(cells, i.celdaId.value).value.pabellon == w
  }

  /** The `Activo` inmates whose cell lies in wing `w`. */
  function ActiveInWing(cells: seq<Cell>, inmates: seq<Inmate>, w: string): nat
  {
    if inmates == [] then 0
    else
      (if inmates[0].estado == Activo && InWing(cells, inmates[0], w) then 1 else 0)
        + ActiveInWing(cells, inmates[1..], w)
  }

  lemma {:induction false} SumCapacityConcat(a: seq<JoinedRow>, b: seq<JoinedRow>, w: string)
    ensures SumCapacity(a + b, w) == SumCapacity(a, w) + SumCapacity(b, w)
  {
    if a != [] {
      assert (a + b)[1..] == a[1..] + b;
      SumCapacityConcat(a[1..], b, w);
    } else {
      assert a + b == b;
    }
  }

  lemma {:induction false} SumActiveConcat(a: seq<JoinedRow>, b: seq<JoinedRow>, w: string)
    ensures SumActive(a + b, w) == SumActive(a, w) + SumActive(b, w)
  {
    if a != [] {
      assert (a + b)[1..] == a[1..] + b;
      SumActiveConcat(a[1..], b, w);
    } else {
      assert a + b == b;
    }
  }

  function ActiveCount(s: seq<Inmate>): nat
  {
    if s == [] then 0 else (if s[0].estado == Activo then 1 else 0) + ActiveCount(s[1..])
  }

  lemma {:induction false} ActiveCountConcat(a: seq<Inmate>, b: seq<Inmate>)
    ensures ActiveCount(a + b) == ActiveCount(a) + ActiveCount(b)
  {
    if a != [] {
      assert (a + b)[1..] == a[1..] + b;
      ActiveCountConcat(a[1..], b);
    } else {
      assert a + b == b;
    }
  }

  lemma {:induction false} OccupantRowsSums(c: Cell, occ: seq<Inmate>, w: string)
    ensures SumCapacity(OccupantRows(c, occ), w) == if c.pabellon == w then c.capacidad * |occ| else 0
    ensures SumActive(OccupantRows(c, occ), w) == if c.pabellon == w then ActiveCount(occ) else 0
  {
    if occ != [] {
      OccupantRowsSums(c, occ[1..], w);
    }
  }

  lemma CellRowsSums(c: Cell, inmates: seq<Inmate>, w: string)
    ensures SumCapacity(CellRows(c, inmates), w) ==
            if c.pabellon == w then c.capacidad * Max1(|Occupants(c, inmates)|) else 0
    ensures SumActive(CellRows(c, inmates), w) ==
            if c.pabellon == w then ActiveCount(Occupants(c, inmates)) else 0
  {
    OccupantRowsSums(c, Occupants(c, inmates), w);
  }

  /** The capacity of a group is the per-cell capacity of `WingCapacity`. */
  lemma {:induction false} JoinCapacity(cells: seq<Cell>, inmates: seq<Inmate>, w: string)
    ensures SumCapacity(LeftJoin(cells, inmates), w) == WingCapacity(cells, inmates, w)
  {
    if cells != [] {
      SumCapacityConcat(CellRows(cells[0], inmates), LeftJoin(cells[1..], inmates), w);
      CellRowsSums(cells[0], inmates, w);
      JoinCapacity(cells[1..], inmates, w);
    }
  }

  /** The active occupants of the cells of wing `w`, counted cell by cell. */
  function PerCellActive(cells: seq<Cell>, inmates: seq<Inmate>, w: string): nat
  {
    if cells == [] then 0
    else
      (if cells[0].pabellon == w then ActiveCount(Occupants(cells[0], inmates)) else 0)
        + PerCellActive(cells[1..], inmates, w)
  }

  lemma {:induction false} JoinActive(cells: seq<Cell>, inmates: seq<Inmate>, w: string)
    ensures SumActive(LeftJoin(cells, inmates), w) == PerCellActive(cells, inmates, w)
  {
    if cells != [] {
      SumActiveConcat(CellRows(cells[0], inmates), LeftJoin(cells[1..], inmates), w);
      CellRowsSums(cells[0], inmates, w);
      JoinActive(cells[1..], inmates, w);
    }
  }

  /** How many cells of wing `w` the active inmate `i` is assigned to. */
  function Hits(cells: seq<Cell>, i: Inmate, w: string): nat
  {
    if cells == [] then 0
    else
      (if cells[0].pabellon == w && i.celdaId == Some(cells[0].id) && i.estado == Activo then 1 else 0)
        + Hits(cells[1..], i, w)
  }

  lemma {:induction false} PerCellActiveEmpty(cells: seq<Cell>, w: string)
    ensures PerCellActive(cells, [], w) == 0
  {
    if cells != [] {
      PerCellActiveEmpty(cells[1..], w);
    }
  }

  lemma {:induction false} PerCellActiveStep(cells: seq<Cell>, inmates: seq<Inmate>, w: string)
    requires inmates != []
    ensures PerCellActive(cells, inmates, w) == Hits(cells, inmates[0], w) + PerCellActive(cells, inmates[1..], w)
  {
    if cells != [] {
      var c := cells[0];
      var head := if inmates[0].celdaId == Some(c.id) then [inmates[0]] else [];
      ActiveCountConcat(head, Occupants(c, inmates[1..]));
      PerCellActiveStep(cells[1..], inmates, w);
    }
  }

  lemma {:induction false} NoHits(cells: seq<Cell>, i: Inmate, w: string)
    requires i.celdaId.Some? && forall k :: 0 <= k < |cells| ==> cells[k].id != i.celdaId.value
    ensures Hits(cells, i, w) == 0
  {
    if cells != [] {
      NoHits(cells[1..], i, w);
    }
  }

  /** With distinct ids an inmate hits at most one cell: the one `InWing`
      looks up. */
  lemma {:induction false} HitsIsInWing(cells: seq<Cell>, i: Inmate, w: string)
    requires IdsDistinct(cells)
    ensures Hits(cells, i, w) == if i.estado == Activo && InWing(cells, i, w) then 1 else 0
  {
    if cells != [] {
      if i.celdaId == Some(cells[0].id) {
        NoHits(cells[1..], i, w);
      } else {
        HitsIsInWing(cells[1..], i, w);
      }
    }
  }

  /** Counting per cell and counting per inmate agree. */
  lemma {:induction false} PerCellIsPerInmate(cells: seq<Cell>, inmates: seq<Inmate>, w: string)
    requires IdsDistinct(cells)
    ensures PerCellActive(cells, inmates, w) == ActiveInWing(cells, inmates, w)
  {
    if inmates == [] {
      PerCellActiveEmpty(cells, w);
    } else {
      PerCellActiveStep(cells, inmates, w);
      HitsIsInWing(cells, inmates[0], w);
      PerCellIsPerInmate(cells, inmates[1..], w);
    }
  }

  /** What each row of the per-wing query states: its capacity is the sum
      over the wing's cells of capacity times max(1, occupants), its
      `ocupados` is the number of `Activo` inmates whose cell is in the
      wing, and, with every capacity at least 1, `ocupados <= capacidad`. */
  lemma WingRowMeaning(cells: seq<Cell>, inmates: seq<Inmate>, k: nat)
    requires CellsUnique(cells) && k < |WingQuery(cells, inmates)|
    ensures var g := WingQuery(cells, inmates)[k];
            && g.capacidad == WingCapacity(cells, inmates, g.pabellon)
            && g.ocupados == ActiveInWing(cells, inmates, g.pabellon)
            && ((forall j :: 0 <= j < |cells| ==> CapacityInRange(cells[j])) ==> g.ocupados <= g.capacidad)
  {
    var rows := LeftJoin(cells, inmates);
    var g := WingQuery(cells, inmates)[k];
    assert g == GroupRow(g.pabellon, SumCapacity(rows, g.pabellon), SumActive(rows, g.pabellon));
    JoinCapacity(cells, inmates, g.pabellon);
    JoinActive(cells, inmates, g.pabellon);
    PerCellIsPerInmate(cells, inmates, g.pabellon);
    if forall j :: 0 <= j < |cells| ==> CapacityInRange(cells[j]) {
      JoinWithinCapacity(cells, inmates, g.pabellon);
    }
  }

  /** Each joined row adds at most 1 to `ocupados` and at least 1 to
      `capacidad`. */
  lemma {:induction false} ActiveWithinCapacity(rows: seq<JoinedRow>, w: string)
    requires forall k :: 0 <= k < |rows| ==> rows[k].capacidad >= 1
    ensures SumActive(rows, w) <= SumCapacity(rows, w)
  {
    if rows != [] {
      ActiveWithinCapacity(rows[1..], w);
    }
  }

  lemma {:induction false} JoinWithinCapacity(cells: seq<Cell>, inmates: seq<Inmate>, w: string)
    requires forall j :: 0 <= j < |cells| ==> CapacityInRange(cells[j])
    ensures SumActive(LeftJoin(cells, inmates), w) <= SumCapacity(LeftJoin(cells, inmates), w)
  {
    if cells != [] {
      var head := CellRows(cells[0], inmates);
      SumActiveConcat(head, LeftJoin(cells[1..], inmates), w);
      SumCapacityConcat(head, LeftJoin(cells[1..], inmates), w);
      ActiveWithinCapacity(head, w);
      JoinWithinCapacity(cells[1..], inmates, w);
    }
  }

  // ------------------------------------------- the wings add up to the total

  function TotalOcupados(groups: seq<GroupRow>): int
  {
    if groups == [] then 0 else groups[0].ocupados + TotalOcupados(groups[1..])
  }

  /** How many of `keys` name the wing of inmate `i`'s cell. */
  function WingHits(keys: seq<string>, cells: seq<Cell>, i: Inmate): nat
  {
    if keys == [] then 0
    else (if i.estado == Activo && InWing(cells, i, keys[0]) then 1 else 0) + WingHits(keys[1..], cells, i)
  }

  function SumOverWings(keys: seq<string>, cells: seq<Cell>, inmates: seq<Inmate>): nat
  {
    if keys == [] then 0 else ActiveInWing(cells, inmates, keys[0]) + SumOverWings(keys[1..], cells, inmates)
  }

  lemma {:induction false} SumOverWingsEmpty(keys: seq<string>, cells: seq<Cell>)
    ensures SumOverWings(keys, cells, []) == 0
  {
    if keys != [] {
      SumOverWingsEmpty(keys[1..], cells);
    }
  }

  lemma {:induction false} SumOverWingsStep(keys: seq<string>, cells: seq<Cell>, inmates: seq<Inmate>)
    requires inmates != []
    ensures SumOverWings(keys, cells, inmates) == WingHits(keys, cells, inmates[0]) + SumOverWings(keys, cells, inmates[1..])
  {
    if keys != [] {
      SumOverWingsStep(keys[1..], cells, inmates);
    }
  }

  /** Distinct keys name a wing at most once. */
  lemma {:induction false} WingHitsDistinct(keys: seq<string>, cells: seq<Cell>, i: Inmate)
    requires Distinct(keys)
    ensures WingHits(keys, cells, i) ==
            if i.estado == Activo && i.celdaId.Some? && Queries.GetCell(cells, i.celdaId.value).Ok?
               && Queries.GetCell(cells, i.celdaId.value).value.pabellon in keys
            then 1 else 0
  {
    if keys != [] {
      assert Distinct(keys[1..]) by {
        forall a, b | 0 <= a < b < |keys[1..]| ensures keys[1..][a] != keys[1..][b] {
          assert keys[1..][a] == keys[a + 1] && keys[1..][b] == keys[b + 1];
        }
      }
      WingHitsDistinct(keys[1..], cells, i);
      if InWing(cells, i, keys[0]) {
        assert keys[0] !in keys[1..] by {
          forall m | 0 <= m < |keys[1..]| ensures keys[1..][m] != keys[0] {
            assert keys[1..][m] == keys[m + 1];
          }
        }
      }
      assert forall x :: x in keys <==> x == keys[0] || x in keys[1..] by {
        assert keys == [keys[0]] + keys[1..];
      }
    }
  }

  /** Under referential integrity, counting the active inmates wing by wing
      over distinct keys that cover every cell's wing counts every occupied
      bed exactly once. */
  lemma {:induction false} WingsCoverBeds(keys: seq<string>, cells: seq<Cell>, inmates: seq<Inmate>)
    requires Distinct(keys)
    requires forall j :: 0 <= j < |cells| ==> cells[j].pabellon in keys
    requires ReferencesResolve(cells, inmates)
    ensures SumOverWings(keys, cells, inmates) == OccupiedBeds(inmates)
  {
    if inmates == [] {
      SumOverWingsEmpty(keys, cells);
    } else {
      var i := inmates[0];
      SumOverWingsStep(keys, cells, inmates);
      WingHitsDistinct(keys, cells, i);
      if i.celdaId.Some? {
        assert HasCell(cells, i.celdaId.value);
        var c := Queries.GetCell(cells, i.celdaId.value).value;
        var j :| 0 <= j < |cells| && cells[j] == c;
      }
      assert ReferencesResolve(cells, inmates[1..]) by {
        forall k | 0 <= k < |inmates[1..]| && inmates[1..][k].celdaId.Some?
          ensures HasCell(cells, inmates[1..][k].celdaId.value)
        {
          assert inmates[1..][k] == inmates[k + 1];
        }
      }
      WingsCoverBeds(keys, cells, inmates[1..]);
    }
  }

  lemma {:induction false} TotalOcupadosIsSum(keys: seq<string>, cells: seq<Cell>, inmates: seq<Inmate>)
    requires IdsDistinct(cells)
    ensures TotalOcupados(Aggregate(keys, LeftJoin(cells, inmates))) == SumOverWings(keys, cells, inmates)
  {
    if keys != [] {
      var rows := LeftJoin(cells, inmates);
      assert Aggregate(keys, rows)[1..] == Aggregate(keys[1..], rows);
      JoinActive(cells, inmates, keys[0]);
      PerCellIsPerInmate(cells, inmates, keys[0]);
      TotalOcupadosIsSum(keys[1..], cells, inmates);
    }
  }

  /** The per-wing `ocupados` add up to `camas_ocupadas` when every
      `celda_id` names an existing cell. */
  lemma WingsSumToOccupiedBeds(cells: seq<Cell>, inmates: seq<Inmate>)
    requires CellsUnique(cells) && ReferencesResolve(cells, inmates)
    ensures TotalOcupados(WingQuery(cells, inmates)) == OccupiedBeds(inmates)
  {
    var rows := LeftJoin(cells, inmates);
    var keys := GroupKeys(rows);
    Strings.LessIsStrictTotalOrder();
    StrictlySortedIsDistinct(keys, Strings.Less);
    JoinWings(cells, inmates);
    forall j | 0 <= j < |cells| ensures cells[j].pabellon in keys {
      assert CellWings(cells)[j] == cells[j].pabellon;
    }
    TotalOcupadosIsSum(keys, cells, inmates);
    WingsCoverBeds(keys, cells, inmates);
  }
}

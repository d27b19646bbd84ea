/** The facility-wide figures of `get_stats` (app.py:552-584): the totals, the
    capacity, the occupied beds, the occupancy ratio and the admissions in the
    window. Nothing checks a cell's capacity when an inmate is assigned to it,
    so the ratio may exceed 1. */
module Capacity {
  import opened Common
  import opened Schema
  import opened DateWindow

  /** `SELECT COALESCE(SUM(capacidad), 0) FROM celdas` */
  function TotalCapacity(cells: seq<Cell>): (n: int)
    ensures (forall k :: 0 <= k < |cells| ==> CapacityInRange(cells[k])) ==>
              |cells| <= n <= 12 * |cells| && (n == 0 <==> cells == [])
  {
    if cells == [] then 0
    else
      assert forall k :: 0 <= k < |cells| - 1 ==> cells[1..][k] == cells[k + 1];
      cells[0].capacidad + TotalCapacity(cells[1..])
  }

  /** `estado = 'Activo' AND celda_id IS NOT NULL` */
  predicate HoldsBed(i: Inmate)
  {
    i.estado == Activo && i.celdaId.Some?
  }

  /** `camas_ocupadas`: the inmates that hold a bed. */
  function OccupiedBeds(inmates: seq<Inmate>): (n: nat)
    ensures n <= |inmates|
    ensures n == 0 <==> forall k :: 0 <= k < |inmates| ==> !HoldsBed(inmates[k])
    ensures n == |inmates| <==> forall k :: 0 <= k < |inmates| ==> HoldsBed(inmates[k])
  {
    if inmates == [] then 0
    else
      assert forall k :: 0 <= k < |inmates| - 1 ==> inmates[1..][k] == inmates[k + 1];
      (if HoldsBed(inmates[0]) then 1 else 0) + OccupiedBeds(inmates[1..])
  }

  /** `camas_ocupadas / capacidad_total if capacidad_total else 0.0`, as an
      exact fraction. */
  function Occupancy(occupied: int, capacity: int): (r: real)
    ensures capacity == 0 ==> r == 0.0
    ensures capacity != 0 ==> r * (capacity as real) == occupied as real
    ensures 0 <= occupied && 0 < capacity ==> 0.0 <= r && (r <= 1.0 <==> occupied <= capacity)
  {
    if capacity != 0 then occupied as real / capacity as real else 0.0
  }

  /** `nuevos_periodo`: the inmates admitted inside the window, both ends
      included. */
  function Admissions(inmates: seq<Inmate>, w: Window): (n: nat)
    ensures n <= |inmates|
    ensures n == 0 <==> forall k :: 0 <= k < |inmates| ==> !Contains(w, inmates[k].fechaIngreso)
  {
    if inmates == [] then 0
    else
      assert forall k :: 0 <= k < |inmates| - 1 ==> inmates[1..][k] == inmates[k + 1];
      (if Contains(w, inmates[0].fechaIngreso) then 1 else 0) + Admissions(inmates[1..], w)
  }

  /** A wider window admits at least as many. */
  lemma {:induction false} AdmissionsMonotone(inmates: seq<Inmate>, narrow: Window, wide: Window)
    requires wide.desde <= narrow.desde && narrow.hasta <= wide.hasta
    ensures Admissions(inmates, narrow) <= Admissions(inmates, wide)
  {
    if inmates != [] {
      AdmissionsMonotone(inmates[1..], narrow, wide);
    }
  }

  /** Splitting a window at a day splits its admissions: no admission is
      counted twice or lost at the seam. */
  lemma {:induction false} AdmissionsSplit(inmates: seq<Inmate>, desde: int, mid: int, hasta: int)
    requires desde <= mid < hasta
    ensures Admissions(inmates, Window(desde, hasta)) ==
            Admissions(inmates, Window(desde, mid)) + Admissions(inmates, Window(mid + 1, hasta))
  {
    if inmates != [] {
      AdmissionsSplit(inmates[1..], desde, mid, hasta);
    }
  }

  /** The ratio is not bounded by 1: a valid store with a one-bed cell and
      two active inmates assigned to it reports 2. */
  lemma OverbookedCell()
    ensures var cells := [Cell(1, "A", "1", 1)];
            var inmates := [Inmate(1, None, "Ana", "Paz", 739000, Activo, Some(1), None, None),
                            Inmate(2, None, "Eva", "Sol", 739000, Activo, Some(1), None, None)];
            WellFormed(cells, [], inmates) && Occupancy(OccupiedBeds(inmates), TotalCapacity(cells)) == 2.0
  {
    var cells := [Cell(1, "A", "1", 1)];
    var inmates := [Inmate(1, None, "Ana", "Paz", 739000, Activo, Some(1), None, None),
                    Inmate(2, None, "Eva", "Sol", 739000, Activo, Some(1), None, None)];
    assert HasCell(cells, 1) by { assert cells[0].id == 1; }
    assert OccupiedBeds(inmates) == 2 by {
      assert inmates[1..] == [inmates[1]];
      assert inmates[1..][1..] == [];
    }
  }
}

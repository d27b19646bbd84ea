/** `get_stats` (app.py:536-635): the dashboard of the facility for a date
    window. Each figure is one query over the three tables; this module puts
    them together in the response and states how they relate. */
module Stats {
  import opened Common
  import opened Schema
  import opened Dates
  import opened DateWindow
  import opened Capacity
  import opened Wings
  import opened Histogram
  import opened Recent

  datatype Totales = Totales(internos: nat, celdas: nat, agentes: nat)

  datatype CapacidadStats = CapacidadStats(capacidadTotal: int, camasOcupadas: nat, tasaOcupacion: real)

  datatype StatsResponse = StatsResponse(
    totales: Totales,
    capacidad: CapacidadStats,
    nuevosPeriodo: nat,
    porPabellon: seq<WingStat>,
    estados: Dict,
    ultimos: seq<RecentRow>)

  /** The `ocupados` of the per-wing rows, added up. */
  function WingOcupados(por: seq<WingStat>): int
  {
    if por == [] then 0 else por[0].ocupados + WingOcupados(por[1..])
  }

  /** The per-wing loop copies `ocupados` unchanged, so the sums agree. */
  lemma {:induction false} WingOcupadosIsTotal(groups: seq<GroupRow>, por: seq<WingStat>)
    requires |por| == |groups|
    requires forall k :: 0 <= k < |por| ==> por[k].ocupados == groups[k].ocupados
    ensures WingOcupados(por) == TotalOcupados(groups)
  {
    if por != [] {
      WingOcupadosIsTotal(groups[1..], por[1..]);
    }
  }

  /** `get_stats`, with `date.today()` passed in as `today`. `agents` is
      None when the `agentes` table does not exist, which the handler counts
      as zero agents. */
  method GetStats(cells: seq<Cell>, agents: Option<seq<Agent>>, inmates: seq<Inmate>,
                  desde: Option<int>, hasta: Option<int>, today: int)
    returns (r: Result<StatsResponse>)
    requires ValidDay(today) && OptionalDay(desde) && OptionalDay(hasta)
    ensures Resolve(desde, hasta, today).Err? ==> r == Err(Resolve(desde, hasta, today).error)
    ensures Resolve(desde, hasta, today).Ok? ==> r.Ok?
    ensures r.Ok? ==>
              var s := r.value;
              && s.totales == Totales(|inmates|, |cells|, if agents.Some? then |agents.value| else 0)
              && s.capacidad.capacidadTotal == TotalCapacity(cells)
              && s.capacidad.camasOcupadas == OccupiedBeds(inmates)
              && s.capacidad.tasaOcupacion == Occupancy(OccupiedBeds(inmates), TotalCapacity(cells))
              && s.nuevosPeriodo == Admissions(inmates, Resolve(desde, hasta, today).value)
              && s.estados == Estados(StatusColumn(inmates))
              && s.ultimos == Ultimos(cells, inmates)
    ensures r.Ok? ==>
              var g := WingQuery(cells, inmates);
              && |r.value.porPabellon| == |g|
              && forall k :: 0 <= k < |g| ==>
                   r.value.porPabellon[k] ==
                     WingStat(g[k].pabellon, g[k].capacidad, g[k].ocupados, Occupancy(g[k].ocupados, g[k].capacidad))
    ensures r.Ok? ==>
              && r.value.capacidad.camasOcupadas <= r.value.totales.internos
              && r.value.nuevosPeriodo <= r.value.totales.internos
              && SumValues(r.value.estados) == r.value.totales.internos
              && |r.value.ultimos| == Min(LIMIT, r.value.totales.internos)
    ensures r.Ok? && CellsUnique(cells) && ReferencesResolve(cells, inmates) ==>
              WingOcupados(r.value.porPabellon) == r.value.capacidad.camasOcupadas
  {
    var window := Resolve(desde, hasta, today);
    if window.Err? {
      return Err(window.error);
    }
    var w := window.value;
    var totales := Totales(|inmates|, |cells|, if agents.Some? then |agents.value| else 0);
    var capacidadTotal := TotalCapacity(cells);
    var camasOcupadas := OccupiedBeds(inmates);
    var capacidad := CapacidadStats(capacidadTotal, camasOcupadas, Occupancy(camasOcupadas, capacidadTotal));
    var groups := WingQuery(cells, inmates);
    var por := CollectWingStats(groups);
    WingOcupadosIsTotal(groups, por);
    if CellsUnique(cells) && ReferencesResolve(cells, inmates) {
      WingsSumToOccupiedBeds(cells, inmates);
    }
    StoreEstadosSum(inmates);
    r := Ok(StatsResponse(totales, capacidad, Admissions(inmates, w), por, Estados(StatusColumn(inmates)),
                          Ultimos(cells, inmates)));
  }
}

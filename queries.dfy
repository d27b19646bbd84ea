/** The read handlers of `app.py`: `listar_celdas`, `listar_agentes` and
    `listar_internos` (a WHERE built from the optional parameters, then an
    ORDER BY), and the lookups by id `obtener_celda`, `obtener_agente` and
    `obtener_interno` (404 when absent), which are all `Common.GetById` on
    their table. A listing is specified as a sorted permutation of the
    matching rows; where the sort keys are unique the listing is fully
    determined. */
module Queries {
  import opened Common
  import opened Schema
  import opened Ordering
  import Strings

  // ---------------------------------------------------------------- cells

  /** `ORDER BY pabellon, numero` */
  predicate CellLe(a: Cell, b: Cell)
  {
    Strings.PairLessEq(a.pabellon, a.numero, b.pabellon, b.numero)
  }

  lemma CellLeTotalPreorder()
    ensures TotalPreorder(CellLe)
  {
    forall a: Cell, b: Cell ensures CellLe(a, b) || CellLe(b, a) {
      Strings.PairLessEqTotal(a.pabellon, a.numero, b.pabellon, b.numero);
    }
    forall a: Cell, b: Cell, c: Cell | CellLe(a, b) && CellLe(b, c) ensures CellLe(a, c) {
      Strings.PairLessEqTransitive(a.pabellon, a.numero, b.pabellon, b.numero, c.pabellon, c.numero);
    }
  }

  /** The WHERE of `listar_celdas`; an empty parameter is ignored. */
  predicate CellMatches(c: Cell, pabellon: Option<string>, numero: Option<string>)
  {
    && (Given(pabellon) ==> c.pabellon == pabellon.value)
    && (Given(numero) ==> c.numero == numero.value)
  }

  /** `listar_celdas`: every matching cell once, ordered by wing and number. */
  function ListCells(cells: seq<Cell>, pabellon: Option<string>, numero: Option<string>): (r: seq<Cell>)
    ensures Sorted(r, CellLe)
    ensures forall c :: multiset(r)[c] == if CellMatches(c, pabellon, numero) then multiset(cells)[c] else 0
  {
    CellLeTotalPreorder();
    SortBy(Filter(cells, c => CellMatches(c, pabellon, numero)), CellLe)
  }

  /** `(pabellon, numero)` is unique, so the order of `listar_celdas` is fully
      determined: any sorted arrangement of the matching cells is this one. */
  lemma ListCellsDeterministic(cells: seq<Cell>, pabellon: Option<string>, numero: Option<string>, other: seq<Cell>)
    requires CellsUnique(cells)
    requires Sorted(other, CellLe)
    requires forall c :: multiset(other)[c] == if CellMatches(c, pabellon, numero) then multiset(cells)[c] else 0
    ensures other == ListCells(cells, pabellon, numero)
  {
    var r := ListCells(cells, pabellon, numero);
    assert multiset(other) == multiset(r) by {
      forall c ensures multiset(other)[c] == multiset(r)[c] { }
    }
    ListedCellsTieFree(cells, pabellon, numero);
    SortedPermutationUnique(r, other, CellLe);
  }

  lemma ListedCellsTieFree(cells: seq<Cell>, pabellon: Option<string>, numero: Option<string>)
    requires CellsUnique(cells)
    ensures TieFree(ListCells(cells, pabellon, numero), CellLe)
  {
    var r := ListCells(cells, pabellon, numero);
    forall x, y | x in r && y in r && CellLe(x, y) && CellLe(y, x) ensures x == y {
      assert multiset(r)[x] > 0 && multiset(r)[y] > 0;
      CellTieIsSameCell(cells, x, y);
    }
  }

  /** Two cells of the table that tie under `ORDER BY pabellon, numero` are
      the same cell. */
  lemma CellTieIsSameCell(cells: seq<Cell>, x: Cell, y: Cell)
    requires CellsUnique(cells)
    requires x in multiset(cells) && y in multiset(cells) && CellLe(x, y) && CellLe(y, x)
    ensures x == y
  {
    Strings.PairLessEqAntisymmetric(x.pabellon, x.numero, y.pabellon, y.numero);
    var a :| 0 <= a < |cells| && cells[a] == x;
    var b :| 0 <= b < |cells| && cells[b] == y;
  }

  /** `obtener_celda`: the cell with this id, or 404. */
  function GetCell(cells: seq<Cell>, id: int): (r: Result<Cell>)
    ensures r.Err? <==> !HasCell(cells, id)
    ensures r.Err? ==> r.error == NotFound
    ensures r.Ok? ==> r.value in cells && r.value.id == id
  {
    GetById(cells, CellId, id)
  }

  /** With unique ids the lookup returns the one cell with that id. */
  lemma GetCellUnique(cells: seq<Cell>, at: nat)
    requires CellsUnique(cells) && at < |cells|
    ensures GetCell(cells, cells[at].id) == Ok(cells[at])
  {
    GetByIdUnique(cells, CellId, at);
  }

  /** `internos i LEFT JOIN celdas c ON c.id = i.celda_id` for one inmate:
      the cell it is assigned to, or NULL cell columns when it has none or
      its `celda_id` names no cell. Cell ids are a primary key, so the join
      gives each inmate exactly one row. */
  function AssignedCell(cells: seq<Cell>, i: Inmate): (r: Option<Cell>)
    ensures r.Some? <==> i.celdaId.Some? && HasCell(cells, i.celdaId.value)
    ensures r.Some? ==> r.value in cells && r.value.id == i.celdaId.value
  {
    if i.celdaId.Some? && GetCell(cells, i.celdaId.value).Ok? then Some(GetCell(cells, i.celdaId.value).value)
    else None
  }

  // --------------------------------------------------------------- agents

  /** `ORDER BY apellido, nombre` */
  predicate AgentLe(a: Agent, b: Agent)
  {
    Strings.PairLessEq(a.apellido, a.nombre, b.apellido, b.nombre)
  }

  lemma AgentLeTotalPreorder()
    ensures TotalPreorder(AgentLe)
  {
    forall a: Agent, b: Agent ensures AgentLe(a, b) || AgentLe(b, a) {
      Strings.PairLessEqTotal(a.apellido, a.nombre, b.apellido, b.nombre);
    }
    forall a: Agent, b: Agent, c: Agent | AgentLe(a, b) && AgentLe(b, c) ensures AgentLe(a, c) {
      Strings.PairLessEqTransitive(a.apellido, a.nombre, b.apellido, b.nombre, c.apellido, c.nombre);
    }
  }

  /** The WHERE of `listar_agentes`. A rank is never empty, so a given rank
      always filters; `activo` filters whenever it is not None, False
      included. */
  predicate AgentMatches(a: Agent, legajo: Option<string>, nombre: Option<string>, apellido: Option<string>,
                         rango: Option<Rank>, activo: Option<bool>)
  {
    && (Given(legajo) ==> a.legajo == legajo.value)
    && (Given(nombre) ==> a.nombre == nombre.value)
    && (Given(apellido) ==> a.apellido == apellido.value)
    && (rango.Some? ==> a.rango == rango.value)
    && (activo.Some? ==> a.activo == activo.value)
  }

  /** `listar_agentes`: every matching agent once, ordered by surname and
      name; agents with the same surname and name may come in any order. */
  function ListAgents(agents: seq<Agent>, legajo: Option<string>, nombre: Option<string>, apellido: Option<string>,
                      rango: Option<Rank>, activo: Option<bool>): (r: seq<Agent>)
    ensures Sorted(r, AgentLe)
    ensures forall a :: multiset(r)[a] ==
                        if AgentMatches(a, legajo, nombre, apellido, rango, activo) then multiset(agents)[a] else 0
  {
    AgentLeTotalPreorder();
    SortBy(Filter(agents, a => AgentMatches(a, legajo, nombre, apellido, rango, activo)), AgentLe)
  }

  /** Filtering by `activo = False` and by `activo = True` splits the agents:
      each agent is listed by exactly one of the two. */
  lemma ActiveFilterSplits(agents: seq<Agent>, a: Agent)
    requires a in agents
    ensures a in ListAgents(agents, None, None, None, None, Some(true)) <==>
            a !in ListAgents(agents, None, None, None, None, Some(false))
  {
    var t := ListAgents(agents, None, None, None, None, Some(true));
    var f := ListAgents(agents, None, None, None, None, Some(false));
    assert a in multiset(agents);
    assert a in t <==> a in multiset(t);
    assert a in f <==> a in multiset(f);
  }


  // -------------------------------------------------------------- inmates

  /** `ORDER BY apellido, nombre` */
  predicate InmateLe(a: Inmate, b: Inmate)
  {
    Strings.PairLessEq(a.apellido, a.nombre, b.apellido, b.nombre)
  }

  lemma InmateLeTotalPreorder()
    ensures TotalPreorder(InmateLe)
  {
    forall a: Inmate, b: Inmate ensures InmateLe(a, b) || InmateLe(b, a) {
      Strings.PairLessEqTotal(a.apellido, a.nombre, b.apellido, b.nombre);
    }
    forall a: Inmate, b: Inmate, c: Inmate | InmateLe(a, b) && InmateLe(b, c) ensures InmateLe(a, c) {
      Strings.PairLessEqTransitive(a.apellido, a.nombre, b.apellido, b.nombre, c.apellido, c.nombre);
    }
  }

  /** The WHERE of `listar_internos`. `dni = ?` and `causa = ?` never hold
      on a NULL column; a status is never empty; `celda_id` filters whenever
      it is not None. */
  predicate InmateMatches(i: Inmate, dni: Option<string>, estado: Option<Status>, celdaId: Option<int>,
                          apellido: Option<string>, causa: Option<string>)
  {
    && (Given(dni) ==> i.dni == Some(dni.value))
    && (estado.Some? ==> i.estado == estado.value)
    && (celdaId.Some? ==> i.celdaId == Some(celdaId.value))
    && (Given(apellido) ==> i.apellido == apellido.value)
    && (Given(causa) ==> i.causa == Some(causa.value))
  }

  /** `listar_internos`: every matching inmate once, ordered by surname and
      name. */
  function ListInmates(inmates: seq<Inmate>, dni: Option<string>, estado: Option<Status>, celdaId: Option<int>,
                       apellido: Option<string>, causa: Option<string>): (r: seq<Inmate>)
    ensures Sorted(r, InmateLe)
    ensures forall i :: multiset(r)[i] ==
                        if InmateMatches(i, dni, estado, celdaId, apellido, causa) then multiset(inmates)[i] else 0
  {
    InmateLeTotalPreorder();
    SortBy(Filter(inmates, i => InmateMatches(i, dni, estado, celdaId, apellido, causa)), InmateLe)
  }

  /** Listing the inmates of a cell of a well-formed store lists only
      `Activo` inmates. */
  lemma CellListingIsActive(cells: seq<Cell>, agents: seq<Agent>, inmates: seq<Inmate>, celdaId: int)
    requires WellFormed(cells, agents, inmates)
    ensures forall i :: i in ListInmates(inmates, None, None, Some(celdaId), None, None) ==> i.estado == Activo
  {
    var r := ListInmates(inmates, None, None, Some(celdaId), None, None);
    forall i | i in r ensures i.estado == Activo {
      assert i in multiset(r);
      assert i in multiset(inmates);
      var k :| 0 <= k < |inmates| && inmates[k] == i;
    }
  }

}

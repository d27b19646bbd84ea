/** The write handlers of `app.py` over the three tables: `crear_celda`,
    `actualizar_celda`, `eliminar_celda`, `crear_agente`, `actualizar_agente`,
    `eliminar_agente`, `crear_interno` and `eliminar_interno`. Every one of
    them keeps `Schema.WellFormed`, and none of them changes the status of an
    inmate that is already stored. */
module Store {
  import opened Common
  import opened Schema
  import Dates

  /** `CeldaIn`: what request validation guarantees of a cell payload. */
  datatype CellIn = CellIn(pabellon: string, numero: string, capacidad: int)

  predicate ValidCellIn(p: CellIn)
  {
    p.pabellon != "" && p.numero != "" && 1 <= p.capacidad <= 12
  }

  /** `AgenteIn`; the rank is one of the literals by its type. */
  datatype AgentIn = AgentIn(legajo: string, nombre: string, apellido: string, rango: Rank, activo: bool)

  /** `InternoIn`; the status is one of the literals by its type. */
  datatype InmateIn = InmateIn(
    dni: Option<string>,
    nombre: string,
    apellido: string,
    fechaIngreso: int,
    estado: Status,
    celdaId: Option<int>,
    causa: Option<string>,
    condenaMeses: Option<int>)

  predicate ValidInmateIn(p: InmateIn)
  {
    && Dates.ValidDay(p.fechaIngreso)
    && (p.condenaMeses.Some? ==> 0 <= p.condenaMeses.value <= 600)
  }

  /** The rowid SQLite gives a row inserted without one: one more than the
      largest id in the table, or 1 in an empty table. */
  function NewRowId(ids: seq<int>): (r: int)
    ensures forall k :: 0 <= k < |ids| ==> ids[k] < r
    ensures ids == [] ==> r == 1
  {
    if ids == [] then 1
    else
      var rest := NewRowId(ids[1..]);
      if ids[0] + 1 > rest then ids[0] + 1 else rest
  }

  /** Another cell already holds this (pabellon, numero). */
  predicate CellPlaceTaken(cells: seq<Cell>, pabellon: string, numero: string, except: Option<int>)
  {
    exists k :: 0 <= k < |cells| && Some(cells[k].id) != except &&
      cells[k].pabellon == pabellon && cells[k].numero == numero
  }

  predicate LegajoTaken(agents: seq<Agent>, legajo: string, except: Option<int>)
  {
    exists k :: 0 <= k < |agents| && Some(agents[k].id) != except && agents[k].legajo == legajo
  }

  predicate DniTaken(inmates: seq<Inmate>, dni: Option<string>)
  {
    dni.Some? && exists k :: 0 <= k < |inmates| && inmates[k].dni == dni
  }

  predicate HasAgent(agents: seq<Agent>, id: int)
  {
    exists k :: 0 <= k < |agents| && agents[k].id == id
  }

  predicate HasInmate(inmates: seq<Inmate>, id: int)
  {
    exists k :: 0 <= k < |inmates| && inmates[k].id == id
  }

  /** Some inmate's `celda_id` is this cell. */
  predicate CellReferenced(inmates: seq<Inmate>, id: int)
  {
    exists k :: 0 <= k < |inmates| && inmates[k].celdaId == Some(id)
  }

  /** Every inmate still stored keeps the status it had. */
  predicate StatusesKept(before: seq<Inmate>, after: seq<Inmate>)
  {
    forall a, b :: 0 <= a < |after| && 0 <= b < |before| && after[a].id == before[b].id ==>
      after[a].estado == before[b].estado
  }

  /** The sequence without the element at `at`: a `DELETE ... WHERE id = ?`
      on a table whose ids are unique. */
  function RemoveAt<T>(s: seq<T>, at: nat): (r: seq<T>)
    requires at < |s|
    ensures |r| == |s| - 1
    ensures forall k :: 0 <= k < |r| ==> r[k] == (if k < at then s[k] else s[k + 1])
  {
    s[..at] + s[at + 1..]
  }

  /** Appending an inmate whose id is new, whose dni is free, whose cell
      exists and who holds a cell only while `Activo` keeps every constraint,
      and no stored inmate's status changes. */
  lemma AddInmateKeepsWellFormed(cells: seq<Cell>, agents: seq<Agent>, inmates: seq<Inmate>, i: Inmate)
    requires WellFormed(cells, agents, inmates) && InmateChecks(i)
    requires forall k :: 0 <= k < |inmates| ==> inmates[k].id < i.id
    requires !DniTaken(inmates, i.dni)
    requires i.celdaId.Some? ==> HasCell(cells, i.celdaId.value) && i.estado == Activo
    ensures WellFormed(cells, agents, inmates + [i])
    ensures StatusesKept(inmates, inmates + [i])
  {
    var r := inmates + [i];
    assert forall k :: 0 <= k < |inmates| ==> r[k] == inmates[k];
    assert r[|inmates|] == i;
  }

  /** Deleting one inmate keeps every constraint, removes the only row with
      its id, and leaves every other inmate's status as it was. */
  lemma RemoveInmateKeepsWellFormed(cells: seq<Cell>, agents: seq<Agent>, inmates: seq<Inmate>, at: nat)
    requires WellFormed(cells, agents, inmates) && at < |inmates|
    ensures WellFormed(cells, agents, RemoveAt(inmates, at))
    ensures StatusesKept(inmates, RemoveAt(inmates, at))
    ensures !HasInmate(RemoveAt(inmates, at), inmates[at].id)
  {
    var r := RemoveAt(inmates, at);
    forall a, b | 0 <= a < b < |r|
      ensures r[a].id != r[b].id && (r[a].dni.Some? && r[b].dni.Some? ==> r[a].dni != r[b].dni)
    {
      var a0 := if a < at then a else a + 1;
      var b0 := if b < at then b else b + 1;
      assert r[a] == inmates[a0] && r[b] == inmates[b0];
    }
    forall a, b | 0 <= a < |r| && 0 <= b < |inmates| && r[a].id == inmates[b].id
      ensures r[a].estado == inmates[b].estado
    {
      var a0 := if a < at then a else a + 1;
      assert r[a] == inmates[a0];
    }
    forall k | 0 <= k < |r| ensures r[k].id != inmates[at].id {
      var k0 := if k < at then k else k + 1;
      assert r[k] == inmates[k0];
    }
  }

  class Store {
    var cells: seq<Cell>
    var agents: seq<Agent>
    var inmates: seq<Inmate>

    ghost predicate Valid()
      reads this
    {
      WellFormed(cells, agents, inmates)
    }

    constructor ()
      ensures Valid() && cells == [] && agents == [] && inmates == []
    {
      cells, agents, inmates := [], [], [];
    }

    /** `crear_celda`: 409 when (pabellon, numero) is taken, else the cell is
        appended with a fresh id. */
    method CreateCell(p: CellIn) returns (r: Result<Cell>)
      requires Valid() && ValidCellIn(p)
      modifies this
      ensures Valid()
      ensures agents == old(agents) && inmates == old(inmates)
      ensures r.Err? <==> CellPlaceTaken(old(cells), p.pabellon, p.numero, None)
      ensures r.Err? ==> r.error == Conflict && cells == old(cells)
      ensures r.Ok? ==> (r.value == Cell(NewRowId(Ids(old(cells), CellId)), p.pabellon, p.numero, p.capacidad)
                         && cells == old(cells) + [r.value])
    {
      if CellPlaceTaken(cells, p.pabellon, p.numero, None) {
        return Err(Conflict);
      }
      var c := Cell(NewRowId(Ids(cells, CellId)), p.pabellon, p.numero, p.capacidad);
      cells := cells + [c];
      r := Ok(c);
      assert ReferencesResolve(cells, inmates) by {
        forall k | 0 <= k < |inmates| && inmates[k].celdaId.Some?
          ensures HasCell(cells, inmates[k].celdaId.value)
        {
          var j :| 0 <= j < |old(cells)| && old(cells)[j].id == inmates[k].celdaId.value;
          assert cells[j] == old(cells)[j];
        }
      }
    }

    /** `actualizar_celda`: 404 when the cell is absent, 409 when another cell
        holds the new (pabellon, numero); otherwise the row is rewritten in
        place and keeps its id. */
    method UpdateCell(id: int, p: CellIn) returns (r: Result<Cell>)
      requires Valid() && ValidCellIn(p)
      modifies this
      ensures Valid()
      ensures agents == old(agents) && inmates == old(inmates)
      ensures !HasCell(old(cells), id) ==> r == Err(NotFound)
      ensures HasCell(old(cells), id) && CellPlaceTaken(old(cells), p.pabellon, p.numero, Some(id)) ==> r == Err(Conflict)
      ensures r.Ok? <==> HasCell(old(cells), id) && !CellPlaceTaken(old(cells), p.pabellon, p.numero, Some(id))
      ensures r.Err? ==> cells == old(cells)
      ensures r.Ok? ==> r.value == Cell(id, p.pabellon, p.numero, p.capacidad)
      ensures r.Ok? ==> |cells| == |old(cells)| && forall k :: 0 <= k < |cells| ==>
                cells[k] == (if old(cells)[k].id == id then r.value else old(cells)[k])
    {
      var at := FindCell(id);
      if at.None? {
        return Err(NotFound);
      }
      if CellPlaceTaken(cells, p.pabellon, p.numero, Some(id)) {
        return Err(Conflict);
      }
      var c := Cell(id, p.pabellon, p.numero, p.capacidad);
      var before := cells;
      cells := cells[at.value := c];
      r := Ok(c);
      assert forall k :: 0 <= k < |cells| ==> cells[k].id == before[k].id;
      assert ReferencesResolve(cells, inmates) by {
        forall k | 0 <= k < |inmates| && inmates[k].celdaId.Some?
          ensures HasCell(cells, inmates[k].celdaId.value)
        {
          var j :| 0 <= j < |before| && before[j].id == inmates[k].celdaId.value;
          assert cells[j].id == before[j].id;
        }
      }
    }

    /** The position of the cell with this id. */
    method FindCell(id: int) returns (at: Option<nat>)
      requires Valid()
      ensures at.None? <==> !HasCell(cells, id)
      ensures at.Some? ==> at.value < |cells| && cells[at.value].id == id
    {
      at := None;
      for k := 0 to |cells|
        invariant at.None? <==> forall j :: 0 <= j < k ==> cells[j].id != id
        invariant at.Some? ==> at.value < k && cells[at.value].id == id
      {
        if at.None? && cells[k].id == id {
          at := Some(k);
        }
      }
    }

    /** `eliminar_celda`: 409 while an inmate references the cell (checked
        first), 404 when no row was deleted. The `ON DELETE SET NULL`
        cascade is applied, and it changes nothing because of the 409 guard. */
    method DeleteCell(id: int) returns (r: Result<int>)
      requires Valid()
      modifies this
      ensures Valid()
      ensures agents == old(agents) && inmates == old(inmates)
      ensures CellReferenced(old(inmates), id) ==> r == Err(Conflict)
      ensures !CellReferenced(old(inmates), id) && !HasCell(old(cells), id) ==> r == Err(NotFound)
      ensures r.Ok? <==> !CellReferenced(old(inmates), id) && HasCell(old(cells), id)
      ensures r.Err? ==> cells == old(cells)
      ensures r.Ok? ==> r.value == id && !HasCell(cells, id)
      ensures r.Ok? ==> exists at :: 0 <= at < |old(cells)| && old(cells)[at].id == id && cells == RemoveAt(old(cells), at)
    {
      if CellReferenced(inmates, id) {
        return Err(Conflict);
      }
      var at := FindCell(id);
      if at.None? {
        return Err(NotFound);
      }
      DeleteCellCascadeKeepsWellFormed(cells, agents, inmates, at.value);
      ClearUnreferencedIsIdentity(inmates, id);
      var before := cells;
      cells := RemoveAt(cells, at.value);
      inmates := ClearCellRefs(inmates, id);
      r := Ok(id);
      forall k | 0 <= k < |cells| ensures cells[k].id != id {
        if k < at.value {
          assert cells[k] == before[k];
        } else {
          assert cells[k] == before[k + 1];
        }
      }
    }

    /** `crear_agente`: 409 when the legajo is taken, else appended. */
    method CreateAgent(p: AgentIn) returns (r: Result<Agent>)
      requires Valid()
      modifies this
      ensures Valid()
      ensures cells == old(cells) && inmates == old(inmates)
      ensures r.Err? <==> LegajoTaken(old(agents), p.legajo, None)
      ensures r.Err? ==> r.error == Conflict && agents == old(agents)
      ensures r.Ok? ==> (r.value == Agent(NewRowId(Ids(old(agents), AgentId)), p.legajo, p.nombre, p.apellido, p.rango, p.activo)
                         && agents == old(agents) + [r.value])
    {
      if LegajoTaken(agents, p.legajo, None) {
        return Err(Conflict);
      }
      var a := Agent(NewRowId(Ids(agents, AgentId)), p.legajo, p.nombre, p.apellido, p.rango, p.activo);
      agents := agents + [a];
      r := Ok(a);
    }

    /** `actualizar_agente`: 404 when absent, 409 when another agent holds the
        legajo, otherwise rewritten in place under the same id. */
    method UpdateAgent(id: int, p: AgentIn) returns (r: Result<Agent>)
      requires Valid()
      modifies this
      ensures Valid()
      ensures cells == old(cells) && inmates == old(inmates)
      ensures !HasAgent(old(agents), id) ==> r == Err(NotFound)
      ensures HasAgent(old(agents), id) && LegajoTaken(old(agents), p.legajo, Some(id)) ==> r == Err(Conflict)
      ensures r.Ok? <==> HasAgent(old(agents), id) && !LegajoTaken(old(agents), p.legajo, Some(id))
      ensures r.Err? ==> agents == old(agents)
      ensures r.Ok? ==> r.value == Agent(id, p.legajo, p.nombre, p.apellido, p.rango, p.activo)
      ensures r.Ok? ==> |agents| == |old(agents)| && forall k :: 0 <= k < |agents| ==>
                agents[k] == (if old(agents)[k].id == id then r.value else old(agents)[k])
    {
      var at: Option<nat> := None;
      for k := 0 to |agents|
        invariant at.None? <==> forall j :: 0 <= j < k ==> agents[j].id != id
        invariant at.Some? ==> at.value < k && agents[at.value].id == id
      {
        if at.None? && agents[k].id == id {
          at := Some(k);
        }
      }
      if at.None? {
        return Err(NotFound);
      }
      if LegajoTaken(agents, p.legajo, Some(id)) {
        return Err(Conflict);
      }
      var a := Agent(id, p.legajo, p.nombre, p.apellido, p.rango, p.activo);
      agents := agents[at.value := a];
      r := Ok(a);
    }

    /** `eliminar_agente`: 404 when no row was deleted. */
    method DeleteAgent(id: int) returns (r: Result<int>)
      requires Valid()
      modifies this
      ensures Valid()
      ensures cells == old(cells) && inmates == old(inmates)
      ensures r.Err? <==> !HasAgent(old(agents), id)
      ensures r.Err? ==> r.error == NotFound && agents == old(agents)
      ensures r.Ok? ==> r.value == id && !HasAgent(agents, id)
      ensures r.Ok? ==> exists at :: 0 <= at < |old(agents)| && old(agents)[at].id == id && agents == RemoveAt(old(agents), at)
    {
      var at: Option<nat> := None;
      for k := 0 to |agents|
        invariant at.None? <==> forall j :: 0 <= j < k ==> agents[j].id != id
        invariant at.Some? ==> at.value < k && agents[at.value].id == id
      {
        if at.None? && agents[k].id == id {
          at := Some(k);
        }
      }
      if at.None? {
        return Err(NotFound);
      }
      var before := agents;
      agents := RemoveAt(agents, at.value);
      r := Ok(id);
      forall k | 0 <= k < |agents| ensures agents[k].id != id {
        if k < at.value {
          assert agents[k] == before[k];
        } else {
          assert agents[k] == before[k + 1];
        }
      }
    }

    /** `crear_interno`: 400 for a non-`Activo` inmate given a cell, checked
        before the 404 for a cell that does not exist (`_celda_existe`), then
        409 when the dni is taken; otherwise the inmate is appended. */
    method CreateInmate(p: InmateIn) returns (r: Result<Inmate>)
      requires Valid() && ValidInmateIn(p)
      modifies this
      ensures Valid()
      ensures cells == old(cells) && agents == old(agents)
      ensures StatusesKept(old(inmates), inmates)
      ensures p.estado != Activo && p.celdaId.Some? ==> r == Err(BadRequest)
      ensures (!(p.estado != Activo && p.celdaId.Some?) && p.celdaId.Some? && !HasCell(old(cells), p.celdaId.value))
        ==> r == Err(NotFound)
      ensures (!(p.estado != Activo && p.celdaId.Some?) && (p.celdaId.Some? ==> HasCell(old(cells), p.celdaId.value))
               && DniTaken(old(inmates), p.dni))
        ==> r == Err(Conflict)
      ensures r.Ok? <==> (!(p.estado != Activo && p.celdaId.Some?)
                          && (p.celdaId.Some? ==> HasCell(old(cells), p.celdaId.value))
                          && !DniTaken(old(inmates), p.dni))
      ensures r.Err? ==> inmates == old(inmates)
      ensures r.Ok? ==> (r.value == Inmate(NewRowId(Ids(old(inmates), InmateId)), p.dni, p.nombre, p.apellido,
                                           p.fechaIngreso, p.estado, p.celdaId, p.causa, p.condenaMeses)
                         && inmates == old(inmates) + [r.value])
    {
      if p.estado != Activo && p.celdaId.Some? {
        return Err(BadRequest);
      }
      if p.celdaId.Some? {
        var at := FindCell(p.celdaId.value);
        if at.None? {
          return Err(NotFound);
        }
      }
      if DniTaken(inmates, p.dni) {
        return Err(Conflict);
      }
      var i := Inmate(NewRowId(Ids(inmates, InmateId)), p.dni, p.nombre, p.apellido,
                      p.fechaIngreso, p.estado, p.celdaId, p.causa, p.condenaMeses);
      AddInmateKeepsWellFormed(cells, agents, inmates, i);
      inmates := inmates + [i];
      r := Ok(i);
    }

    /** `eliminar_interno`: 404 when no row was deleted. */
    method DeleteInmate(id: int) returns (r: Result<int>)
      requires Valid()
      modifies this
      ensures Valid()
      ensures cells == old(cells) && agents == old(agents)
      ensures StatusesKept(old(inmates), inmates)
      ensures r.Err? <==> !HasInmate(old(inmates), id)
      ensures r.Err? ==> r.error == NotFound && inmates == old(inmates)
      ensures r.Ok? ==> r.value == id && !HasInmate(inmates, id)
      ensures r.Ok? ==> exists at :: 0 <= at < |old(inmates)| && old(inmates)[at].id == id && inmates == RemoveAt(old(inmates), at)
    {
      var at: Option<nat> := None;
      for k := 0 to |inmates|
        invariant at.None? <==> forall j :: 0 <= j < k ==> inmates[j].id != id
        invariant at.Some? ==> at.value < k && inmates[at.value].id == id
      {
        if at.None? && inmates[k].id == id {
          at := Some(k);
        }
      }
      if at.None? {
        return Err(NotFound);
      }
      RemoveInmateKeepsWellFormed(cells, agents, inmates, at.value);
      inmates := RemoveAt(inmates, at.value);
      r := Ok(id);
    }
  }
}

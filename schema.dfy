/** The database of `db.py`: the three tables of `SCHEMA_SQL` with their
    CHECK, UNIQUE and FOREIGN KEY constraints stated as predicates over
    in-memory tables, and the introspection and migration helpers. */
module Schema {
  import opened Common
  import Dates
  import Strings
  import Ordering

  // ---------------------------------------------------------------------
  // Rows
  // ---------------------------------------------------------------------

  /** A row of `celdas`. */
  datatype Cell = Cell(id: int, pabellon: string, numero: string, capacidad: int)

  /** The values `CHECK (rango IN (...))` admits. */
  datatype Rank = Auxiliar | Oficial | Sargento | Suboficial | Inspector

  /** A row of `agentes`. */
  datatype Agent = Agent(id: int, legajo: string, nombre: string, apellido: string, rango: Rank, activo: bool)

  /** The values `CHECK (estado IN (...))` admits. */
  datatype Status = Activo | Trasladado | Liberado

  /** A row of `internos`; `fechaIngreso` is the day number of the stored ISO
      text. */
  datatype Inmate = Inmate(
    id: int,
    dni: Option<string>,
    nombre: string,
    apellido: string,
    fechaIngreso: int,
    estado: Status,
    celdaId: Option<int>,
    causa: Option<string>,
    condenaMeses: Option<int>)

  /** The `id INTEGER PRIMARY KEY` column of each table. */
  function CellId(c: Cell): int { c.id }
  function AgentId(a: Agent): int { a.id }
  function InmateId(i: Inmate): int { i.id }

  /** The text stored in the `estado` column. */
  function StatusName(s: Status): (t: string)
    ensures t != "" && t != "Desconocido"
  {
    match s
    case Activo => "Activo"
    case Trasladado => "Trasladado"
    case Liberado => "Liberado"
  }

  function StatusFromName(t: string): Option<Status>
  {
    if t == "Activo" then Some(Activo)
    else if t == "Trasladado" then Some(Trasladado)
    else if t == "Liberado" then Some(Liberado)
    else None
  }

  lemma StatusNameRoundTrip(s: Status)
    ensures StatusFromName(StatusName(s)) == Some(s)
  {
  }

  /** Different statuses are stored as different texts. */
  lemma StatusNameInjective(a: Status, b: Status)
    requires StatusName(a) == StatusName(b)
    ensures a == b
  {
    StatusNameRoundTrip(a);
    StatusNameRoundTrip(b);
  }

  // ---------------------------------------------------------------------
  // Constraints of SCHEMA_SQL
  // ---------------------------------------------------------------------

  /** `CHECK (capacidad BETWEEN 1 AND 12)`. */
  predicate CapacityInRange(c: Cell)
  {
    1 <= c.capacidad <= 12
  }

  /** `CHECK (condena_meses >= 0)` (NULL passes a CHECK), and the admission
      date is the ISO text of a real date. */
  predicate InmateChecks(i: Inmate)
  {
    && (i.condenaMeses.Some? ==> i.condenaMeses.value >= 0)
    && Dates.ValidDay(i.fechaIngreso)
  }

  /** The `CHECK` on `capacidad` holds for every cell. */
  predicate CapacitiesInRange(cells: seq<Cell>)
  {
    forall k :: 0 <= k < |cells| ==> CapacityInRange(cells[k])
  }

  /** `id INTEGER PRIMARY KEY` and `UNIQUE (pabellon, numero)`. */
  predicate CellsUnique(cells: seq<Cell>)
  {
    forall a, b :: 0 <= a < b < |cells| ==>
      cells[a].id != cells[b].id &&
      (cells[a].pabellon != cells[b].pabellon || cells[a].numero != cells[b].numero)
  }

  /** `id INTEGER PRIMARY KEY` and `legajo ... UNIQUE`. */
  predicate AgentsUnique(agents: seq<Agent>)
  {
    forall a, b :: 0 <= a < b < |agents| ==>
      agents[a].id != agents[b].id && agents[a].legajo != agents[b].legajo
  }

  /** `id INTEGER PRIMARY KEY` and `dni TEXT UNIQUE`; NULLs never clash. */
  predicate InmatesUnique(inmates: seq<Inmate>)
  {
    forall a, b :: 0 <= a < b < |inmates| ==>
      inmates[a].id != inmates[b].id &&
      (inmates[a].dni.Some? && inmates[b].dni.Some? ==> inmates[a].dni != inmates[b].dni)
  }

  /** Some cell has this id (`_celda_existe`). */
  predicate HasCell(cells: seq<Cell>, id: int)
  {
    exists k :: 0 <= k < |cells| && cells[k].id == id
  }

  /** `FOREIGN KEY (celda_id) REFERENCES celdas(id)`: no dangling reference. */
  predicate ReferencesResolve(cells: seq<Cell>, inmates: seq<Inmate>)
  {
    forall k :: 0 <= k < |inmates| && inmates[k].celdaId.Some? ==> HasCell(cells, inmates[k].celdaId.value)
  }

  /** The write rule of `crear_interno`: a cell is held only while `Activo`. */
  predicate OnlyActiveHoldCells(inmates: seq<Inmate>)
  {
    forall k :: 0 <= k < |inmates| && inmates[k].celdaId.Some? ==> inmates[k].estado == Activo
  }

  /** Everything the schema and the write handlers keep true of the data. */
  predicate WellFormed(cells: seq<Cell>, agents: seq<Agent>, inmates: seq<Inmate>)
  {
    && CapacitiesInRange(cells)
    && (forall k :: 0 <= k < |inmates| ==> InmateChecks(inmates[k]))
    && CellsUnique(cells)
    && AgentsUnique(agents)
    && InmatesUnique(inmates)
    && ReferencesResolve(cells, inmates)
    && OnlyActiveHoldCells(inmates)
  }

  /** `ON DELETE SET NULL`: what deleting cell `id` does to `internos`. */
  function ClearCellRefs(inmates: seq<Inmate>, id: int): (r: seq<Inmate>)
    ensures |r| == |inmates|
    ensures forall k :: 0 <= k < |r| ==>
      r[k] == (if inmates[k].celdaId == Some(id) then inmates[k].(celdaId := None) else inmates[k])
  {
    if inmates == [] then []
    else
      var i := inmates[0];
      [if i.celdaId == Some(id) then i.(celdaId := None) else i] + ClearCellRefs(inmates[1..], id)
  }

  /** Deleting a cell under `ON DELETE SET NULL` never leaves a dangling
      reference, and clearing a reference keeps the other constraints. */
  lemma {:induction false} DeleteCellCascadeKeepsWellFormed(cells: seq<Cell>, agents: seq<Agent>, inmates: seq<Inmate>, at: nat)
    requires WellFormed(cells, agents, inmates) && at < |cells|
    ensures WellFormed(cells[..at] + cells[at + 1..], agents, ClearCellRefs(inmates, cells[at].id))
  {
    RemoveCellKeepsUnique(cells, at);
    RemoveCellKeepsCapacities(cells, at);
    ClearedRefsResolve(cells, inmates, at);
    ClearCellRefsKeepsInmateRules(inmates, cells[at].id);
  }

  lemma ClearCellRefsKeepsInmateRules(inmates: seq<Inmate>, id: int)
    requires forall k :: 0 <= k < |inmates| ==> InmateChecks(inmates[k])
    requires InmatesUnique(inmates) && OnlyActiveHoldCells(inmates)
    ensures var r := ClearCellRefs(inmates, id);
      && (forall k :: 0 <= k < |r| ==> InmateChecks(r[k]))
      && InmatesUnique(r) && OnlyActiveHoldCells(r)
  {
    var r := ClearCellRefs(inmates, id);
    assert forall k :: 0 <= k < |r| ==> r[k].id == inmates[k].id && r[k].dni == inmates[k].dni;
  }

  lemma RemoveCellKeepsUnique(cells: seq<Cell>, at: nat)
    requires CellsUnique(cells) && at < |cells|
    ensures CellsUnique(cells[..at] + cells[at + 1..])
  {
    var cells' := cells[..at] + cells[at + 1..];
    forall a, b | 0 <= a < b < |cells'|
      ensures cells'[a].id != cells'[b].id &&
        (cells'[a].pabellon != cells'[b].pabellon || cells'[a].numero != cells'[b].numero)
    {
      var a0 := if a < at then a else a + 1;
      var b0 := if b < at then b else b + 1;
      assert cells'[a] == cells[a0] && cells'[b] == cells[b0];
    }
  }

  lemma RemoveCellKeepsCapacities(cells: seq<Cell>, at: nat)
    requires CapacitiesInRange(cells) && at < |cells|
    ensures CapacitiesInRange(cells[..at] + cells[at + 1..])
  {
    var cells' := cells[..at] + cells[at + 1..];
    forall k | 0 <= k < |cells'| ensures CapacityInRange(cells'[k]) {
      assert cells'[k] == cells[if k < at then k else k + 1];
    }
  }

  lemma ClearedRefsResolve(cells: seq<Cell>, inmates: seq<Inmate>, at: nat)
    requires ReferencesResolve(cells, inmates) && CellsUnique(cells) && at < |cells|
    ensures ReferencesResolve(cells[..at] + cells[at + 1..], ClearCellRefs(inmates, cells[at].id))
  {
    var cells' := cells[..at] + cells[at + 1..];
    var inmates' := ClearCellRefs(inmates, cells[at].id);
    forall k | 0 <= k < |inmates'| && inmates'[k].celdaId.Some?
      ensures HasCell(cells', inmates'[k].celdaId.value)
    {
      var j :| 0 <= j < |cells| && cells[j].id == inmates[k].celdaId.value;
      assert j != at;
      if j < at {
        assert cells'[j] == cells[j];
      } else {
        assert cells'[j - 1] == cells[j];
      }
    }
  }

  /** Deleting a cell no inmate references leaves `internos` as it was: the
      cascade of `eliminar_celda` never fires. */
  lemma {:induction false} ClearUnreferencedIsIdentity(inmates: seq<Inmate>, id: int)
    requires forall k :: 0 <= k < |inmates| ==> inmates[k].celdaId != Some(id)
    ensures ClearCellRefs(inmates, id) == inmates
  {
    if inmates != [] {
      ClearUnreferencedIsIdentity(inmates[1..], id);
    }
  }

  // ---------------------------------------------------------------------
  // Introspection: _is_system_table and list_tables
  // ---------------------------------------------------------------------

  const SYSTEM_TABLE_PREFIXES: seq<string> := ["sqlite_"]

  /** `_is_system_table`: the name starts with one of the reserved prefixes. */
  predicate IsSystemTable(name: string)
  {
    exists k :: 0 <= k < |SYSTEM_TABLE_PREFIXES| && Strings.IsPrefix(SYSTEM_TABLE_PREFIXES[k], name)
  }

  lemma SystemTableIffSqlitePrefix(name: string)
    ensures IsSystemTable(name) <==> |name| >= 7 && name[..7] == "sqlite_"
  {
    assert Strings.IsPrefix(SYSTEM_TABLE_PREFIXES[0], name) <==> |name| >= 7 && name[..7] == "sqlite_";
  }

  /** The tables that `list_tables` keeps, in the given order. */
  function KeptTables(names: seq<string>, includeSystem: bool): (r: seq<string>)
    ensures forall t :: t in r <==> t in names && (includeSystem || !IsSystemTable(t))
  {
    if names == [] then []
    else
      var rest := KeptTables(names[1..], includeSystem);
      if !includeSystem && IsSystemTable(names[0]) then rest else [names[0]] + rest
  }

  lemma {:induction false} KeptTablesSorted(names: seq<string>, includeSystem: bool)
    requires Ordering.StrictlySorted(names, Strings.Less)
    ensures Ordering.StrictlySorted(KeptTables(names, includeSystem), Strings.Less)
  {
    if names != [] {
      KeptTablesSorted(names[1..], includeSystem);
      var rest := KeptTables(names[1..], includeSystem);
      forall j | 0 <= j < |rest| ensures Strings.Less(names[0], rest[j]) {
        assert rest[j] in names[1..];
      }
    }
  }

  /** `list_tables`: the catalogue's table names in ascending order (the
      `ORDER BY name` of the query over `sqlite_master`, whose names are
      unique), skipping the system tables unless they are asked for. The
      columns and row count reported beside each name are not modelled. */
  method ListTables(catalog: seq<string>, includeSystem: bool) returns (result: seq<string>)
    ensures Ordering.StrictlySorted(result, Strings.Less)
    ensures forall t :: t in result <==> t in catalog && (includeSystem || !IsSystemTable(t))
  {
    Strings.LessIsStrictTotalOrder();
    var tableNames := Ordering.SortedKeys(catalog, Strings.Less);
    result := [];
    for i := 0 to |tableNames|
      invariant result == KeptTables(tableNames[..i], includeSystem)
    {
      var t := tableNames[i];
      assert tableNames[..i + 1] == tableNames[..i] + [t];
      KeptTablesAppend(tableNames[..i], t, includeSystem);
      if !includeSystem && IsSystemTable(t) {
        continue;
      }
      result := result + [t];
    }
    assert tableNames[..|tableNames|] == tableNames;
    KeptTablesSorted(tableNames, includeSystem);
  }

  lemma {:induction false} KeptTablesAppend(names: seq<string>, t: string, includeSystem: bool)
    ensures KeptTables(names + [t], includeSystem) ==
      KeptTables(names, includeSystem) + (if !includeSystem && IsSystemTable(t) then [] else [t])
  {
    if names == [] {
      assert names + [t] == [t];
    } else {
      assert (names + [t])[1..] == names[1..] + [t];
      KeptTablesAppend(names[1..], t, includeSystem);
    }
  }

  // ---------------------------------------------------------------------
  // Migration: _ensure_internos_extra_columns
  // ---------------------------------------------------------------------

  /** The columns of `internos` after the migration: `causa` and then
      `condena_meses` are appended when the column list read at the start
      lacks them. */
  function WithExtraColumns(cols: seq<string>): (r: seq<string>)
    ensures "causa" in r && "condena_meses" in r
    ensures |cols| <= |r| && r[..|cols|] == cols
    ensures forall c :: c in r <==> c in cols || c == "causa" || c == "condena_meses"
  {
    cols + (if "causa" in cols then [] else ["causa"])
      + (if "condena_meses" in cols then [] else ["condena_meses"])
  }

  /** Running the migration again adds nothing. */
  lemma ExtraColumnsIdempotent(cols: seq<string>)
    ensures WithExtraColumns(WithExtraColumns(cols)) == WithExtraColumns(cols)
  {
  }

  /** The schema of `internos` as far as the migration sees it. */
  class InternosTable {
    var columns: seq<string>

    constructor (columns: seq<string>)
      ensures this.columns == columns
    {
      this.columns := columns;
    }

    /** `_ensure_internos_extra_columns`: one `ALTER TABLE ... ADD COLUMN` per
        missing column, both decided on the column list read first. */
    method EnsureExtraColumns()
      modifies this
      ensures columns == WithExtraColumns(old(columns))
      ensures "causa" in columns && "condena_meses" in columns
    {
      var cols := columns;
      if "causa" !in cols {
        columns := columns + ["causa"];
      }
      if "condena_meses" !in cols {
        columns := columns + ["condena_meses"];
      }
    }
  }

  // ---------------------------------------------------------------------
  // row_to_dict
  // ---------------------------------------------------------------------

  /** `row_to_dict`: `{k: row[k] for k in row.keys()}`. A lookup by name
      finds the first column of that name, so a repeated name maps to the
      value of its first occurrence. */
  function RowToDict<V>(keys: seq<string>, values: seq<V>): (r: map<string, V>)
    requires |keys| == |values|
    ensures forall k :: k in r <==> k in keys
    ensures forall i :: 0 <= i < |keys| && keys[i] !in keys[..i] ==> r[keys[i]] == values[i]
  {
    if keys == [] then map[]
    else
      var rest := RowToDict(keys[1..], values[1..]);
      assert forall i :: 1 <= i < |keys| && keys[i] !in keys[..i] ==> keys[1..][i - 1] !in keys[1..][..i - 1] by {
        forall i | 1 <= i < |keys| && keys[i] !in keys[..i] ensures keys[1..][i - 1] !in keys[1..][..i - 1] {
          assert keys[1..][..i - 1] == keys[1..i];
        }
      }
      rest[keys[0] := values[0]]
  }
}

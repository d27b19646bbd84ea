# Penitentiary API — occupancy statistics and inmate reports, in Dafny

This project models the core of a small prison-administration service built
on FastAPI and SQLite. The service keeps three tables:

- `celdas`: cells, each with a wing (`pabellon`), a number and a capacity;
- `agentes`: guards;
- `internos`: inmates, each with an admission day, a status (`Activo`, `Trasladado` or `Liberado`) and an optional cell.

The model covers the following.

- **The schema** (`db.py`): the tables as Dafny datatypes. Their CHECK, UNIQUE and FOREIGN KEY constraints become predicates, gathered in `Schema.WellFormed`. Three helpers are modelled too:
  - the table introspection loop of `list_tables`;
  - `_is_system_table`;
  - the idempotent column migration `_ensure_internos_extra_columns`.
- **The write handlers** (`app.py`): `crear_*`, `actualizar_*` and `eliminar_*` are methods of a `Store` class whose fields are the three tables.
  - Each method states its error cases in the order each handler checks them, and exactly when it succeeds.
  - Each method states the exact new state.
  - Each method keeps `WellFormed`. That covers "every `celda_id` names a cell" and "only `Activo` inmates hold a cell".
  - No handler updates an inmate, so a stored inmate's status never changes (`Store.StatusesKept`).
- **The read handlers**: the `listar_*` listings are specified as a sorted permutation of the matching rows. The `obtener_*` lookups return 404 when the id is absent.
- **`get_stats`**, which computes:
  - the date window;
  - the totals;
  - capacity, occupied beds and the occupancy ratio;
  - the admissions inside the window;
  - the per-wing breakdown, modelled literally as `celdas LEFT JOIN internos` grouped by wing;
  - the status histogram, as a Python dict built from the GROUP BY rows;
  - the ten most recent admissions.
- **`reporte_internos`**, which:
  - resolves the same window;
  - builds the WHERE clause and its `?` parameters one optional filter at a time;
  - selects and orders the rows;
  - returns either the rows (json) or a CSV table with a nine-column header and a date-stamped file name (csv).

Dates are day numbers in the style of Python's `date.toordinal()`, where 1 is 0001-01-01 and 3652059 is 9999-12-31. `Dates.IsoFormat` and `Dates.ParseIso` convert between a day number and its `YYYY-MM-DD` text, and they round-trip. With day numbers, `date(x) BETWEEN date(?) AND date(?)` is an integer comparison and `timedelta(days=30)` is a subtraction. `date.today()` is passed in as a parameter named `today`.

Errors are `Common.HttpError`:

- `BadRequest` (400);
- `NotFound` (404);
- `Conflict` (409): a UNIQUE violation caught as `IntegrityError`;
- `InternalError` (500): Python's `OverflowError` when the default `desde` would fall before 0001-01-01.

Text comparison in ORDER BY and GROUP BY is SQLite's BINARY collation, i.e. lexicographic order on characters (`Strings.Less`).

### What the per-wing query counts

- The per-wing `capacidad` is `SUM(c.capacidad)` over the rows of `celdas LEFT JOIN internos`. A cell therefore counts its capacity once for each inmate assigned to it, or once if it has none (`Wings.WingRowMeaning`).
  - For a wing with cells of capacity 4 and 2 holding three inmates, the query reports a capacity between 8 and 14: 8 for a 1/2 split, 10 for a 2/1 or 0/3 split, 14 for a 3/0 split. It never reports the 6 beds the wing has.
  - The model follows the query.
- Nothing checks a cell's capacity when an inmate is assigned to it. The facility-wide ratio can therefore exceed 1; `Capacity.OverbookedCell` exhibits a well-formed store whose ratio is 2.
- The window code of `get_stats` and of `reporte_internos` is the same, so both are modelled by the single function `DateWindow.Resolve`.

## Model

| member | source | states |
|---|---|---|
| Dates.IsoFormat | app.py:429 | the stored admission text is 10 characters, `-` at positions 4 and 7, digits elsewhere |
| Dates.IsoRoundTrip | app.py:584 | the ISO text of a day parses back to the same day, so `date(?)` on `desde.isoformat()` yields `desde` |
| Dates.IsoInjective | app.py:697 | different days have different ISO texts |
| Strings.LessIsStrictTotalOrder | db.py:80 | BINARY text order is irreflexive, transitive and total, so ORDER BY name gives one order |
| Schema.StatusName | db.py:44 | the stored status text is never empty and never "Desconocido" |
| Schema.StatusNameRoundTrip | app.py:53 | each status is read back from its stored text |
| Schema.StatusNameInjective | db.py:44 | different statuses are stored as different texts |
| Schema.ClearCellRefs | db.py:48 | ON DELETE SET NULL clears exactly the references to the deleted cell and keeps every other row |
| Schema.DeleteCellCascadeKeepsWellFormed | db.py:48 | deleting any cell with the cascade keeps all constraints, leaving no dangling `celda_id` |
| Schema.ClearUnreferencedIsIdentity | app.py:263-265 | after the 409 guard the cascade changes no inmate |
| Schema.SystemTableIffSqlitePrefix | db.py:69-72 | a table is a system table exactly when its name starts with `sqlite_` |
| Schema.KeptTables | db.py:84-87 | a table is kept exactly when it is in the catalogue and system tables are included or it is not one |
| Schema.KeptTablesSorted | db.py:79-87 | skipping tables keeps the names strictly ascending |
| Schema.ListTables | db.py:74-109 | the result is strictly ascending (one entry per table) and holds exactly the kept tables |
| Schema.WithExtraColumns | db.py:53-60 | afterwards `causa` and `condena_meses` are columns, the old columns stay first, and nothing else is added |
| Schema.ExtraColumnsIdempotent | db.py:54 | a second migration adds nothing |
| Schema.InternosTable.EnsureExtraColumns | db.py:53-60 | the table's new column list is the migrated one and holds both columns |
| Schema.RowToDict | db.py:111-112 | the dict's keys are the row's columns and each column maps to its value (first occurrence) |
| Store.NewRowId | app.py:214-218 | the new rowid exceeds every id in the table and is 1 in an empty table |
| Store.Store.CreateCell | app.py:188-219 | 409 exactly when (pabellon, numero) is taken, store unchanged; else the cell is appended with a fresh id; WellFormed kept |
| Store.Store.UpdateCell | app.py:247-259 | 404 when absent, then 409 when another cell holds the place; it succeeds exactly when neither applies, and then only that row changes and keeps its id |
| Store.Store.FindCell | app.py:394-395 | no position exactly when no cell has the id; a position found holds the id |
| Store.Store.DeleteCell | app.py:261-270 | 409 when referenced (checked first), 404 when absent; it succeeds exactly when neither applies, and then exactly that cell is removed and no cell has the id |
| Store.Store.CreateAgent | app.py:275-310 | 409 exactly when the legajo is taken; else the agent is appended with a fresh id |
| Store.Store.UpdateAgent | app.py:362-381 | 404 when absent, then 409 when another agent holds the legajo; it succeeds exactly when neither applies, and then only that row changes |
| Store.Store.DeleteAgent | app.py:383-389 | 404 exactly when absent; else exactly that agent is removed |
| Store.Store.CreateInmate | app.py:399-444 | 400 for a non-Activo inmate with a cell before 404 for a missing cell, then 409 for a taken dni; success iff none applies; the appended row copies the payload; WellFormed and stored statuses kept |
| Store.AddInmateKeepsWellFormed | app.py:421-437 | appending an inmate with a new id, a free dni and an existing cell held only while Activo keeps every constraint and every stored status |
| Store.Store.DeleteInmate | app.py:523-529 | 404 exactly when absent; else exactly that inmate is removed; the others keep their status |
| Store.RemoveInmateKeepsWellFormed | app.py:523-529 | removing any inmate keeps every constraint, keeps the other statuses and leaves no inmate with that id |
| Queries.ListCells | app.py:222-238 | the result is ordered by (pabellon, numero) and holds each matching cell as often as the table does, others not at all |
| Queries.ListCellsDeterministic | app.py:236 | with unique (pabellon, numero) any ordered arrangement of the matching cells is the listing |
| Queries.GetCell | app.py:240-245 | 404 exactly when no cell has the id; else a cell of the table with that id |
| Queries.GetCellUnique | app.py:242 | with unique ids the lookup returns the one cell with that id |
| Queries.AssignedCell | app.py:662 | the LEFT JOIN finds a cell exactly when `celda_id` is set and names a cell, and it is that cell |
| Queries.ListAgents | app.py:314-346 | ordered by (apellido, nombre); each matching agent as often as stored, others not at all; `activo=False` filters too |
| Queries.ActiveFilterSplits | app.py:340-342 | every agent is listed by exactly one of `activo=True` and `activo=False` |
| Common.GetById | app.py:351-488 | `obtener_agente` (app.py:351-360) and `obtener_interno` (app.py:479-488): 404 exactly when no row has the id; else a row of the table with that id |
| Queries.ListInmates | app.py:446-474 | ordered by (apellido, nombre); each matching inmate as often as stored; NULL dni and causa never match |
| Queries.CellListingIsActive | app.py:416-419 | in a well-formed store, listing a cell's inmates lists only Activo inmates |
| Common.GetByIdUnique | app.py:481-484 | when ids are unique the lookup by id returns the one row with that id |
| DateWindow.Resolve | app.py:543-548 | hasta defaults to today, desde to hasta − 30; 500 exactly when that default falls before 0001-01-01; desde > hasta is 400 (iff); a result is a valid window |
| DateWindow.DefaultWindow | app.py:544-547 | with no parameters the window is the 31 days ending today |
| DateWindow.SameDayAccepted | app.py:547-548 | desde == hasta is accepted as a one-day window |
| DateWindow.ReversedRejected | app.py:653-654 | desde after hasta is rejected with code 400 |
| DateWindow.DefaultNeverReversed | app.py:650-652 | a missing desde never causes the 400 |
| Capacity.TotalCapacity | app.py:566-567 | with capacities in 1..12, the total lies between the number of cells and 12 times it, and is 0 iff there are no cells |
| Capacity.OccupiedBeds | app.py:569-574 | at most the number of inmates; 0 iff no inmate is Activo with a cell; all iff every one is |
| Capacity.Occupancy | app.py:576 | 0 when capacity is 0; otherwise ratio × capacity = occupied, and ratio ≤ 1 iff occupied ≤ capacity |
| Capacity.Admissions | app.py:579-584 | at most the number of inmates; 0 iff no admission day lies in the window, both ends included |
| Capacity.AdmissionsMonotone | app.py:582 | a wider window counts at least as many admissions |
| Capacity.AdmissionsSplit | app.py:582 | splitting a window at a day splits its count with nothing lost or counted twice |
| Capacity.OverbookedCell | app.py:416-437 | a well-formed store with a one-bed cell holding two Activo inmates reports ratio 2 |
| Wings.Occupants | app.py:597 | each inmate of the cell appears as often as in the table, no other inmate appears |
| Wings.CellRows | app.py:596-597 | a cell contributes at least one joined row, each carrying its wing and capacity |
| Wings.JoinWings | app.py:596-597 | the wings of the joined rows are exactly the wings of the cells |
| Wings.GroupKeys | app.py:598-599 | the groups are the distinct wings of the rows, strictly ascending |
| Wings.Aggregate | app.py:588-595 | one row per group with the group's SUM(capacidad) and count of Activo rows |
| Wings.WingQuery | app.py:587-600 | one row per wing that has a cell, strictly ascending by wing, no other wing |
| Wings.CollectWingStats | app.py:601-606 | one stat per grouped row, in order, copying its figures and adding the ratio (0 when capacity is 0) |
| Wings.WingRowMeaning | app.py:587-600 | capacidad = Σ over the wing's cells of capacity × max(1, occupants); ocupados = Activo inmates in the wing; ocupados ≤ capacidad |
| Wings.JoinWithinCapacity | app.py:588-597 | with capacities ≥ 1 a wing's Activo count never exceeds its joined capacity |
| Wings.WingsSumToOccupiedBeds | app.py:569-600 | when every `celda_id` names a cell the per-wing ocupados add up to camas_ocupadas |
| Histogram.Label | app.py:610 | the key is the status text, or "Desconocido" exactly for NULL, empty or literal "Desconocido" |
| Histogram.Assign | app.py:610 | a dict store sets that key's value, leaves other keys alone, and appends a new key last |
| Histogram.EstadosSumToTotal | app.py:609-610 | when no two statuses share a label the counts sum to the number of rows |
| Histogram.NullIsUnknown | app.py:610 | a NULL status is counted under "Desconocido", with its own count when labels are distinct |
| Histogram.StoreEstadosSum | app.py:553-554 | for the stored column the histogram sums to total_internos |
| Histogram.StoreEstadosNoUnknown | db.py:44 | for the stored column "Desconocido" never appears |
| Histogram.StoreEstadosCount | app.py:609-610 | each status maps to the number of inmates that have it, and an absent status has no key |
| Recent.ToRecent | app.py:614-626 | the entry copies id, names and day; wing and cell number are NULL together, exactly when no cell joins |
| Recent.Ultimos | app.py:613-619 | min(10, n) entries, ordered by day desc then id desc, taken from the join, none left out sorts before one kept |
| Recent.RecentOrderDeterministic | app.py:617 | with unique ids the ORDER BY fixes the whole order of the join |
| Recent.UltimosDeterministic | app.py:617 | with unique ids the first ten of any ordered arrangement of the join are the result |
| Recent.UltimosNullIffUnassigned | app.py:620-626 | when references resolve, wing and cell are NULL exactly when the inmate has no cell |
| Report.ToReportRow | app.py:657-662 | the row copies the inmate's columns; wing and number are NULL together, exactly when no cell joins |
| Report.HoldsAppend | app.py:667-672 | appending `AND <condition>` with its parameters conjoins that condition |
| Report.WindowClause | app.py:663-665 | the BETWEEN on the two ISO parameters selects exactly the days in the window |
| Report.EstadoClause | app.py:667-669 | `AND i.estado = ?` bound to the status text keeps exactly that status |
| Report.PabellonClause | app.py:670-672 | `AND c.pabellon = ?` keeps exactly rows joined to a cell of that wing |
| Report.BuildReportQuery | app.py:656-672 | the WHERE starts with the window BETWEEN on the ISO days and selects exactly the rows InReport admits |
| Report.Selected | app.py:657-672 | each joined row InReport admits appears as often as in the join, others not at all |
| Report.SelectWhereIsSelected | app.py:676 | running the built query selects the same rows as the filters |
| Report.ReportRows | app.py:656-677 | ordered by day desc, apellido, nombre, id desc; exactly the admitted joined rows; every row is in the window |
| Report.ReportTieSameId | app.py:674 | two rows that tie under the ORDER BY have the same id |
| Report.ReportRowsDeterministic | app.py:674 | with unique ids any ordered arrangement of the admitted rows is the report |
| Report.UnfilteredReportCountsAdmissions | app.py:656-665 | with no status or wing filter the report has nuevos_periodo rows for the same window |
| Report.WingFilterDropsUnassigned | app.py:670-672 | under a wing filter every row has a cell, in that wing |
| Report.HeaderRecord | app.py:684-687 | the header is the nine fixed column names in order |
| Report.Record | app.py:691-694 | a record has one field per header column |
| Report.RecordRoundTrip | app.py:691-694 | every record reads back as the row it was written from |
| Report.WriteCsv | app.py:684-695 | the header, then one record per row in order (header only when empty), each reading back as its row |
| Report.Filename | app.py:697 | the name is 42 characters, starts `reporte_internos_` and ends `.csv` |
| Report.FilenameRoundTrip | app.py:697 | the window can be read back from the file name |
| Report.ReporteInternos | app.py:639-703 | window errors pass through; json is the report rows; csv is the report as a table under its file name |
| Stats.WingOcupadosIsTotal | app.py:601-606 | the loop keeps the grouped ocupados, so their sums agree |
| Stats.GetStats | app.py:536-635 | window errors pass through; each field is its query's value; occupied, admissions ≤ total; the histogram sums to the total; the wings sum to the beds when references resolve |

## Left out

- HTTP transport: FastAPI routing, `Depends`, the response classes, and the `/health` and `/` endpoints. Errors are the `HttpError` values and their codes.
- `get_db` and the connection's PRAGMAs and `busy_timeout`, `init_db`, and the `/db/health`, `/db/init`, `/db/tables` and `/db/indexes` endpoints: database I/O with no derived semantics.
- Request validation by pydantic: string lengths, whitespace stripping and the dni pattern, which answer 422 before a handler runs. They are preconditions (`ValidCellIn`, `ValidInmateIn`) or types (`Rank`, `Status`). A CHECK violation therefore never reaches an INSERT, and only UNIQUE violations give 409.
- Capacity.Occupancy: the ratio is the exact fraction; the `round(x, 3)` to a binary float is not modelled.
- Report.WriteCsv: records are sequences of typed fields; CSV quoting, line terminators, bytes and JSON encoding are not modelled.
- `list_tables`: the per-table columns (`PRAGMA table_info`) and the row count with its `OperationalError` fallback. Only the selection and order of the names are modelled.
- Schema.RowToDict: column names are compared exactly; the case-insensitive lookup of `sqlite3.Row` is not modelled.
- `ON UPDATE CASCADE`: no handler changes a cell's id.
- 64-bit rowid limits: ids are unbounded integers.
- SQLite's `date()` on stored text that is not an ISO date. Stored admission days come from `date.isoformat()`, so they are always ISO.
- The second registration of `crear_celda` at app.py:490-521 is identical to app.py:188-219 and is modelled once as `Store.Store.CreateCell`.
- The `cap or 0` and `occ or 0` branches of the per-wing loop: a group always has at least one row, so neither sum is NULL.
- The `try/except` around the agent count becomes an `Option` table that counts as 0 when absent.
- Listings whose ORDER BY keys can tie (agents and inmates by surname and name) are specified as any sorted permutation. SQLite's choice among tied rows is not modelled.

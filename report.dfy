/** `reporte_internos` (app.py:639-703): the inmates admitted in the window,
    joined to their cell, optionally filtered by status and by wing, ordered
    by admission day descending, surname, name and id descending, and
    returned either as the list of rows (json) or as a CSV table with a
    fixed header and a date-stamped file name. */
module Report {
  import opened Common
  import opened Schema
  import opened Ordering
  import opened DateWindow
  import Dates
  import Strings
  import Queries
  import Capacity

  /** A row of the report query. */
  datatype ReportRow = ReportRow(
    id: int,
    dni: Option<string>,
    nombre: string,
    apellido: string,
    fechaIngreso: int,
    estado: Status,
    celdaId: Option<int>,
    pabellon: Option<string>,
    numero: Option<string>)

  /** One row of `internos i LEFT JOIN celdas c ON c.id = i.celda_id`. */
  function ToReportRow(cells: seq<Cell>, i: Inmate): (r: ReportRow)
    ensures r.id == i.id && r.dni == i.dni && r.nombre == i.nombre && r.apellido == i.apellido
    ensures r.fechaIngreso == i.fechaIngreso && r.estado == i.estado && r.celdaId == i.celdaId
    ensures r.pabellon.None? <==> r.numero.None?
    ensures r.pabellon.None? <==> !(i.celdaId.Some? && HasCell(cells, i.celdaId.value))
  {
    var c := Queries.AssignedCell(cells, i);
    ReportRow(i.id, i.dni, i.nombre, i.apellido, i.fechaIngreso, i.estado, i.celdaId,
              if c.Some? then Some(c.value.pabellon) else None,
              if c.Some? then Some(c.value.numero) else None)
  }

  function JoinRows(cells: seq<Cell>, inmates: seq<Inmate>): (r: seq<ReportRow>)
    ensures |r| == |inmates| && forall k :: 0 <= k < |r| ==> r[k] == ToReportRow(cells, inmates[k])
  {
    seq(|inmates|, k requires 0 <= k < |inmates| => ToReportRow(cells, inmates[k]))
  }

  /** The WHERE of the report: inside the window, of the given status, and,
      when a wing is given, in a cell of that wing (`c.pabellon = ?` is never
      true on the NULL of an unassigned inmate). */
  predicate InReport(row: ReportRow, w: Window, estado: Option<Status>, pabellon: Option<string>)
  {
    && Contains(w, row.fechaIngreso)
    && (estado.Some? ==> row.estado == estado.value)
    && (Given(pabellon) ==> row.pabellon == Some(pabellon.value))
  }

  // ------------------------------------------------------ the query text

  /** The conditions the handler appends to the WHERE. */
  datatype Clause = FechaBetween | EstadoIs | PabellonIs

  /** The number of `?` parameters a condition takes. */
  function Arity(c: Clause): nat
  {
    if c == FechaBetween then 2 else 1
  }

  function Arities(cs: seq<Clause>): nat
  {
    if cs == [] then 0 else Arity(cs[0]) + Arities(cs[1..])
  }

  /** One condition against a row, with its parameters as the texts bound to
      its `?`s. `date(?)` reads an ISO date; a text that is not one is NULL
      and the BETWEEN fails. */
  predicate HoldsOne(c: Clause, ps: seq<string>, row: ReportRow)
    requires |ps| == Arity(c)
  {
    match c
    case FechaBetween =>
      Dates.ParseIso(ps[0]).Some? && Dates.ParseIso(ps[1]).Some? &&
      Dates.ParseIso(ps[0]).value <= row.fechaIngreso <= Dates.ParseIso(ps[1]).value
    case EstadoIs => StatusName(row.estado) == ps[0]
    case PabellonIs => row.pabellon == Some(ps[0])
  }

  /** The conditions joined by AND, each taking its parameters in order. */
  predicate Holds(cs: seq<Clause>, ps: seq<string>, row: ReportRow)
    requires |ps| == Arities(cs)
  {
    if cs == [] then true
    else HoldsOne(cs[0], ps[..Arity(cs[0])], row) && Holds(cs[1..], ps[Arity(cs[0])..], row)
  }

  lemma {:induction false} AritiesAppend(cs: seq<Clause>, c: Clause)
    ensures Arities(cs + [c]) == Arities(cs) + Arity(c)
  {
    if cs != [] {
      assert (cs + [c])[1..] == cs[1..] + [c];
      AritiesAppend(cs[1..], c);
    } else {
      assert cs + [c] == [c];
    }
  }

  /** Appending `AND <c>` with its parameters conjoins `c`. */
  lemma {:induction false} HoldsAppend(cs: seq<Clause>, ps: seq<string>, c: Clause, qs: seq<string>, row: ReportRow)
    requires |ps| == Arities(cs) && |qs| == Arity(c)
    ensures |ps + qs| == Arities(cs + [c])
    ensures Holds(cs + [c], ps + qs, row) <==> Holds(cs, ps, row) && HoldsOne(c, qs, row)
  {
    AritiesAppend(cs, c);
    if cs == [] {
      assert cs + [c] == [c];
      assert (ps + qs)[..Arity(c)] == qs;
    } else {
      var n := Arity(cs[0]);
      assert (cs + [c])[1..] == cs[1..] + [c];
      assert (ps + qs)[..n] == ps[..n];
      assert (ps + qs)[n..] == ps[n..] + qs;
      HoldsAppend(cs[1..], ps[n..], c, qs, row);
    }
  }

  /** The query text `cs` with parameters `ps` selects exactly the rows
      `InReport` admits for these filters. */
  ghost predicate Selects(cs: seq<Clause>, ps: seq<string>, w: Window, estado: Option<Status>, pabellon: Option<string>)
  {
    |ps| == Arities(cs) && forall row :: Holds(cs, ps, row) <==> InReport(row, w, estado, pabellon)
  }

  /** The window condition alone selects the rows inside the window. */
  lemma WindowClause(w: Window)
    requires ValidWindow(w)
    ensures Selects([FechaBetween], [Dates.IsoFormat(w.desde), Dates.IsoFormat(w.hasta)], w, None, None)
  {
    Dates.IsoRoundTrip(w.desde);
    Dates.IsoRoundTrip(w.hasta);
    var ps := [Dates.IsoFormat(w.desde), Dates.IsoFormat(w.hasta)];
    assert ps[..2] == ps && ps[2..] == [];
  }

  /** `AND i.estado = ?` bound to the status name keeps the rows of that
      status. */
  lemma EstadoClause(cs: seq<Clause>, ps: seq<string>, w: Window, e: Status)
    requires Selects(cs, ps, w, None, None)
    ensures Selects(cs + [EstadoIs], ps + [StatusName(e)], w, Some(e), None)
  {
    AritiesAppend(cs, EstadoIs);
    forall row ensures Holds(cs + [EstadoIs], ps + [StatusName(e)], row) <==> InReport(row, w, Some(e), None) {
      HoldsAppend(cs, ps, EstadoIs, [StatusName(e)], row);
      if StatusName(row.estado) == StatusName(e) {
        StatusNameInjective(row.estado, e);
      }
    }
  }

  /** `AND c.pabellon = ?` keeps the rows joined to a cell of that wing. */
  lemma PabellonClause(cs: seq<Clause>, ps: seq<string>, w: Window, e: Option<Status>, p: string)
    requires Selects(cs, ps, w, e, None) && p != ""
    ensures Selects(cs + [PabellonIs], ps + [p], w, e, Some(p))
  {
    AritiesAppend(cs, PabellonIs);
    forall row ensures Holds(cs + [PabellonIs], ps + [p], row) <==> InReport(row, w, e, Some(p)) {
      HoldsAppend(cs, ps, PabellonIs, [p], row);
    }
  }

  /** Builds the WHERE and its parameters as the handler does, one optional
      condition at a time; the query selects exactly the rows `InReport`
      admits. */
  method BuildReportQuery(w: Window, estado: Option<Status>, pabellon: Option<string>)
    returns (clauses: seq<Clause>, params: seq<string>)
    requires ValidWindow(w)
    ensures |clauses| >= 1 && clauses[0] == FechaBetween
    ensures |params| >= 2 && params[..2] == [Dates.IsoFormat(w.desde), Dates.IsoFormat(w.hasta)]
    ensures Selects(clauses, params, w, estado, pabellon)
  {
    clauses := [FechaBetween];
    params := [Dates.IsoFormat(w.desde), Dates.IsoFormat(w.hasta)];
    WindowClause(w);
    if estado.Some? {
      EstadoClause(clauses, params, w, estado.value);
      clauses := clauses + [EstadoIs];
      params := params + [StatusName(estado.value)];
    }
    assert Selects(clauses, params, w, estado, None);
    if Given(pabellon) {
      PabellonClause(clauses, params, w, estado, pabellon.value);
      clauses := clauses + [PabellonIs];
      params := params + [pabellon.value];
    }
  }

  // ------------------------------------------------------ the selection

  /** The joined rows that satisfy the built WHERE, in table order. */
  function SelectWhere(cells: seq<Cell>, inmates: seq<Inmate>, cs: seq<Clause>, ps: seq<string>): seq<ReportRow>
    requires |ps| == Arities(cs)
  {
    if inmates == [] then []
    else
      var row := ToReportRow(cells, inmates[0]);
      (if Holds(cs, ps, row) then [row] else []) + SelectWhere(cells, inmates[1..], cs, ps)
  }

  /** The joined rows that `InReport` admits, in table order. */
  function Selected(cells: seq<Cell>, inmates: seq<Inmate>, w: Window, estado: Option<Status>, pabellon: Option<string>)
    : (r: seq<ReportRow>)
    ensures forall x :: multiset(r)[x] == if InReport(x, w, estado, pabellon) then multiset(JoinRows(cells, inmates))[x] else 0
  {
    if inmates == [] then []
    else
      var row := ToReportRow(cells, inmates[0]);
      assert JoinRows(cells, inmates) == [row] + JoinRows(cells, inmates[1..]);
      (if InReport(row, w, estado, pabellon) then [row] else []) + Selected(cells, inmates[1..], w, estado, pabellon)
  }

  lemma {:induction false} SelectWhereIsSelected(cells: seq<Cell>, inmates: seq<Inmate>, cs: seq<Clause>, ps: seq<string>,
                                                 w: Window, estado: Option<Status>, pabellon: Option<string>)
    requires Selects(cs, ps, w, estado, pabellon)
    ensures SelectWhere(cells, inmates, cs, ps) == Selected(cells, inmates, w, estado, pabellon)
  {
    if inmates != [] {
      SelectWhereIsSelected(cells, inmates[1..], cs, ps, w, estado, pabellon);
    }
  }

  /** `ORDER BY date(i.fecha_ingreso) DESC, i.apellido, i.nombre, i.id DESC` */
  predicate ReportLe(a: ReportRow, b: ReportRow)
  {
    || a.fechaIngreso > b.fechaIngreso
    || (a.fechaIngreso == b.fechaIngreso &&
        (|| Strings.Less(a.apellido, b.apellido)
         || (a.apellido == b.apellido &&
             (Strings.Less(a.nombre, b.nombre) || (a.nombre == b.nombre && a.id >= b.id)))))
  }

  lemma ReportLeTotalPreorder()
    ensures TotalPreorder(ReportLe)
  {
    Strings.LessIsStrictTotalOrder();
  }

  /** The rows of the report: every row of the join that `InReport` admits,
      once, in report order. */
  function ReportRows(cells: seq<Cell>, inmates: seq<Inmate>, w: Window, estado: Option<Status>, pabellon: Option<string>)
    : (r: seq<ReportRow>)
    ensures Sorted(r, ReportLe)
    ensures forall x :: multiset(r)[x] == if InReport(x, w, estado, pabellon) then multiset(JoinRows(cells, inmates))[x] else 0
    ensures forall k :: 0 <= k < |r| ==> InReport(r[k], w, estado, pabellon)
  {
    ReportLeTotalPreorder();
    var r := SortBy(Selected(cells, inmates, w, estado, pabellon), ReportLe);
    forall k | 0 <= k < |r| ensures InReport(r[k], w, estado, pabellon) {
      assert r[k] in multiset(r);
    }
    r
  }

  /** Two rows that tie under the report order have the same id. */
  lemma ReportTieSameId(x: ReportRow, y: ReportRow)
    requires ReportLe(x, y) && ReportLe(y, x)
    ensures x.id == y.id
  {
    Strings.LessIsStrictTotalOrder();
  }

  /** Two joined rows with the same id are the same row. */
  lemma JoinedIdsUnique(cells: seq<Cell>, inmates: seq<Inmate>, x: ReportRow, y: ReportRow)
    requires InmatesUnique(inmates)
    requires x in JoinRows(cells, inmates) && y in JoinRows(cells, inmates) && x.id == y.id
    ensures x == y
  {
    var joined := JoinRows(cells, inmates);
    var a :| 0 <= a < |joined| && joined[a] == x;
    var b :| 0 <= b < |joined| && joined[b] == y;
    assert inmates[a].id == inmates[b].id;
  }

  /** Ids are a primary key, so the report order is total: any sorted
      arrangement of the admitted rows is the report. */
  lemma ReportRowsDeterministic(cells: seq<Cell>, inmates: seq<Inmate>, w: Window, estado: Option<Status>,
                                pabellon: Option<string>, other: seq<ReportRow>)
    requires InmatesUnique(inmates)
    requires Sorted(other, ReportLe)
    requires multiset(other) == multiset(ReportRows(cells, inmates, w, estado, pabellon))
    ensures other == ReportRows(cells, inmates, w, estado, pabellon)
  {
    var r := ReportRows(cells, inmates, w, estado, pabellon);
    forall x, y | x in r && y in r && ReportLe(x, y) && ReportLe(y, x) ensures x == y {
      assert x in multiset(r) && y in multiset(r);
      assert x in multiset(JoinRows(cells, inmates)) && y in multiset(JoinRows(cells, inmates));
      ReportTieSameId(x, y);
      JoinedIdsUnique(cells, inmates, x, y);
    }
    ReportLeTotalPreorder();
    SortedPermutationUnique(r, other, ReportLe);
  }

  lemma {:induction false} SelectedCountsAdmissions(cells: seq<Cell>, inmates: seq<Inmate>, w: Window)
    ensures |Selected(cells, inmates, w, None, None)| == Capacity.Admissions(inmates, w)
  {
    if inmates != [] {
      SelectedCountsAdmissions(cells, inmates[1..], w);
    }
  }

  /** Without status and wing filters the report has one row per admission
      that `nuevos_periodo` counts for the same window. */
  lemma UnfilteredReportCountsAdmissions(cells: seq<Cell>, inmates: seq<Inmate>, w: Window)
    ensures |ReportRows(cells, inmates, w, None, None)| == Capacity.Admissions(inmates, w)
  {
    var s := Selected(cells, inmates, w, None, None);
    var r := ReportRows(cells, inmates, w, None, None);
    assert multiset(r) == multiset(s);
    assert |r| == |multiset(r)| == |multiset(s)| == |s|;
    SelectedCountsAdmissions(cells, inmates, w);
  }

  /** The wing filter keeps only inmates that have a cell, in that wing. */
  lemma WingFilterDropsUnassigned(cells: seq<Cell>, inmates: seq<Inmate>, w: Window, estado: Option<Status>,
                                  pabellon: Option<string>, k: nat)
    requires Given(pabellon) && k < |ReportRows(cells, inmates, w, estado, pabellon)|
    ensures ReportRows(cells, inmates, w, estado, pabellon)[k].celdaId.Some?
    ensures ReportRows(cells, inmates, w, estado, pabellon)[k].pabellon == Some(pabellon.value)
  {
    var r := ReportRows(cells, inmates, w, estado, pabellon);
    var joined := JoinRows(cells, inmates);
    assert r[k] in multiset(r);
    assert r[k] in multiset(joined);
    var a :| 0 <= a < |joined| && joined[a] == r[k];
  }

  // ------------------------------------------------------------ the CSV

  /** A CSV cell as the writer receives it: an integer, a text, or None. */
  datatype Field = IntF(n: int) | TextF(t: string) | NullF

  const HEADER: seq<string> := ["id", "dni", "nombre", "apellido", "fecha_ingreso", "estado",
                                "celda_id", "pabellon", "celda_numero"]

  function HeaderRecord(): (f: seq<Field>)
    ensures |f| == |HEADER| && forall k :: 0 <= k < |f| ==> f[k] == TextF(HEADER[k])
  {
    seq(|HEADER|, k requires 0 <= k < |HEADER| => TextF(HEADER[k]))
  }

  function OptText(o: Option<string>): Field
  {
    if o.Some? then TextF(o.value) else NullF
  }

  function OptInt(o: Option<int>): Field
  {
    if o.Some? then IntF(o.value) else NullF
  }

  /** The record written for a row, column by column under `HEADER`; the
      admission day is written as its stored ISO text. */
  function Record(r: ReportRow): (f: seq<Field>)
    requires Dates.ValidDay(r.fechaIngreso)
    ensures |f| == |HEADER|
  {
    [IntF(r.id), OptText(r.dni), TextF(r.nombre), TextF(r.apellido), TextF(Dates.IsoFormat(r.fechaIngreso)),
     TextF(StatusName(r.estado)), OptInt(r.celdaId), OptText(r.pabellon), OptText(r.numero)]
  }

  function AsOptText(f: Field): Option<Option<string>>
  {
    match f
    case TextF(t) => Some(Some(t))
    case NullF => Some(None)
    case IntF(_) => None
  }

  function AsOptInt(f: Field): Option<Option<int>>
  {
    match f
    case IntF(n) => Some(Some(n))
    case NullF => Some(None)
    case TextF(_) => None
  }

  /** Reads a record back into a row; None for anything `Record` cannot
      produce. */
  function DecodeRecord(f: seq<Field>): Option<ReportRow>
  {
    if |f| != 9 || !f[0].IntF? || !f[2].TextF? || !f[3].TextF? || !f[4].TextF? || !f[5].TextF? then None
    else
      var dni := AsOptText(f[1]);
      var fecha := Dates.ParseIso(f[4].t);
      var estado := StatusFromName(f[5].t);
      var celda := AsOptInt(f[6]);
      var pabellon := AsOptText(f[7]);
      var numero := AsOptText(f[8]);
      if dni.None? || fecha.None? || estado.None? || celda.None? || pabellon.None? || numero.None? then None
      else Some(ReportRow(f[0].n, dni.value, f[2].t, f[3].t, fecha.value, estado.value, celda.value,
                          pabellon.value, numero.value))
  }

  /** Every record reads back as the row it was written from. */
  lemma RecordRoundTrip(r: ReportRow)
    requires Dates.ValidDay(r.fechaIngreso)
    ensures DecodeRecord(Record(r)) == Some(r)
  {
    Dates.IsoRoundTrip(r.fechaIngreso);
    StatusNameRoundTrip(r.estado);
    DecodeFields(r, Dates.IsoFormat(r.fechaIngreso), StatusName(r.estado));
  }

  /** Decoding reads each column back, given that the date and status texts
      parse to the row's values. */
  lemma DecodeFields(r: ReportRow, iso: string, name: string)
    requires Dates.ParseIso(iso) == Some(r.fechaIngreso) && StatusFromName(name) == Some(r.estado)
    ensures DecodeRecord([IntF(r.id), OptText(r.dni), TextF(r.nombre), TextF(r.apellido), TextF(iso),
                          TextF(name), OptInt(r.celdaId), OptText(r.pabellon), OptText(r.numero)]) == Some(r)
  {
  }

  /** A table whose records were written from `rows` reads back as `rows`. */
  lemma RecordsDecode(rows: seq<ReportRow>, table: seq<seq<Field>>)
    requires forall k :: 0 <= k < |rows| ==> Dates.ValidDay(rows[k].fechaIngreso)
    requires |table| == |rows| + 1 && forall k :: 0 <= k < |rows| ==> table[k + 1] == Record(rows[k])
    ensures forall k :: 0 <= k < |rows| ==> DecodeRecord(table[k + 1]) == Some(rows[k])
  {
    forall k | 0 <= k < |rows| ensures DecodeRecord(table[k + 1]) == Some(rows[k]) {
      RecordRoundTrip(rows[k]);
    }
  }

  /** The writer loop of app.py:684-695: the header, then one record per
      row in order; with no rows only the header is written. */
  method WriteCsv(rows: seq<ReportRow>) returns (table: seq<seq<Field>>)
    requires forall k :: 0 <= k < |rows| ==> Dates.ValidDay(rows[k].fechaIngreso)
    ensures |table| == |rows| + 1 && table[0] == HeaderRecord()
    ensures forall k :: 0 <= k < |rows| ==> table[k + 1] == Record(rows[k])
    ensures forall k :: 0 <= k < |rows| ==> DecodeRecord(table[k + 1]) == Some(rows[k])
  {
    var body: seq<seq<Field>> := [];
    for k := 0 to |rows|
      invariant |body| == k
      invariant forall j :: 0 <= j < k ==> body[j] == Record(rows[j])
    {
      body := body + [Record(rows[k])];
    }
    table := [HeaderRecord()] + body;
    RecordsDecode(rows, table);
  }

  // -------------------------------------------------------- the file name

  const FILE_PREFIX := "reporte_internos_"

  /** `reporte_internos_<desde>_<hasta>.csv` */
  function Filename(w: Window): (s: string)
    requires ValidWindow(w)
    ensures |s| == 42 && s[..17] == FILE_PREFIX && s[38..] == ".csv"
  {
    FILE_PREFIX + Dates.IsoFormat(w.desde) + "_" + Dates.IsoFormat(w.hasta) + ".csv"
  }

  /** Reads the window back out of a report file name. */
  function ParseFilename(s: string): Option<Window>
  {
    if |s| != 42 || s[..17] != FILE_PREFIX || s[27] != '_' || s[38..] != ".csv" then None
    else
      match (Dates.ParseIso(s[17..27]), Dates.ParseIso(s[28..38]))
      case (Some(a), Some(b)) => Some(Window(a, b))
      case _ => None
  }

  /** The file name records the window it was made for. */
  lemma FilenameRoundTrip(w: Window)
    requires ValidWindow(w)
    ensures ParseFilename(Filename(w)) == Some(w)
  {
    var s := Filename(w);
    assert s[17..27] == Dates.IsoFormat(w.desde);
    assert s[28..38] == Dates.IsoFormat(w.hasta);
    Dates.IsoRoundTrip(w.desde);
    Dates.IsoRoundTrip(w.hasta);
  }

  // ---------------------------------------------------------- the handler

  datatype Format = Csv | Json

  datatype Output = JsonRows(rows: seq<ReportRow>) | CsvFile(filename: string, table: seq<seq<Field>>)

  /** `reporte_internos`, with `date.today()` passed in as `today`. */
  method ReporteInternos(cells: seq<Cell>, inmates: seq<Inmate>, formato: Format, desde: Option<int>,
                         hasta: Option<int>, estado: Option<Status>, pabellon: Option<string>, today: int)
    returns (r: Result<Output>)
    requires Dates.ValidDay(today) && OptionalDay(desde) && OptionalDay(hasta)
    ensures Resolve(desde, hasta, today).Err? ==> r == Err(Resolve(desde, hasta, today).error)
    ensures Resolve(desde, hasta, today).Ok? ==> r.Ok?
    ensures Resolve(desde, hasta, today).Ok? && formato == Json ==>
              r.value == JsonRows(ReportRows(cells, inmates, Resolve(desde, hasta, today).value, estado, pabellon))
    ensures Resolve(desde, hasta, today).Ok? && formato == Csv ==>
              var w := Resolve(desde, hasta, today).value;
              var rows := ReportRows(cells, inmates, w, estado, pabellon);
              && r.value.CsvFile? && r.value.filename == Filename(w)
              && |r.value.table| == |rows| + 1 && r.value.table[0] == HeaderRecord()
              && forall k :: 0 <= k < |rows| ==> DecodeRecord(r.value.table[k + 1]) == Some(rows[k])
  {
    var window := Resolve(desde, hasta, today);
    if window.Err? {
      return Err(window.error);
    }
    var w := window.value;
    var clauses, params := BuildReportQuery(w, estado, pabellon);
    SelectWhereIsSelected(cells, inmates, clauses, params, w, estado, pabellon);
    ReportLeTotalPreorder();
    var rows := SortBy(SelectWhere(cells, inmates, clauses, params), ReportLe);
    assert rows == ReportRows(cells, inmates, w, estado, pabellon);
    if formato == Json {
      return Ok(JsonRows(rows));
    }
    var table := WriteCsv(rows);
    r := Ok(CsvFile(Filename(w), table));
  }
}

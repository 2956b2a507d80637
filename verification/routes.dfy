/** The request handlers of the server around the row transforms: the file
    name guard, the order of the checks, the status and message of each error
    reply, and which sheet is written where. The two directories are maps from
    file name to the rows of the file's first sheet; a handler does not change
    them but returns the write it asks for. */
module Routes {
  import opened Wrappers
  import JsText
  import opened Sheet
  import RowEngine
  import ColumnSummary
  import Points

  /** A directory: file name to the rows of the file's first sheet. */
  type Dir = map<string, seq<Row>>

  /** `uploadDir` (uploaded workbooks) or `dataDir` (projects). */
  datatype Place = Uploads | Data

  /** `xlsx.writeFile` of a one-sheet workbook. */
  datatype Write = Write(place: Place, name: string, rows: seq<Row>)

  /** The JSON answer of a handler. */
  datatype Reply =
    | Fail(status: nat, error: string)
    | PointList(points: seq<Points.Point>)
    | Done(message: string, file: string)
    | TplDone(message: string, updatedCount: nat)
    | Summary(column: string, summary: seq<ColumnSummary.Entry>)
    | Saved(message: string, output: string)

  const BadName: string := "Nombre de archivo inválido"
  const NoFile: string := "Archivo no encontrado"

  // ---------------------------------------------------------------------------
  // the file name guard
  // ---------------------------------------------------------------------------

  /** A path without its trailing `/` characters. */
  function DropTrailingSlashes(p: string): (r: string)
    ensures |r| <= |p| && r == p[..|r|]
    ensures r == [] || r[|r| - 1] != '/'
    ensures forall i :: |r| <= i < |p| ==> p[i] == '/'
  {
    if p != [] && p[|p| - 1] == '/' then DropTrailingSlashes(p[..|p| - 1]) else p
  }

  /** What follows the last `/` of a path. */
  function LastSegment(p: string): (r: string)
    ensures '/' !in r
    ensures |r| <= |p| && r == p[|p| - |r|..]
    ensures |r| < |p| ==> p[|p| - |r| - 1] == '/'
  {
    if p == [] || p[|p| - 1] == '/' then []
    else LastSegment(p[..|p| - 1]) + [p[|p| - 1]]
  }

  /** `path.basename` (POSIX): the last segment once trailing slashes are
      dropped. It holds no `/`, and a name that holds none is its own
      basename. */
  function Basename(p: string): (b: string)
    ensures '/' !in b
    ensures '/' !in p ==> b == p
  {
    LastSegment(DropTrailingSlashes(p))
  }

  predicate HasSheetSuffix(name: string) {
    JsText.EndsWith(name, ".xlsx") || JsText.EndsWith(name, ".xls")
  }

  /** The guard every handler applies to the `:filename` parameter: its
      basename, when that ends in `.xlsx` or `.xls`. An accepted name cannot
      leave the directory it is joined to. */
  function SafeName(raw: string): (safe: Option<string>)
    ensures safe.Some? <==> HasSheetSuffix(Basename(raw))
    ensures safe.Some? ==> safe.value == Basename(raw)
    ensures safe.Some? ==> '/' !in safe.value && safe.value != "." && safe.value != ".."
  {
    var b := Basename(raw);
    if HasSheetSuffix(b) then Some(b) else None
  }

  /** A name without `/` that ends in `.xlsx` or `.xls` passes the guard
      unchanged; so the guard is idempotent. */
  lemma SafeNameAccepts(name: string)
    requires '/' !in name && HasSheetSuffix(name)
    ensures SafeName(name) == Some(name)
  {
  }

  lemma SafeNameIdempotent(raw: string)
    requires SafeName(raw).Some?
    ensures SafeName(SafeName(raw).value) == SafeName(raw)
  {
    SafeNameAccepts(SafeName(raw).value);
  }

  /** A file the guard accepts and the directory holds. */
  datatype Opened = Rejected(reply: Reply) | Open(name: string, rows: seq<Row>)

  /** The guard, then `fs.existsSync`: a 400 for a bad name, a 404 for a
      missing file, else the file's rows. */
  function OpenSheet(dir: Dir, raw: string): (o: Opened)
    ensures SafeName(raw).None? ==> o == Rejected(Fail(400, BadName))
    ensures SafeName(raw).Some? && SafeName(raw).value !in dir ==> o == Rejected(Fail(404, NoFile))
    ensures SafeName(raw).Some? && SafeName(raw).value in dir ==>
              o == Open(SafeName(raw).value, dir[SafeName(raw).value])
    ensures o.Open? ==> '/' !in o.name && HasSheetSuffix(o.name)
  {
    match SafeName(raw)
    case None => Rejected(Fail(400, BadName))
    case Some(safe) => if safe in dir then Open(safe, dir[safe]) else Rejected(Fail(404, NoFile))
  }

  // ---------------------------------------------------------------------------
  // GET /projects/:filename/points
  // ---------------------------------------------------------------------------

  /** The points of a project in `dataDir`. `keyOrder` gives a row's keys in
      column order (what `Object.keys` lists); `parseDate` is `Date.parse`. */
  function PointsRoute(data: Dir, raw: string, keyOrder: Row -> seq<string>, parseDate: string -> Option<int>)
    : (reply: Reply)
    requires forall r: Row :: (set k | k in keyOrder(r)) == r.Keys
    ensures OpenSheet(data, raw).Rejected? ==> reply == OpenSheet(data, raw).reply
    ensures OpenSheet(data, raw).Open? ==>
              var rows := OpenSheet(data, raw).rows;
              && reply.PointList? && |reply.points| == |rows|
              && forall i :: 0 <= i < |rows| ==>
                   reply.points[i] == Points.PointOf(rows[i], Points.PickColorColumn(keyOrder(rows[0])), parseDate)
    ensures OpenSheet(data, raw).Open? && OpenSheet(data, raw).rows != [] ==>
              var first := OpenSheet(data, raw).rows[0];
              var pick := Points.PickColorColumn(keyOrder(first));
              pick.Some? ==> pick.value in first
  {
    match OpenSheet(data, raw)
    case Rejected(r) => r
    case Open(_, rows) =>
      PointList(Points.PointsOf(rows, if rows == [] then [] else keyOrder(rows[0]), parseDate))
  }

  // ---------------------------------------------------------------------------
  // POST /projects/:filename/ensure-columns
  // ---------------------------------------------------------------------------

  /** Adds the four status columns to a project and writes it back. */
  function EnsureColumnsRoute(data: Dir, raw: string): (out: (Reply, Option<Write>))
    ensures OpenSheet(data, raw).Rejected? ==> out == (OpenSheet(data, raw).reply, None)
    ensures OpenSheet(data, raw).Open? ==>
              var name := OpenSheet(data, raw).name;
              out == (Done("Columnas aseguradas", name),
                      Some(Write(Data, name, RowEngine.EnsureColumns(OpenSheet(data, raw).rows))))
  {
    match OpenSheet(data, raw)
    case Rejected(r) => (r, None)
    case Open(name, rows) => (Done("Columnas aseguradas", name), Some(Write(Data, name, RowEngine.EnsureColumns(rows))))
  }

  // ---------------------------------------------------------------------------
  // POST /projects/:filename/update-record
  // ---------------------------------------------------------------------------

  /** Updates the status columns of the rows of one work order. A missing id
      is a 400 before the file name is looked at; when no row has the id the
      answer is a 404 and nothing is written. */
  method UpdateRecordRoute(data: Dir, raw: string, idOrdenTrabajo: Option<Value>,
                           description: Option<Value>, estadoOts: Option<Value>, color: Option<Value>)
    returns (reply: Reply, write: Option<Write>)
    ensures !Truthy(idOrdenTrabajo) ==> reply == Fail(400, "idOrdenTrabajo es requerido") && write.None?
    ensures Truthy(idOrdenTrabajo) && OpenSheet(data, raw).Rejected? ==>
              reply == OpenSheet(data, raw).reply && write.None?
    ensures Truthy(idOrdenTrabajo) && OpenSheet(data, raw).Open? ==>
              var o := OpenSheet(data, raw);
              if exists i :: 0 <= i < |o.rows| && RowEngine.IdMatches(o.rows[i], idOrdenTrabajo.value)
              then reply == Done("Registro actualizado", o.name) && write.Some?
                   && write.value.place == Data && write.value.name == o.name
                   && |write.value.rows| == |o.rows|
                   && forall i :: 0 <= i < |o.rows| ==>
                        write.value.rows[i] == RowEngine.RecordRow(o.rows[i], idOrdenTrabajo.value, description, estadoOts, color)
              else reply == Fail(404, "Registro no encontrado") && write.None?
  {
    if !Truthy(idOrdenTrabajo) {
      return Fail(400, "idOrdenTrabajo es requerido"), None;
    }
    match OpenSheet(data, raw) {
      case Rejected(r) =>
        return r, None;
      case Open(name, rows) =>
        var newRows, updated := RowEngine.UpdateRecordRows(rows, idOrdenTrabajo.value, description, estadoOts, color);
        if !updated {
          return Fail(404, "Registro no encontrado"), None;
        }
        return Done("Registro actualizado", name), Some(Write(Data, name, newRows));
    }
  }

  // ---------------------------------------------------------------------------
  // POST /projects/:filename/update-tpl-by-description
  // ---------------------------------------------------------------------------

  /** Sets `Tpl` on every row of one description and reports how many rows
      that was; the file is written even when no row matched. */
  method UpdateTplRoute(data: Dir, raw: string, description: Option<Value>, tpl: Option<Value>)
    returns (reply: Reply, write: Option<Write>)
    ensures !Truthy(description) ==> reply == Fail(400, "description es requerido") && write.None?
    ensures Truthy(description) && OpenSheet(data, raw).Rejected? ==>
              reply == OpenSheet(data, raw).reply && write.None?
    ensures Truthy(description) && OpenSheet(data, raw).Open? ==>
              var o := OpenSheet(data, raw);
              && reply == TplDone("Tpl actualizado por Description",
                                  |RowEngine.MatchingIndices(o.rows, description.value)|)
              && write.Some? && write.value.place == Data && write.value.name == o.name
              && |write.value.rows| == |o.rows|
              && forall i :: 0 <= i < |o.rows| ==>
                   write.value.rows[i] == RowEngine.TplRow(o.rows[i], description.value, tpl)
  {
    if !Truthy(description) {
      return Fail(400, "description es requerido"), None;
    }
    match OpenSheet(data, raw) {
      case Rejected(r) =>
        return r, None;
      case Open(name, rows) =>
        var newRows, updatedCount := RowEngine.UpdateTplRows(rows, description.value, tpl);
        return TplDone("Tpl actualizado por Description", updatedCount), Some(Write(Data, name, newRows));
    }
  }

  // ---------------------------------------------------------------------------
  // GET /files/:filename/column-summary
  // ---------------------------------------------------------------------------

  /** The frequency table of one column of an uploaded workbook. A missing or
      empty `column` query parameter is a 400 before the file name is looked
      at. */
  method ColumnSummaryRoute(uploads: Dir, raw: string, column: Option<string>, parseDate: string -> Option<int>)
    returns (reply: Reply)
    ensures column.None? || column == Some("") ==> reply == Fail(400, "Parámetro column es requerido")
    ensures column.Some? && column != Some("") && OpenSheet(uploads, raw).Rejected? ==>
              reply == OpenSheet(uploads, raw).reply
    ensures column.Some? && column != Some("") && OpenSheet(uploads, raw).Open? ==>
              && reply.Summary? && reply.column == column.value
              && ColumnSummary.IsSummaryOf(
                   ColumnSummary.KeysOf(OpenSheet(uploads, raw).rows, column.value, parseDate), reply.summary)
  {
    if column.None? || column.value == "" {
      return Fail(400, "Parámetro column es requerido");
    }
    match OpenSheet(uploads, raw) {
      case Rejected(r) =>
        return r;
      case Open(_, rows) =>
        var summary := ColumnSummary.Summarize(rows, column.value, parseDate);
        return Summary(column.value, summary);
    }
  }

  // ---------------------------------------------------------------------------
  // POST /files/:filename/colorized
  // ---------------------------------------------------------------------------

  /** `safe.replace(/\.xlsx?$/i, '')` for a name the guard accepted. */
  function StripSuffix(safe: string): (base: string)
    requires HasSheetSuffix(safe)
    ensures base + (if JsText.EndsWith(safe, ".xlsx") then ".xlsx" else ".xls") == safe
  {
    if JsText.EndsWith(safe, ".xlsx") then safe[..|safe| - 5] else safe[..|safe| - 4]
  }

  /** `` `${Date.now()}-${base}-colored.xlsx` ``, `now` being the clock. */
  function OutputName(now: int, safe: string): (out: string)
    requires HasSheetSuffix(safe)
    ensures JsText.EndsWith(out, "-colored.xlsx")
  {
    JsText.IntText(now) + "-" + StripSuffix(safe) + "-colored.xlsx"
  }

  /** No digit or sign is a `/`. */
  lemma IntTextNoSlash(n: int)
    ensures '/' !in JsText.IntText(n)
  {
    var d := JsText.NatText(if n < 0 then -n else n);
    assert forall i :: 0 <= i < |d| ==> d[i] != '/';
  }

  /** The saved copy of a colourised upload is a project the other handlers
      accept: its name passes the guard unchanged. */
  lemma OutputNamePassesGuard(now: int, safe: string)
    requires HasSheetSuffix(safe) && '/' !in safe
    ensures SafeName(OutputName(now, safe)) == Some(OutputName(now, safe))
  {
    OutputNameNoSlash(now, safe);
    OutputNameSuffix(now, safe);
    SafeNameAccepts(OutputName(now, safe));
  }

  lemma OutputNameSuffix(now: int, safe: string)
    requires HasSheetSuffix(safe)
    ensures JsText.EndsWith(OutputName(now, safe), ".xlsx")
  {
    var tail := "-colored.xlsx";
    assert tail[|tail| - 5..] == ".xlsx";
    JsText.EndsWithTrans(OutputName(now, safe), tail, ".xlsx");
  }

  lemma OutputNameNoSlash(now: int, safe: string)
    requires HasSheetSuffix(safe) && '/' !in safe
    ensures '/' !in OutputName(now, safe)
  {
    var base := StripSuffix(safe);
    assert base == safe[..|base|];
    IntTextNoSlash(now);
    assert '/' !in "-colored.xlsx";
  }

  /** Adds `Color <column>` to an uploaded workbook from a value-to-colour
      map and saves the result as a new project; the upload is not changed.
      `colors` is `None` when the body has no object there: it is missing,
      falsy, or a scalar such as a string, which `typeof` refuses. */
  function ColorizedRoute(uploads: Dir, raw: string, column: Option<Value>, colors: Option<map<string, Value>>, now: int)
    : (out: (Reply, Option<Write>))
    ensures !Truthy(column) || colors.None? ==> out == (Fail(400, "column y colors son requeridos"), None)
    ensures Truthy(column) && colors.Some? && OpenSheet(uploads, raw).Rejected? ==>
              out == (OpenSheet(uploads, raw).reply, None)
    ensures Truthy(column) && colors.Some? && OpenSheet(uploads, raw).Open? ==>
              var o := OpenSheet(uploads, raw);
              var name := OutputName(now, o.name);
              out == (Saved("Proyecto guardado", name),
                      Some(Write(Data, name, RowEngine.ColorizeRows(o.rows, ToText(column.value), colors.value))))
    ensures out.1.Some? ==> out.1.value.place == Data
  {
    if !Truthy(column) || colors.None? then (Fail(400, "column y colors son requeridos"), None)
    else
      match OpenSheet(uploads, raw)
      case Rejected(r) => (r, None)
      case Open(safe, rows) =>
        var name := OutputName(now, safe);
        (Saved("Proyecto guardado", name), Some(Write(Data, name, RowEngine.ColorizeRows(rows, ToText(column.value), colors.value))))
  }
}

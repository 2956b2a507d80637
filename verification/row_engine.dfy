/** The row transforms inside the server's mutating handlers: ensure-columns,
    update-record, update-tpl-by-description and colorized. Each one takes the
    rows of a sheet and produces the rows written back, one for one, in the
    same order. */
module RowEngine {
  import opened Wrappers
  import JsText
  import opened Sheet
  import PlainObject

  const IdColumn: string := "Id. Orden Trabajo"
  const DescriptionColumn: string := "Description"
  const EstadoOtsColumn: string := "EstadoOts"
  const TplColumn: string := "Tpl"
  const ColorCorreriaColumn: string := "Color Correria"

  /** The columns ensure-columns adds. */
  const EnsuredColumns: set<string> := {DescriptionColumn, EstadoOtsColumn, TplColumn, ColorCorreriaColumn}

  /** The columns update-record writes. */
  const RecordColumns: set<string> := {DescriptionColumn, EstadoOtsColumn, ColorCorreriaColumn}

  // ---------------------------------------------------------------------------
  // ensure-columns
  // ---------------------------------------------------------------------------

  /** `r[k] !== undefined ? r[k] : ''`. */
  function Kept(r: Row, k: string): (v: Value)
    ensures k in r ==> v == r[k]
    ensures k !in r ==> v == Text("")
  {
    if k in r then r[k] else Text("")
  }

  /** One row of ensure-columns: the four columns are present afterwards, a
      value already there (even `null`) is kept, a missing one becomes `''`,
      and every other column is left as it was. */
  function EnsureRow(r: Row): (e: Row)
    ensures e.Keys == r.Keys + EnsuredColumns
    ensures forall k :: k in r ==> e[k] == r[k]
    ensures forall k :: k in EnsuredColumns && k !in r ==> e[k] == Text("")
  {
    r[DescriptionColumn := Kept(r, DescriptionColumn)]
     [EstadoOtsColumn := Kept(r, EstadoOtsColumn)]
     [TplColumn := Kept(r, TplColumn)]
     [ColorCorreriaColumn := Kept(r, ColorCorreriaColumn)]
  }

  /** ensure-columns over a sheet: same length and order, every row gains the
      four columns and keeps every value it had. */
  function EnsureColumns(rows: seq<Row>): (out: seq<Row>)
    ensures |out| == |rows|
    ensures forall i :: 0 <= i < |rows| ==> out[i].Keys == rows[i].Keys + EnsuredColumns
    ensures forall i, k :: 0 <= i < |rows| && k in rows[i] ==> out[i][k] == rows[i][k]
    ensures forall i, k :: 0 <= i < |rows| && k in EnsuredColumns && k !in rows[i] ==> out[i][k] == Text("")
  {
    seq(|rows|, i requires 0 <= i < |rows| => EnsureRow(rows[i]))
  }

  /** Running ensure-columns on its own output changes nothing. */
  lemma EnsureColumnsIdempotent(rows: seq<Row>)
    ensures EnsureColumns(EnsureColumns(rows)) == EnsureColumns(rows)
  {
    var once := EnsureColumns(rows);
    var twice := EnsureColumns(once);
    forall i | 0 <= i < |rows| ensures twice[i] == once[i] {
      assert twice[i].Keys == once[i].Keys;
    }
  }

  // ---------------------------------------------------------------------------
  // update-record
  // ---------------------------------------------------------------------------

  /** `String(r['Id. Orden Trabajo']) === String(idOrdenTrabajo)`. */
  predicate IdMatches(r: Row, id: Value) {
    ToTextOr(Get(r, IdColumn)) == ToText(id)
  }

  /** `supplied !== undefined ? supplied : (current || '')`. */
  function Patched(current: Option<Value>, supplied: Option<Value>): (v: Value)
    ensures supplied.Some? ==> v == supplied.value
    ensures supplied.None? && Truthy(current) ==> Some(v) == current
    ensures supplied.None? && !Truthy(current) ==> v == Text("")
  {
    if supplied.Some? then supplied.value else OrEmpty(current)
  }

  /** One matching row of update-record: `Description`, `EstadoOts` and
      `Color Correria` are set to the supplied values, or kept (a falsy one
      becoming `''`) where none is supplied; every other column is left as it
      was. */
  function PatchRecord(r: Row, description: Option<Value>, estadoOts: Option<Value>, color: Option<Value>): (p: Row)
    ensures p.Keys == r.Keys + RecordColumns
    ensures forall k :: k in r && k !in RecordColumns ==> p[k] == r[k]
    ensures p[DescriptionColumn] == Patched(Get(r, DescriptionColumn), description)
    ensures p[EstadoOtsColumn] == Patched(Get(r, EstadoOtsColumn), estadoOts)
    ensures p[ColorCorreriaColumn] == Patched(Get(r, ColorCorreriaColumn), color)
  {
    r[DescriptionColumn := Patched(Get(r, DescriptionColumn), description)]
     [EstadoOtsColumn := Patched(Get(r, EstadoOtsColumn), estadoOts)]
     [ColorCorreriaColumn := Patched(Get(r, ColorCorreriaColumn), color)]
  }

  /** What update-record makes of one row: a row whose id matches is patched,
      any other row is passed through untouched. */
  function RecordRow(r: Row, id: Value, description: Option<Value>, estadoOts: Option<Value>, color: Option<Value>): (u: Row)
    ensures IdMatches(r, id) ==> u == PatchRecord(r, description, estadoOts, color)
    ensures !IdMatches(r, id) ==> u == r
  {
    if IdMatches(r, id) then PatchRecord(r, description, estadoOts, color) else r
  }

  /** The first `n` rows have gone through update-record into `done`. */
  ghost predicate RecordedUpTo(rows: seq<Row>, done: seq<Row>, n: nat, id: Value,
                               description: Option<Value>, estadoOts: Option<Value>, color: Option<Value>)
  {
    n <= |rows| && |done| == n
    && forall j :: 0 <= j < n ==> done[j] == RecordRow(rows[j], id, description, estadoOts, color)
  }

  /** One more row through update-record. */
  lemma RecordStep(rows: seq<Row>, done: seq<Row>, n: nat, id: Value,
                   description: Option<Value>, estadoOts: Option<Value>, color: Option<Value>)
    requires n < |rows| && RecordedUpTo(rows, done, n, id, description, estadoOts, color)
    ensures RecordedUpTo(rows, done + [RecordRow(rows[n], id, description, estadoOts, color)], n + 1,
                         id, description, estadoOts, color)
  {
    var u := RecordRow(rows[n], id, description, estadoOts, color);
    forall j | 0 <= j < n + 1
      ensures (done + [u])[j] == RecordRow(rows[j], id, description, estadoOts, color)
    {
      if j < n {
        assert (done + [u])[j] == done[j];
      } else {
        assert (done + [u])[j] == u;
      }
    }
  }

  /** The `rows.map` of update-record with its `updated` flag: every row whose
      id matches is patched (all of them, not only the first), every other row
      is passed through, and the flag says whether any row matched. */
  method UpdateRecordRows(rows: seq<Row>, id: Value, description: Option<Value>, estadoOts: Option<Value>, color: Option<Value>)
    returns (newRows: seq<Row>, updated: bool)
    ensures |newRows| == |rows|
    ensures forall i :: 0 <= i < |rows| ==> newRows[i] == RecordRow(rows[i], id, description, estadoOts, color)
    ensures updated <==> exists i :: 0 <= i < |rows| && IdMatches(rows[i], id)
  {
    newRows := [];
    updated := false;
    var i := 0;
    while i < |rows|
      invariant i <= |rows|
      invariant RecordedUpTo(rows, newRows, i, id, description, estadoOts, color)
      invariant updated <==> exists j :: 0 <= j < i && IdMatches(rows[j], id)
    {
      var r := rows[i];
      if IdMatches(r, id) {
        updated := true;
      }
      RecordStep(rows, newRows, i, id, description, estadoOts, color);
      newRows := newRows + [RecordRow(r, id, description, estadoOts, color)];
      i := i + 1;
    }
  }

  /** A row without an id column matches the request id `"undefined"`:
      `String(undefined)` is `"undefined"`. */
  lemma MissingIdMatchesUndefined(r: Row)
    requires IdColumn !in r
    ensures IdMatches(r, Text("undefined"))
    ensures forall id :: IdMatches(r, id) <==> ToText(id) == "undefined"
  {
  }

  /** A numeric id and its text select the same rows. */
  lemma NumericIdMatchesText(r: Row, n: int)
    ensures IdMatches(r, Num(n)) <==> IdMatches(r, Text(JsText.IntText(n)))
  {
  }

  // ---------------------------------------------------------------------------
  // update-tpl-by-description
  // ---------------------------------------------------------------------------

  /** `(r.Description || '') === description`. */
  predicate DescriptionMatches(r: Row, description: Value) {
    StrictEquals(OrEmpty(Get(r, DescriptionColumn)), description)
  }

  /** One matching row of update-tpl: `Tpl` is set to the supplied value, or
      kept (a falsy one becoming `''`) where none is supplied; nothing else
      changes. */
  function SetTpl(r: Row, tpl: Option<Value>): (p: Row)
    ensures p.Keys == r.Keys + {TplColumn}
    ensures forall k :: k in r && k != TplColumn ==> p[k] == r[k]
    ensures p[TplColumn] == Patched(Get(r, TplColumn), tpl)
  {
    r[TplColumn := Patched(Get(r, TplColumn), tpl)]
  }

  /** How many rows a description selects, counted front to back. */
  function CountMatching(rows: seq<Row>, description: Value): (n: nat)
    ensures n <= |rows|
  {
    if rows == [] then 0
    else CountMatching(rows[..|rows| - 1], description)
         + (if DescriptionMatches(rows[|rows| - 1], description) then 1 else 0)
  }

  /** The rows a description selects, by index. */
  function MatchingIndices(rows: seq<Row>, description: Value): set<int> {
    set i | 0 <= i < |rows| && DescriptionMatches(rows[i], description)
  }

  /** The rows selected among all but the last, and the last if it matches. */
  lemma MatchingIndicesSnoc(rows: seq<Row>, description: Value)
    requires rows != []
    ensures var n := |rows| - 1;
            MatchingIndices(rows, description)
            == MatchingIndices(rows[..n], description)
               + (if DescriptionMatches(rows[n], description) then {n} else {})
  {
    var n := |rows| - 1;
    var front := rows[..n];
    var extra: set<int> := if DescriptionMatches(rows[n], description) then {n} else {};
    forall i ensures i in MatchingIndices(rows, description) <==> i in MatchingIndices(front, description) + extra {
      if 0 <= i < n {
        assert front[i] == rows[i];
      }
    }
  }

  /** The count is the number of selected rows. */
  lemma {:induction false} CountMatchingIsCardinality(rows: seq<Row>, description: Value)
    ensures CountMatching(rows, description) == |MatchingIndices(rows, description)|
  {
    if rows != [] {
      var n := |rows| - 1;
      CountMatchingIsCardinality(rows[..n], description);
      MatchingIndicesSnoc(rows, description);
      assert n !in MatchingIndices(rows[..n], description);
    }
  }

  /** A description the sheet does not hold selects nothing. */
  lemma {:induction false} CountMatchingZero(rows: seq<Row>, description: Value)
    ensures CountMatching(rows, description) == 0 <==>
            forall i :: 0 <= i < |rows| ==> !DescriptionMatches(rows[i], description)
  {
    CountMatchingIsCardinality(rows, description);
    if CountMatching(rows, description) != 0 {
      var i :| i in MatchingIndices(rows, description);
      assert DescriptionMatches(rows[i], description);
    } else {
      forall i | 0 <= i < |rows| ensures !DescriptionMatches(rows[i], description) {
        assert i !in MatchingIndices(rows, description);
      }
    }
  }

  /** The empty description never matches: a row without a description reads
      as `''`, and the handler refuses a falsy description before it gets
      here. */
  lemma BlankDescriptionNotMatched(r: Row, description: Value)
    requires Truthy(Some(description))
    requires !Truthy(Get(r, DescriptionColumn))
    ensures !DescriptionMatches(r, description)
  {
  }

  /** What update-tpl makes of one row: a row the description selects gets
      its `Tpl` set, any other row is passed through untouched. */
  function TplRow(r: Row, description: Value, tpl: Option<Value>): (u: Row)
    ensures DescriptionMatches(r, description) ==> u == SetTpl(r, tpl)
    ensures !DescriptionMatches(r, description) ==> u == r
  {
    if DescriptionMatches(r, description) then SetTpl(r, tpl) else r
  }

  /** One more row of the prefix adds one to the count when it matches. */
  lemma CountMatchingStep(rows: seq<Row>, i: nat, description: Value)
    requires i < |rows|
    ensures CountMatching(rows[..i + 1], description)
            == CountMatching(rows[..i], description) + (if DescriptionMatches(rows[i], description) then 1 else 0)
  {
    assert rows[..i + 1][..i] == rows[..i];
  }

  /** The `rows.map` of update-tpl with its `updatedCount` counter: matching
      rows get their `Tpl` set, every other row is passed through, and the
      counter is the number of matching rows. */
  method UpdateTplRows(rows: seq<Row>, description: Value, tpl: Option<Value>)
    returns (newRows: seq<Row>, updatedCount: nat)
    ensures |newRows| == |rows|
    ensures forall i :: 0 <= i < |rows| ==> newRows[i] == TplRow(rows[i], description, tpl)
    ensures updatedCount == |MatchingIndices(rows, description)|
  {
    newRows := [];
    updatedCount := 0;
    var i := 0;
    while i < |rows|
      invariant 0 <= i <= |rows| && |newRows| == i
      invariant forall j :: 0 <= j < i ==> newRows[j] == TplRow(rows[j], description, tpl)
      invariant updatedCount == CountMatching(rows[..i], description)
    {
      var r := rows[i];
      CountMatchingStep(rows, i, description);
      if DescriptionMatches(r, description) {
        updatedCount := updatedCount + 1;
      }
      newRows := newRows + [TplRow(r, description, tpl)];
      i := i + 1;
    }
    assert rows[..|rows|] == rows;
    CountMatchingIsCardinality(rows, description);
  }

  // ---------------------------------------------------------------------------
  // colorized
  // ---------------------------------------------------------------------------

  const NoColor: string := "#000000"

  /** `` `Color ${column}` ``. */
  function ColorColumnName(column: string): (c: string)
    ensures c != column && JsText.StartsWith(c, "Color ")
  {
    "Color " + column
  }

  /** The `getColor` of colorized: a missing or `null` cell, or a cell whose
      trimmed text has no truthy colour, gets `'#000000'`; any other cell gets
      the colour mapped to its trimmed text. */
  function CellColor(v: Option<Value>, colors: map<string, Value>): (c: Value)
    ensures v.None? || v == Some(Null) ==> c == Text(NoColor)
    ensures v.Some? && v != Some(Null) ==>
              var key := JsText.Trim(ToText(v.value));
              if key in colors && Truthy(Some(colors[key])) then c == colors[key] else c == Text(NoColor)
  {
    if v.None? || v.value.Null? then Text(NoColor)
    else OrEmptyColor(Get(colors, JsText.Trim(ToText(v.value))))
  }

  /** `colors[key] || '#000000'`. */
  function OrEmptyColor(v: Option<Value>): (c: Value)
    ensures Truthy(v) ==> v == Some(c)
    ensures !Truthy(v) ==> c == Text(NoColor)
  {
    if Truthy(v) then v.value else Text(NoColor)
  }

  /** colorized over a sheet: same length and order, every row gains (or has
      overwritten) exactly the column `Color <column>`, holding the colour of
      its `<column>` cell, and keeps every other value. */
  function ColorizeRows(rows: seq<Row>, column: string, colors: map<string, Value>): (out: seq<Row>)
    ensures |out| == |rows|
    ensures forall i :: 0 <= i < |rows| ==> out[i].Keys == rows[i].Keys + {ColorColumnName(column)}
    ensures forall i, k :: 0 <= i < |rows| && k in rows[i] && k != ColorColumnName(column) ==> out[i][k] == rows[i][k]
    ensures forall i :: 0 <= i < |rows| ==> out[i][ColorColumnName(column)] == CellColor(Get(rows[i], column), colors)
  {
    seq(|rows|, i requires 0 <= i < |rows| => rows[i][ColorColumnName(column) := CellColor(Get(rows[i], column), colors)])
  }

  /** The column that colorized reads is still there, unchanged, afterwards. */
  lemma ColorizeKeepsSource(rows: seq<Row>, column: string, colors: map<string, Value>, i: int)
    requires 0 <= i < |rows|
    ensures Get(ColorizeRows(rows, column, colors)[i], column) == Get(rows[i], column)
  {
  }

  /** A property read on the request's `colors` object, as written: a value
      it owns, or the member of `Object.prototype` a name it does not own
      reaches. */
  datatype ColorProp = Own(v: Value) | Inherited(name: string)

  /** `colors[key]`: `None` (undefined) when neither owned nor inherited. */
  function ColorsLookup(colors: map<string, Value>, key: string): (p: Option<ColorProp>)
    ensures key in colors ==> p == Some(Own(colors[key]))
    ensures key !in colors ==> (p.Some? <==> key in PlainObject.ReservedNames)
  {
    if key in colors then Some(Own(colors[key]))
    else if key in PlainObject.ReservedNames then Some(Inherited(key))
    else None
  }

  /** getColor as written: `colors[key] || '#000000'`, where an inherited
      member (a function or the prototype) is truthy and so becomes the
      cell's colour. */
  function CellColorAsWritten(v: Option<Value>, colors: map<string, Value>): ColorProp {
    if v.None? || v.value.Null? then Own(Text(NoColor))
    else KeyColorAsWritten(colors, JsText.Trim(ToText(v.value)))
  }

  /** `colors[key] || '#000000'` as written, for the trimmed key. */
  function KeyColorAsWritten(colors: map<string, Value>, key: string): ColorProp {
    match ColorsLookup(colors, key)
    case Some(Own(x)) => if Truthy(Some(x)) then Own(x) else Own(Text(NoColor))
    case Some(Inherited(name)) => Inherited(name)
    case None => Own(Text(NoColor))
  }

  /** Where the key is owned by `colors` or is not an inherited name, getColor
      as written gives the colour `CellColor` gives. */
  lemma CellColorAsWrittenAgrees(v: Option<Value>, colors: map<string, Value>)
    requires v.Some? && v != Some(Null) ==>
               var key := JsText.Trim(ToText(v.value));
               key in colors || key !in PlainObject.ReservedNames
    ensures CellColorAsWritten(v, colors) == Own(CellColor(v, colors))
  {
  }

  /** A cell holding a name every object inherits, with no colour given for
      it, is coloured as written with that inherited member, where `CellColor`
      gives `#000000`. */
  lemma InheritedNameColor(v: Option<Value>, colors: map<string, Value>)
    requires v.Some? && v != Some(Null)
    requires var key := JsText.Trim(ToText(v.value));
             key in PlainObject.ReservedNames && key !in colors
    ensures CellColorAsWritten(v, colors) == Inherited(JsText.Trim(ToText(v.value)))
    ensures CellColor(v, colors) == Text(NoColor)
  {
  }

  /** The key `constructor`, with no colour given for it, is coloured as
      written with the `Object` function, where `#000000` is meant. */
  lemma ConstructorColor()
    ensures KeyColorAsWritten(map[], "constructor") == Inherited("constructor")
    ensures OrEmptyColor(Get(map[], "constructor")) == Text(NoColor)
  {
    assert "constructor" in PlainObject.ReservedNames;
  }
}

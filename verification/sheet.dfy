/** What a spreadsheet row looks like once `sheet_to_json` has read it: a map
    from column name to cell value. A column that is missing from the map is
    JavaScript's `undefined`. Request bodies supply values of the same kinds. */
module Sheet {
  import opened Wrappers
  import JsText
  import Calendar

  /** A cell or request value: a string, a number (integers only), a date (by
      its day number) or `null`. */
  datatype Value = Text(s: string) | Num(n: int) | Date(day: int) | Null

  type Row = map<string, Value>

  /** `r[k]`: `None` is `undefined`. */
  function Get(r: Row, k: string): (v: Option<Value>)
    ensures v.Some? <==> k in r
    ensures k in r ==> v.value == r[k]
  {
    if k in r then Some(r[k]) else None
  }

  /** `String(v)`. A date is written `DD/MM/YYYY`. */
  function ToText(v: Value): string {
    match v
    case Text(s) => s
    case Num(n) => JsText.IntText(n)
    case Date(d) => Calendar.ToDateString(Calendar.Valid(d))
    case Null => "null"
  }

  /** `String(v)` where `v` may be `undefined`. */
  function ToTextOr(v: Option<Value>): (s: string)
    ensures v.None? ==> s == "undefined"
    ensures v.Some? ==> s == ToText(v.value)
  {
    match v
    case None => "undefined"
    case Some(x) => ToText(x)
  }

  /** JavaScript truthiness: `undefined`, `null`, `''` and `0` are falsy; a
      `Date` object is always truthy. */
  predicate Truthy(v: Option<Value>) {
    match v
    case None => false
    case Some(Text(s)) => s != ""
    case Some(Num(n)) => n != 0
    case Some(Date(_)) => true
    case Some(Null) => false
  }

  /** `v || ''`. */
  function OrEmpty(v: Option<Value>): (r: Value)
    ensures Truthy(v) ==> v == Some(r)
    ensures !Truthy(v) ==> r == Text("")
  {
    if Truthy(v) then v.value else Text("")
  }

  /** `a === b`. Two `Date` objects are never the same object (a request body
      never holds one), so dates are never strictly equal. */
  predicate StrictEquals(a: Value, b: Value) {
    match (a, b)
    case (Text(x), Text(y)) => x == y
    case (Num(x), Num(y)) => x == y
    case (Null, Null) => true
    case _ => false
  }

  /** Spreadsheet serial 25569 is 1970-01-01. */
  const ExcelEpochSerial: int := 25569

  /** `excelSerialToDate`: one serial unit per day from 1970-01-01; a serial
      too far out is the invalid date. */
  function SerialDate(n: int): (d: Calendar.JsDate)
    ensures d.Valid? <==> -Calendar.MaxDay <= n - ExcelEpochSerial <= Calendar.MaxDay
    ensures d.Valid? ==> d.day == n - ExcelEpochSerial
  {
    Calendar.ClipDay(n - ExcelEpochSerial)
  }

  /** The date a cell is read as where a date is expected: a date cell is
      itself, a number is a spreadsheet serial, and anything else (also a
      missing cell) is the time `Date.parse` reads in its text (`parseDate`
      gives its day, `None` for `NaN`); `None` when it does not parse. */
  function CellDate(v: Option<Value>, parseDate: string -> Option<int>): (d: Option<Calendar.JsDate>)
    ensures v.Some? && v.value.Date? ==> d == Some(Calendar.Valid(v.value.day))
    ensures v.Some? && v.value.Num? ==> d == Some(SerialDate(v.value.n))
    ensures (v.None? || v.value.Text? || v.value.Null?) ==>
              (d.Some? <==> parseDate(ToTextOr(v)).Some?)
              && (d.Some? ==> d.value == Calendar.ClipDay(parseDate(ToTextOr(v)).value))
  {
    match v
    case Some(Date(day)) => Some(Calendar.Valid(day))
    case Some(Num(n)) => Some(SerialDate(n))
    case _ =>
      match parseDate(ToTextOr(v))
      case Some(t) => Some(Calendar.ClipDay(t))
      case None => None
  }
}

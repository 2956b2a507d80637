/** The `/projects/:filename/points` handler's per-row logic: reading a GPS
    cell into a coordinate pair (with the latitude/longitude order heuristic),
    picking the colour column and a marker colour, normalising the request date
    to `DD/MM/YYYY`, and assembling the point the map client draws. */
module Points {
  import opened Wrappers
  import JsText
  import Calendar
  import opened Sheet

  const DefaultLat: real := 7.896031
  const DefaultLng: real := -72.504365
  const DefaultMarkerColor: string := "#28a745"

  datatype Coord = Coord(lat: real, lng: real)

  const DefaultCoord: Coord := Coord(DefaultLat, DefaultLng)

  function Abs(x: real): (a: real)
    ensures a >= 0.0 && (a == x || a == -x)
  {
    if x < 0.0 then -x else x
  }

  // ---------------------------------------------------------------------------
  // parseGps
  // ---------------------------------------------------------------------------

  /** The order decision of parseGps: the pair is swapped only when the first
      number cannot be a latitude and the second can. So the latitude it returns
      is a valid one whenever either number is. */
  function OrderPair(a: real, b: real): (c: Coord)
    ensures c == Coord(a, b) || c == Coord(b, a)
    ensures c == Coord(b, a) && c != Coord(a, b) ==> Abs(a) > 90.0 && Abs(b) <= 90.0
    ensures Abs(a) > 90.0 && Abs(b) <= 90.0 ==> c == Coord(b, a)
    ensures Abs(a) <= 90.0 || Abs(b) <= 90.0 ==> Abs(c.lat) <= 90.0
  {
    if Abs(a) > 90.0 && Abs(b) <= 90.0 then Coord(b, a)
    else if Abs(b) > 90.0 && Abs(a) <= 90.0 then Coord(a, b)
    else Coord(a, b)
  }

  /** parseGps splits on the comma. */
  const GpsSeparators: set<char> := {','}

  /** The first two comma-separated numbers of a trimmed GPS text, each read
      with `parseFloat` after trimming; `None` when there are fewer than two
      pieces or either is `NaN`. */
  function GpsNumbers(s: string): Option<(real, real)> {
    var parts := JsText.Split(s, GpsSeparators);
    if |parts| < 2 then None
    else
      match (JsText.ParseFloat(JsText.Trim(parts[0])), JsText.ParseFloat(JsText.Trim(parts[1])))
      case (Some(a), Some(b)) => Some((a, b))
      case _ => None
  }

  /** parseGps on the trimmed text of a cell: a text with no comma, or whose
      first two pieces are not numbers, gives the default coordinate;
      otherwise the two numbers in the order `OrderPair` picks. */
  function GpsOfText(s: string): (c: Coord)
    ensures ',' !in s || GpsNumbers(s).None? ==> c == DefaultCoord
    ensures ',' in s && GpsNumbers(s).Some? ==> c == OrderPair(GpsNumbers(s).value.0, GpsNumbers(s).value.1)
  {
    if s == [] || ',' !in s then DefaultCoord
    else
      match GpsNumbers(s)
      case None => DefaultCoord
      case Some((a, b)) => OrderPair(a, b)
  }

  /** parseGps: a missing or `null` cell gives the default coordinate, any
      other cell is read from its trimmed text. */
  function ParseGps(v: Option<Value>): (c: Coord)
    ensures v.None? || v == Some(Null) ==> c == DefaultCoord
    ensures v.Some? && v != Some(Null) ==> c == GpsOfText(JsText.Trim(ToText(v.value)))
  {
    if v.None? || v.value.Null? then DefaultCoord
    else GpsOfText(JsText.Trim(ToText(v.value)))
  }

  /** A text cell that is already trimmed is read as it stands. */
  lemma ParseGpsTrimmedText(s: string)
    requires JsText.Trim(s) == s
    ensures ParseGps(Some(Text(s))) == GpsOfText(s)
  {
    var v := Some(Text(s));
    assert ToText(v.value) == s;
    assert ParseGps(v) == GpsOfText(JsText.Trim(s));
  }

  /** A text with a comma whose first two pieces are numbers gives them. */
  lemma GpsOfTextNumbers(s: string, a: real, b: real)
    requires ',' in s && GpsNumbers(s) == Some((a, b))
    ensures GpsOfText(s) == OrderPair(a, b)
  {
  }

  /** A trimmed text with a comma whose first two pieces read as numbers
      gives those numbers, in the order `OrderPair` picks. */
  lemma ParseGpsOfText(s: string, a: real, b: real)
    requires JsText.Trim(s) == s && ',' in s
    requires GpsNumbers(s) == Some((a, b))
    ensures ParseGps(Some(Text(s))) == OrderPair(a, b)
  {
    ParseGpsTrimmedText(s);
    GpsOfTextNumbers(s, a, b);
  }

  /** A GPS cell written as two integers separated by a comma reads back as
      those two numbers, in the order `OrderPair` picks. */
  lemma ParseGpsOfIntegers(a: int, b: int)
    ensures ParseGps(Some(Text(JsText.IntText(a) + "," + JsText.IntText(b)))) == OrderPair(a as real, b as real)
  {
    var s := JsText.IntText(a) + "," + JsText.IntText(b);
    IntegersTextTrimmed(a, b);
    GpsNumbersOfIntegers(a, b);
    ParseGpsOfText(s, a as real, b as real);
  }

  /** `"<a>,<b>"` holds a comma and is its own trim. */
  lemma IntegersTextTrimmed(a: int, b: int)
    ensures var s := JsText.IntText(a) + "," + JsText.IntText(b);
            ',' in s && JsText.Trim(s) == s
  {
    var ta, tb := JsText.IntText(a), JsText.IntText(b);
    var s := ta + "," + tb;
    NoCommaNoSpace(a);
    NoCommaNoSpace(b);
    assert s[0] == ta[0] && s[|s| - 1] == tb[|tb| - 1];
    JsText.TrimOfTrimmed(s);
    assert s[|ta|] == ',';
  }

  /** Two pieces that read as numbers are the numbers of a GPS text. */
  lemma GpsNumbersOfPieces(s: string, ta: string, tb: string, a: real, b: real)
    requires JsText.Split(s, GpsSeparators) == [ta, tb]
    requires JsText.ParseFloat(JsText.Trim(ta)) == Some(a)
    requires JsText.ParseFloat(JsText.Trim(tb)) == Some(b)
    ensures GpsNumbers(s) == Some((a, b))
  {
  }

  /** An integer's text, trimmed and read with `parseFloat`, is that integer. */
  lemma ReadIntegerPiece(n: int)
    ensures JsText.ParseFloat(JsText.Trim(JsText.IntText(n))) == Some(n as real)
  {
    NoCommaNoSpace(n);
    JsText.TrimOfTrimmed(JsText.IntText(n));
    JsText.ParseFloatIntText(n);
  }

  /** `"<a>,<b>"` splits on the comma into the two integers' texts. */
  lemma SplitIntegers(a: int, b: int)
    ensures JsText.Split(JsText.IntText(a) + "," + JsText.IntText(b), GpsSeparators)
            == [JsText.IntText(a), JsText.IntText(b)]
  {
    var ta, tb := JsText.IntText(a), JsText.IntText(b);
    NoCommaNoSpace(a);
    NoCommaNoSpace(b);
    assert ta + "," + tb == ta + [','] + tb;
    JsText.SplitAt(ta, ',', tb, GpsSeparators);
    JsText.SplitNoSep(tb, GpsSeparators);
  }

  /** The two numbers of `"<a>,<b>"` are `a` and `b`. */
  lemma GpsNumbersOfIntegers(a: int, b: int)
    ensures GpsNumbers(JsText.IntText(a) + "," + JsText.IntText(b)) == Some((a as real, b as real))
  {
    SplitIntegers(a, b);
    ReadIntegerPiece(a);
    ReadIntegerPiece(b);
    GpsNumbersOfPieces(JsText.IntText(a) + "," + JsText.IntText(b), JsText.IntText(a), JsText.IntText(b),
                       a as real, b as real);
  }

  /** An integer's text holds no comma and starts and ends with a character
      that is not whitespace. */
  lemma NoCommaNoSpace(n: int)
    ensures var t := JsText.IntText(n);
            && |t| >= 1 && JsText.NoSep(t, GpsSeparators)
            && !JsText.IsSpace(t[0]) && !JsText.IsSpace(t[|t| - 1])
  {
    var d := JsText.NatText(if n < 0 then -n else n);
    assert JsText.IsDigit(d[|d| - 1]);
    if n < 0 {
      assert JsText.IntText(n) == "-" + d;
    }
  }

  /** Whatever the cell, the latitude is a valid one when the cell held a
      valid latitude in either position. */
  lemma ParseGpsLatitudeInRange(v: Value, a: real, b: real)
    requires v != Null && ',' in JsText.Trim(ToText(v))
    requires GpsNumbers(JsText.Trim(ToText(v))) == Some((a, b))
    requires Abs(a) <= 90.0 || Abs(b) <= 90.0
    ensures Abs(ParseGps(Some(v)).lat) <= 90.0
  {
  }

  // ---------------------------------------------------------------------------
  // colour column and marker colour
  // ---------------------------------------------------------------------------

  /** `c.toLowerCase().startsWith('color ')`. */
  predicate IsColorColumn(c: string) {
    JsText.StartsWith(JsText.Lower(c), "color ")
  }

  /** `c.toLowerCase().includes('color tarea')`. */
  predicate IsTaskColorColumn(c: string) {
    JsText.Includes(JsText.Lower(c), "color tarea")
  }

  /** The index of the first column named `color …`, or `|cols|`. */
  function FirstColorColumn(cols: seq<string>): (i: nat)
    ensures i <= |cols|
    ensures i < |cols| ==> IsColorColumn(cols[i])
    ensures forall j :: 0 <= j < i ==> !IsColorColumn(cols[j])
  {
    if cols == [] then 0
    else if IsColorColumn(cols[0]) then 0
    else 1 + FirstColorColumn(cols[1..])
  }

  /** The index of the first column whose name holds `color tarea`, or
      `|cols|`. */
  function FirstTaskColorColumn(cols: seq<string>): (i: nat)
    ensures i <= |cols|
    ensures i < |cols| ==> IsTaskColorColumn(cols[i])
    ensures forall j :: 0 <= j < i ==> !IsTaskColorColumn(cols[j])
  {
    if cols == [] then 0
    else if IsTaskColorColumn(cols[0]) then 0
    else 1 + FirstTaskColorColumn(cols[1..])
  }

  /** The colour column of a sheet, from the first row's keys in column order:
      the first one whose lower-cased name starts with `color `, else the first
      one whose lower-cased name holds `color tarea`, else none. */
  function PickColorColumn(cols: seq<string>): (pick: Option<string>)
    ensures pick.Some? ==> pick.value in cols
    ensures (exists i :: 0 <= i < |cols| && IsColorColumn(cols[i])) ==>
              pick.Some? && IsColorColumn(pick.value)
              && exists i :: 0 <= i < |cols| && cols[i] == pick.value && forall j :: 0 <= j < i ==> !IsColorColumn(cols[j])
    ensures (forall i :: 0 <= i < |cols| ==> !IsColorColumn(cols[i])) ==>
              if exists i :: 0 <= i < |cols| && IsTaskColorColumn(cols[i])
              then pick.Some? && IsTaskColorColumn(pick.value)
                   && exists i :: 0 <= i < |cols| && cols[i] == pick.value && forall j :: 0 <= j < i ==> !IsTaskColorColumn(cols[j])
              else pick.None?
  {
    var i := FirstColorColumn(cols);
    if i < |cols| then Some(cols[i])
    else
      var k := FirstTaskColorColumn(cols);
      if k < |cols| then Some(cols[k]) else None
  }

  /** The row's colour cell is a string that is not blank. */
  predicate HasColorText(r: Row, colorCol: Option<string>) {
    && colorCol.Some? && colorCol.value != "" && colorCol.value in r
    && r[colorCol.value].Text? && JsText.Trim(r[colorCol.value].s) != ""
  }

  /** getColor of the points handler: the trimmed text of the row's colour
      cell when it is a string that is not blank, else `'#28a745'`. Either way
      the marker colour is a non-blank trimmed string. */
  function PointColor(r: Row, colorCol: Option<string>): (c: string)
    ensures c != [] && JsText.Trim(c) == c
    ensures HasColorText(r, colorCol) ==> c == JsText.Trim(r[colorCol.value].s)
    ensures !HasColorText(r, colorCol) ==> c == DefaultMarkerColor
  {
    var v := if colorCol.Some? && colorCol.value != "" then Get(r, colorCol.value) else Some(Null);
    if v.Some? && v.value.Text? && JsText.Trim(v.value.s) != "" then
      JsText.TrimIdempotent(v.value.s);
      JsText.Trim(v.value.s)
    else
      assert DefaultMarkerColor[0] == '#' && DefaultMarkerColor[|DefaultMarkerColor| - 1] == '5';
      JsText.TrimOfTrimmed(DefaultMarkerColor);
      DefaultMarkerColor
  }

  // ---------------------------------------------------------------------------
  // dates
  // ---------------------------------------------------------------------------

  /** normalizeFecha: a date cell, or a number read as a spreadsheet serial,
      is written `DD/MM/YYYY`; any other value is handed to `Date.parse`
      (`parseDate` gives the day of the time it parses, `None` for `NaN`) and
      written `DD/MM/YYYY` when it parses, else as its own text, with a falsy
      value giving `''`. */
  function NormalizeFecha(v: Option<Value>, parseDate: string -> Option<int>): (s: string)
    ensures CellDate(v, parseDate).Some? ==> s == Calendar.ToDateString(CellDate(v, parseDate).value)
    ensures CellDate(v, parseDate).None? ==> s == (if Truthy(v) then ToText(v.value) else "")
  {
    match CellDate(v, parseDate)
    case Some(d) => Calendar.ToDateString(d)
    case None => ToText(OrEmpty(v))
  }


  // ---------------------------------------------------------------------------
  // toFixed(6)
  // ---------------------------------------------------------------------------

  /** `n` zero characters. */
  function Zeros(n: nat): (z: string)
    ensures |z| == n && forall i :: 0 <= i < n ==> z[i] == '0'
  {
    if n == 0 then [] else "0" + Zeros(n - 1)
  }

  /** The millionths `toFixed(6)` prints for |x|: the integer nearest to
      |x| * 10^6, the larger one on a tie. */
  function Millionths(x: real): (n: nat)
    ensures var ax := Abs(x) * 1000000.0; n as real - 0.5 <= ax < n as real + 0.5
  {
    (Abs(x) * 1000000.0 + 0.5).Floor
  }

  /** `x.toFixed(6)`: a minus sign for a negative number, the integer part,
      a point and exactly six decimals. */
  function ToFixed6(x: real): (s: string)
    ensures |s| >= 8 && s[|s| - 7] == '.' && JsText.AllDigits(s[|s| - 6..])
    ensures (x < 0.0) <==> s[0] == '-'
  {
    var digits := JsText.NatText(Millionths(x));
    var padded := if |digits| <= 6 then Zeros(7 - |digits|) + digits else digits;
    assert JsText.AllDigits(padded);
    var body := padded[..|padded| - 6] + "." + padded[|padded| - 6..];
    assert body[|body| - 6..] == padded[|padded| - 6..];
    assert JsText.IsDigit(body[0]);
    if x < 0.0 then "-" + body else body
  }

  // ---------------------------------------------------------------------------
  // the point of one row
  // ---------------------------------------------------------------------------

  const GpsField: string := "Gps"

  /** The properties a point carries, in the order the client lists them. */
  const WantedFields: seq<string> :=
    ["Cliente", "Ruta", "Dirección", "Nombre", "Ciclo", "Tarea", "Id. Orden Trabajo",
     "Revisión", "Nombre Localidad", "Gps", "Fecha Solicitud"]

  datatype Point = Point(lat: real, lng: real, color: string, props: map<string, string>)

  /** One property of a point: the coordinates for `Gps`, the normalised date
      for a field whose name holds `fecha`, else the cell's text, with a
      missing or `null` cell giving `''`. */
  function PropOf(r: Row, f: string, at: Coord, parseDate: string -> Option<int>): string {
    if f == GpsField then ToFixed6(at.lat) + ", " + ToFixed6(at.lng)
    else if JsText.Includes(JsText.Lower(f), "fecha") then NormalizeFecha(Get(r, f), parseDate)
    else if f in r && r[f] != Null then ToText(r[f])
    else ""
  }

  /** The point of one row: its coordinate from `Gps`, its marker colour and
      the wanted properties, each one present. */
  function PointOf(r: Row, colorCol: Option<string>, parseDate: string -> Option<int>): (p: Point)
    ensures Coord(p.lat, p.lng) == ParseGps(Get(r, GpsField))
    ensures p.color == PointColor(r, colorCol)
    ensures p.props.Keys == set f | f in WantedFields
    ensures GpsField in p.props && p.props[GpsField] == ToFixed6(p.lat) + ", " + ToFixed6(p.lng)
    ensures forall f :: f in WantedFields && f != GpsField && JsText.Includes(JsText.Lower(f), "fecha") ==>
              p.props[f] == NormalizeFecha(Get(r, f), parseDate)
    ensures forall f :: f in WantedFields && f != GpsField && !JsText.Includes(JsText.Lower(f), "fecha") ==>
              p.props[f] == (if f in r && r[f] != Null then ToText(r[f]) else "")
  {
    var at := ParseGps(Get(r, GpsField));
    var props := map f | f in WantedFields :: PropOf(r, f, at, parseDate);
    assert GpsField == WantedFields[9];
    assert props[GpsField] == ToFixed6(at.lat) + ", " + ToFixed6(at.lng);
    Point(at.lat, at.lng, PointColor(r, colorCol), props)
  }

  /** The points of a sheet, one per row in row order; the colour column is
      picked once from the keys of the first row (`firstRowKeys`, in column
      order), none for an empty sheet. */
  function PointsOf(rows: seq<Row>, firstRowKeys: seq<string>, parseDate: string -> Option<int>): (ps: seq<Point>)
    ensures |ps| == |rows|
    ensures forall i :: 0 <= i < |rows| ==>
              ps[i] == PointOf(rows[i], if rows == [] then None else PickColorColumn(firstRowKeys), parseDate)
  {
    var colorCol := if rows == [] then None else PickColorColumn(firstRowKeys);
    seq(|rows|, i requires 0 <= i < |rows| => PointOf(rows[i], colorCol, parseDate))
  }
}

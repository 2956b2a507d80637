/** The pure helpers of the map client: reading a `DD/MM/YYYY` request date,
    counting the business days since it, choosing how a marker bounces and
    which colour it has, and reading the user list of the search panel. */
module MapClient {
  import opened Wrappers
  import JsText
  import opened Calendar
  import Sheet
  import Points

  // ---------------------------------------------------------------------------
  // parseDDMMYYYY
  // ---------------------------------------------------------------------------

  /** The characters `parseDDMMYYYY` splits a date text on. */
  const DateSeparators: set<char> := {'/', '-'}

  /** The day, month and year pieces read with `parseInt`, or nothing when
      any of them is `NaN`. */
  function ReadFields(parts: seq<string>): (f: Option<(int, int, int)>)
    requires |parts| >= 3
    ensures f.Some? <==> JsText.ParseInt(JsText.Trim(parts[0])).Some?
                         && JsText.ParseInt(JsText.Trim(parts[1])).Some?
                         && JsText.ParseInt(JsText.Trim(parts[2])).Some?
    ensures f.Some? ==> JsText.ParseInt(JsText.Trim(parts[0])) == Some(f.value.0)
                        && JsText.ParseInt(JsText.Trim(parts[1])) == Some(f.value.1)
                        && JsText.ParseInt(JsText.Trim(parts[2])) == Some(f.value.2)
  {
    var dd := JsText.ParseInt(JsText.Trim(parts[0]));
    var mm := JsText.ParseInt(JsText.Trim(parts[1]));
    var yyyy := JsText.ParseInt(JsText.Trim(parts[2]));
    if dd.None? || mm.None? || yyyy.None? then None
    else Some((dd.value, mm.value, yyyy.value))
  }

  /** `new Date(year, month - 1, day)`, with the month numbered from 1. */
  function NewDate(year: int, month: int, day: int): JsDate {
    MakeDate(year, month - 1, day)
  }

  /** For a month in 1..12 and a year outside 0..99, `NewDate` is the day of
      that calendar date, or the invalid date when that day is out of
      range. */
  lemma NewDateCivil(year: int, month: int, day: int)
    requires 1 <= month <= 12 && !(0 <= year <= 99)
    ensures NewDate(year, month, day) == ClipDay(DaysFromCivil(year, month, day))
  {
    MakeDateCivil(year, month, day);
  }

  /** The date the pieces of a `DD/MM/YYYY` text give: none for fewer than
      three pieces or for a piece that is not a number, otherwise
      `new Date(year, month - 1, day)`, which may still be the invalid date. */
  function DateOfParts(parts: seq<string>): (d: Option<JsDate>)
    ensures |parts| < 3 ==> d.None?
    ensures d.Some? <==> |parts| >= 3 && ReadFields(parts).Some?
    ensures d.Some? ==>
              (|parts| >= 3 &&
               d.value == NewDate(JsText.ParseInt(JsText.Trim(parts[2])).value,
                                  JsText.ParseInt(JsText.Trim(parts[1])).value,
                                  JsText.ParseInt(JsText.Trim(parts[0])).value))
  {
    if |parts| < 3 then None
    else
      match ReadFields(parts)
      case None => None
      case Some((dd, mm, yyyy)) => Some(NewDate(yyyy, mm, dd))
  }

  /** `parseDDMMYYYY`: no date (`null`) for a missing or empty text;
      otherwise the date of its pieces split on `/` or `-`. */
  function ParseDDMMYYYY(s: Option<string>): (d: Option<JsDate>)
    ensures s.None? || s == Some("") ==> d.None?
    ensures s.Some? && s.value != "" ==> d == DateOfParts(JsText.Split(s.value, DateSeparators))
    ensures d.Some? ==> s.Some? && |JsText.Split(s.value, DateSeparators)| >= 3
    ensures (s.Some? && s.value != "" && |JsText.Split(s.value, DateSeparators)| >= 3 &&
             JsText.ParseInt(JsText.Trim(JsText.Split(s.value, DateSeparators)[0])).None?) ==> d.None?
  {
    if s.None? || s.value == "" then None
    else DateOfParts(JsText.Split(s.value, DateSeparators))
  }

  /** A two-digit field of the server's date text, trimmed and read. */
  lemma ReadPad2(n: nat)
    ensures JsText.ParseInt(JsText.Trim(Pad2(n))) == Some(n)
  {
    JsText.ReadNatField(Pad2(n), n);
  }

  /** The pieces of the server's `DD/MM/YYYY` text are its three fields. */
  lemma SplitDateText(z: int)
    requires CivilFromDays(z).year >= 0
    ensures var c := CivilFromDays(z);
            JsText.Split(ToDateString(Valid(z)), DateSeparators) == [Pad2(c.day), Pad2(c.month), JsText.NatText(c.year)]
  {
    var c := CivilFromDays(z);
    var dd, mm, yy := Pad2(c.day), Pad2(c.month), JsText.NatText(c.year);
    var seps := DateSeparators;
    assert JsText.NoSep(dd, seps) && JsText.NoSep(mm, seps) && JsText.NoSep(yy, seps);
    assert ToDateString(Valid(z)) == dd + ['/'] + (mm + ['/'] + yy);
    JsText.SplitAt(dd, '/', mm + ['/'] + yy, seps);
    JsText.SplitAt(mm, '/', yy, seps);
    JsText.SplitNoSep(yy, seps);
  }

  /** The first three pieces, when they read as numbers, are the day, month
      and year of the date `parseDDMMYYYY` builds, whatever follows them. */
  lemma ReadDateFields(parts: seq<string>, dd: int, mm: int, yyyy: int)
    requires |parts| >= 3
    requires JsText.ParseInt(JsText.Trim(parts[0])) == Some(dd)
    requires JsText.ParseInt(JsText.Trim(parts[1])) == Some(mm)
    requires JsText.ParseInt(JsText.Trim(parts[2])) == Some(yyyy)
    ensures DateOfParts(parts) == Some(NewDate(yyyy, mm, dd))
  {
    assert ReadFields(parts) == Some((dd, mm, yyyy));
  }

  /** A text whose pieces are `a`, `b`, `c` reads as the date of those
      pieces. */
  lemma ParseOfPieces(text: string, a: string, b: string, c: string)
    requires JsText.Split(text, DateSeparators) == [a, b, c]
    ensures ParseDDMMYYYY(Some(text)) == DateOfParts([a, b, c])
  {
  }

  /** The fields of a calendar date, written as the server writes them,
      read back as numbers. */
  lemma ServerFields(y: nat, m: nat, d: nat)
    ensures ReadFields([Pad2(d), Pad2(m), JsText.NatText(y)]) == Some((d, m, y))
  {
    ReadPad2(d);
    ReadPad2(m);
    JsText.ReadNatField(JsText.NatText(y), y);
  }

  /** The fields of a calendar date, written as the server writes them,
      read back as `new Date` of those fields. */
  lemma FieldsDate(y: nat, m: nat, d: nat)
    ensures DateOfParts([Pad2(d), Pad2(m), JsText.NatText(y)]) == Some(NewDate(y, m, d))
  {
    ServerFields(y, m, d);
  }

  /** The fields of the server's date text give back the day they were
      written from. */
  lemma PiecesDate(z: int)
    requires -MaxDay <= z <= MaxDay
    requires CivilFromDays(z).year >= 100
    ensures var c := CivilFromDays(z);
            DateOfParts([Pad2(c.day), Pad2(c.month), JsText.NatText(c.year)]) == Some(Valid(z))
  {
    var c := CivilFromDays(z);
    FieldsDate(c.year, c.month, c.day);
    NewDateCivil(c.year, c.month, c.day);
    CivilRoundTrip(z);
  }

  /** The date the server writes (`DD/MM/YYYY`) reads back in the client as
      the same day, for a year from 100 on (a year below 100 would be read as
      19YY by `new Date`). */
  lemma DateTextRoundTrip(z: int)
    requires -MaxDay <= z <= MaxDay
    requires CivilFromDays(z).year >= 100
    ensures ParseDDMMYYYY(Some(ToDateString(Valid(z)))) == Some(Valid(z))
  {
    var c := CivilFromDays(z);
    SplitDateText(z);
    ParseOfPieces(ToDateString(Valid(z)), Pad2(c.day), Pad2(c.month), JsText.NatText(c.year));
    PiecesDate(z);
  }

  /** `parseInt('NaN', 10)` is `NaN`. */
  lemma ReadNaN()
    ensures JsText.ParseInt(JsText.Trim("NaN")).None?
  {
    JsText.TrimOfTrimmed("NaN");
    assert JsText.TrimStart("NaN") == "NaN";
    assert JsText.DigitPrefix("NaN") == [];
  }

  /** The server's text for an invalid date reads as no date. */
  lemma InvalidDateTextIsNoDate()
    ensures ParseDDMMYYYY(Some(ToDateString(Invalid))) == None
  {
    var seps := DateSeparators;
    var nan := "NaN";
    assert JsText.NoSep(nan, seps);
    JsText.SplitAt(nan, '/', nan + ['/'] + nan, seps);
    assert ToDateString(Invalid) == nan + ['/'] + (nan + ['/'] + nan);
    assert JsText.Split(ToDateString(Invalid), seps)[0] == nan;
    ReadNaN();
  }

  // ---------------------------------------------------------------------------
  // businessDaysBetween
  // ---------------------------------------------------------------------------

  predicate IsWeekday(z: int) {
    Weekday(z) != 0 && Weekday(z) != 6
  }

  /** The number of Monday-to-Friday days from `s` to `e`, both included. */
  function WeekdaysIn(s: int, e: int): (n: nat)
    decreases e - s
  {
    if s > e then 0 else WeekdaysIn(s, e - 1) + (if IsWeekday(e) then 1 else 0)
  }

  /** `new Date(d.getFullYear(), d.getMonth(), d.getDate())`: the start of the
      day, rebuilt from its calendar fields. */
  function StartOfDay(d: JsDate): (r: JsDate)
    ensures d.Invalid? ==> r.Invalid?
  {
    match d
    case Invalid => Invalid
    case Valid(z) =>
      var c := CivilFromDays(z);
      MakeDate(c.year, c.month - 1, c.day)
  }

  /** Rebuilding a day from its calendar fields gives the same day, for any
      year outside 0..99. */
  lemma StartOfDayKeeps(z: int)
    requires -MaxDay <= z <= MaxDay
    requires !(0 <= CivilFromDays(z).year <= 99)
    ensures StartOfDay(Valid(z)) == Valid(z)
  {
    var c := CivilFromDays(z);
    MakeDateCivil(c.year, c.month, c.day);
    CivilRoundTrip(z);
  }

  /** What `businessDaysBetween` returns: 0 when either date is missing, or
      when, once both are taken to the start of their day, the start is after
      the end (an invalid date compares false with everything, so it gives 0
      as well); otherwise one less than the number of weekdays in the range,
      never below 0. */
  function BusinessDays(start: Option<JsDate>, end: Option<JsDate>): nat {
    if start.None? || end.None? then 0
    else
      match (StartOfDay(start.value), StartOfDay(end.value))
      case (Valid(s), Valid(e)) =>
        if s > e then 0
        else if WeekdaysIn(s, e) >= 1 then WeekdaysIn(s, e) - 1 else 0
      case _ => 0
  }

  /** The loop of `businessDaysBetween`: it walks the days from `s` to `e`,
      counting those that are neither a Sunday nor a Saturday. */
  method CountWeekdays(s: int, e: int) returns (count: nat)
    requires s <= e
    ensures count == WeekdaysIn(s, e)
  {
    count := 0;
    var d := s;
    while d <= e
      invariant s <= d <= e + 1
      invariant count == WeekdaysIn(s, d - 1)
      decreases e - d
    {
      if Weekday(d) != 0 && Weekday(d) != 6 {
        count := count + 1;
      }
      d := d + 1;
    }
  }

  /** `businessDaysBetween`: both dates taken to the start of their day, then
      the weekdays between them counted, less one. */
  method BusinessDaysBetween(start: Option<JsDate>, end: Option<JsDate>) returns (n: nat)
    ensures n == BusinessDays(start, end)
  {
    if start.None? || end.None? {
      return 0;
    }
    var sd, ed := StartOfDay(start.value), StartOfDay(end.value);
    if sd.Invalid? || ed.Invalid? {
      return 0;
    }
    var s, e := sd.day, ed.day;
    if s > e {
      return 0;
    }
    var count := CountWeekdays(s, e);
    n := if count >= 1 then count - 1 else 0;
  }

  /** There are no more weekdays in a range than days. */
  lemma {:induction false} WeekdaysInBound(s: int, e: int)
    ensures WeekdaysIn(s, e) <= if s > e then 0 else e - s + 1
    decreases e - s
  {
    if s <= e {
      WeekdaysInBound(s, e - 1);
    }
  }

  /** The weekday `k` days on. */
  lemma WeekdayAfter(s: int, k: nat)
    ensures Weekday(s + k) == (Weekday(s) + k) % 7
  {
  }

  /** Any seven days in a row hold five weekdays. */
  lemma {:induction false} WeekdaysInAWeek(s: int)
    ensures WeekdaysIn(s, s + 6) == 5
  {
    WeekdayAfter(s, 1);
    WeekdayAfter(s, 2);
    WeekdayAfter(s, 3);
    WeekdayAfter(s, 4);
    WeekdayAfter(s, 5);
    WeekdayAfter(s, 6);
    var w := Weekday(s);
    var n0 := if IsWeekday(s) then 1 else 0;
    var n1 := n0 + (if IsWeekday(s + 1) then 1 else 0);
    var n2 := n1 + (if IsWeekday(s + 2) then 1 else 0);
    var n3 := n2 + (if IsWeekday(s + 3) then 1 else 0);
    var n4 := n3 + (if IsWeekday(s + 4) then 1 else 0);
    var n5 := n4 + (if IsWeekday(s + 5) then 1 else 0);
    var n6 := n5 + (if IsWeekday(s + 6) then 1 else 0);
    assert n6 == 5;
    assert WeekdaysIn(s, s - 1) == 0;
    assert WeekdaysIn(s, s) == n0;
    assert WeekdaysIn(s, s + 1) == n1;
    assert WeekdaysIn(s, s + 2) == n2;
    assert WeekdaysIn(s, s + 3) == n3;
    assert WeekdaysIn(s, s + 4) == n4;
    assert WeekdaysIn(s, s + 5) == n5;
  }

  /** A request made today has no business days behind it. */
  lemma SameDayIsZero(d: JsDate)
    ensures BusinessDays(Some(d), Some(d)) == 0
  {
    match StartOfDay(d) {
      case Invalid =>
      case Valid(z) =>
        assert WeekdaysIn(z, z) == WeekdaysIn(z, z - 1) + (if IsWeekday(z) then 1 else 0);
        assert WeekdaysIn(z, z - 1) == 0;
    }
  }

  /** Never more business days than days between the two dates. */
  lemma BusinessDaysBound(s: int, e: int)
    requires s <= e
    requires StartOfDay(Valid(s)) == Valid(s) && StartOfDay(Valid(e)) == Valid(e)
    ensures BusinessDays(Some(Valid(s)), Some(Valid(e))) <= e - s
  {
    WeekdaysInBound(s, e);
  }

  // ---------------------------------------------------------------------------
  // the marker of a point
  // ---------------------------------------------------------------------------

  /** How a marker bounces for the business days since its request date. */
  function BounceClass(bdays: int): (c: string)
    ensures c == "pin-bounce-fast" <==> bdays >= 3
    ensures c == "pin-bounce-slow" <==> bdays == 2
    ensures c == "" <==> bdays < 2
  {
    if bdays >= 3 then "pin-bounce-fast" else if bdays >= 2 then "pin-bounce-slow" else ""
  }

  const FallbackColor: string := "#28a745"

  /** The marker colour: the point's `color` as it is when it is a string
      that is not blank, else the green fallback. */
  function MarkerColor(color: Option<Sheet.Value>): (c: string)
    ensures color.Some? && color.value.Text? && JsText.Trim(color.value.s) != "" ==> c == color.value.s
    ensures !(color.Some? && color.value.Text? && JsText.Trim(color.value.s) != "") ==> c == FallbackColor
  {
    if color.Some? && color.value.Text? && JsText.Trim(color.value.s) != "" then color.value.s else FallbackColor
  }

  /** The client draws every point in the colour the server chose for it: the
      server never sends a blank colour, so the fallback never replaces it. */
  lemma MarkerKeepsPointColor(r: Sheet.Row, colorCol: Option<string>)
    ensures MarkerColor(Some(Sheet.Text(Points.PointColor(r, colorCol)))) == Points.PointColor(r, colorCol)
  {
  }

  // ---------------------------------------------------------------------------
  // searchUsers
  // ---------------------------------------------------------------------------

  /** What the user list reads as: nothing typed, no user in it, or the users. */
  datatype UserList = EmptyInput | NoValidUsers | Users(names: seq<string>)

  /** The non-empty strings of a list, in order. */
  function NonEmpty(xs: seq<string>): (r: seq<string>)
    ensures |r| <= |xs|
    ensures multiset(r) == multiset(xs)["" := 0]
    ensures forall i :: 0 <= i < |r| ==> r[i] != "" && r[i] in xs
    ensures forall x :: x in xs && x != "" ==> x in r
    ensures |xs| >= 1 && xs[0] != "" ==> r != [] && r[0] == xs[0]
  {
    if xs == [] then []
    else
      assert xs == [xs[0]] + xs[1..];
      if xs[0] == "" then NonEmpty(xs[1..])
      else [xs[0]] + NonEmpty(xs[1..])
  }

  /** Filtering a concatenation filters each part and keeps them in order. */
  lemma {:induction false} NonEmptyAppend(a: seq<string>, b: seq<string>)
    ensures NonEmpty(a + b) == NonEmpty(a) + NonEmpty(b)
  {
    if a != [] {
      assert (a + b)[1..] == a[1..] + b;
      NonEmptyAppend(a[1..], b);
    } else {
      assert a + b == b;
    }
  }

  /** A single string is kept exactly when it is not empty. */
  lemma NonEmptySingle(x: string)
    ensures NonEmpty([x]) == if x == "" then [] else [x]
  {
    assert [x][1..] == [];
  }

  /** Every string of a list, trimmed. */
  function TrimAll(xs: seq<string>): (r: seq<string>)
    ensures |r| == |xs|
    ensures forall i :: 0 <= i < |xs| ==> r[i] == JsText.Trim(xs[i])
  {
    seq(|xs|, i requires 0 <= i < |xs| => JsText.Trim(xs[i]))
  }

  /** The search panel splits its text on line breaks. */
  const LineBreak: set<char> := {'\n'}

  /** The non-empty lines, trimmed, are trimmed. */
  lemma TrimmedLines(lines: seq<string>)
    ensures var users := NonEmpty(TrimAll(lines));
            forall i :: 0 <= i < |users| ==> JsText.Trim(users[i]) == users[i]
  {
    var trimmed := TrimAll(lines);
    var users := NonEmpty(trimmed);
    forall i | 0 <= i < |users| ensures JsText.Trim(users[i]) == users[i] {
      assert users[i] in trimmed;
      var j :| 0 <= j < |trimmed| && trimmed[j] == users[i];
      assert trimmed[j] == JsText.Trim(lines[j]);
      JsText.TrimIdempotent(lines[j]);
    }
  }

  /** The users of the search panel: the trimmed text split on line breaks,
      each line trimmed, the empty ones dropped, in the order typed. */
  function ParseUsers(text: string): (u: UserList)
    ensures u == EmptyInput <==> JsText.Trim(text) == ""
    ensures u.Users? ==> u.names == NonEmpty(TrimAll(JsText.Split(JsText.Trim(text), LineBreak)))
    ensures u.Users? ==> forall i :: 0 <= i < |u.names| ==>
              u.names[i] != "" && JsText.Trim(u.names[i]) == u.names[i]
  {
    var t := JsText.Trim(text);
    if t == "" then EmptyInput
    else
      var users := NonEmpty(TrimAll(JsText.Split(t, LineBreak)));
      TrimmedLines(JsText.Split(t, LineBreak));
      if |users| == 0 then NoValidUsers else Users(users)
  }

  /** The "no valid users" alert cannot show: text that is not blank once
      trimmed starts with a line that is not blank, so at least one user is
      read. The first user is that first line, trimmed. */
  lemma {:induction false} NoValidUsersUnreachable(text: string)
    ensures ParseUsers(text) != NoValidUsers
    ensures ParseUsers(text).Users? ==>
              ParseUsers(text).names[0] == JsText.Trim(JsText.Split(JsText.Trim(text), LineBreak)[0])
  {
    var t := JsText.Trim(text);
    if t != "" {
      var parts := JsText.Split(t, LineBreak);
      assert !JsText.IsSpace(t[0]) && t[0] != '\n';
      assert parts[0] != [] && parts[0][0] == t[0];
      JsText.TrimEmptyIff(parts[0]);
      assert TrimAll(parts)[0] != "";
    }
  }
}

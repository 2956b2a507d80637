/** Dates as day numbers: day 0 is 1970-01-01, a Thursday. The server and the
    client both reduce a JavaScript `Date` to the calendar day it falls on, so a
    day number is what the model keeps; a `Date` whose time value is out of the
    representable range is the invalid date. */
module Calendar {
  import opened Wrappers
  import JsText

  /** A proleptic Gregorian calendar date. */
  datatype Civil = Civil(year: int, month: int, day: int)

  /** A JavaScript `Date` reduced to its day: a day number, or the invalid date
      (`getTime()` is `NaN`). */
  datatype JsDate = Valid(day: int) | Invalid

  /** The largest day a `Date` can hold: 8.64e15 ms is 100,000,000 days. */
  const MaxDay: int := 100000000

  /** `Date.prototype.getDay()`: 0 is Sunday and 6 is Saturday. */
  function Weekday(z: int): (w: int)
    ensures 0 <= w < 7
    ensures z == 0 ==> w == 4
  {
    (z + 4) % 7
  }

  /** Days from 1970-01-01 to the given date, counting March-based years in
      400-year eras. `d` may run past the end of the month: it just counts on. */
  function DaysFromCivil(y: int, m: int, d: int): int
    requires 1 <= m <= 12
  {
    var y' := if m <= 2 then y - 1 else y;
    var era := y' / 400;
    var yoe := y' - era * 400;
    var mp := (m + 9) % 12;
    var doy := (153 * mp + 2) / 5 + d - 1;
    var doe := yoe * 365 + yoe / 4 - yoe / 100 + doy;
    era * 146097 + doe - 719468
  }

  /** The day of a month is an offset from its first day. */
  lemma DaysFromCivilOffset(y: int, m: int, d: int)
    requires 1 <= m <= 12
    ensures DaysFromCivil(y, m, d) == DaysFromCivil(y, m, 1) + d - 1
  {
  }

  /** The year of a 400-year era (0..399) and the day of that March-based
      year (0..365) for a day of the era: centuries of 36524 days (the last one
      a day longer), four-year cycles of 1461 days and years of 365 days (the
      last one of a cycle a day longer, so that the leap day comes last). */
  function SplitEraDay(doe: int): (p: (int, int))
    requires 0 <= doe < 146097
    ensures 0 <= p.0 < 400 && 0 <= p.1 <= 365
    ensures doe == p.0 * 365 + p.0 / 4 - p.0 / 100 + p.1
    ensures p.1 == 365 ==> LeapOfEra(p.0)
  {
    var cent := if doe / 36524 < 3 then doe / 36524 else 3;
    var r := doe - 36524 * cent;
    assert 0 <= r <= 36524;
    var quad := r / 1461;
    var r2 := r % 1461;
    assert 0 <= quad <= 24 && r == 1461 * quad + r2;
    var yr := if r2 / 365 < 3 then r2 / 365 else 3;
    var doy := r2 - 365 * yr;
    var yoe := 100 * cent + 4 * quad + yr;
    assert yoe == 4 * (25 * cent + quad) + yr && yoe / 4 == 25 * cent + quad;
    assert yoe == 100 * cent + (4 * quad + yr) && yoe / 100 == cent;
    assert doy == 365 ==> yr == 3 && r2 == 1460;
    assert doy == 365 ==> quad < 24 || cent == 3;
    (yoe, doy)
  }

  /** The Gregorian leap rule: every fourth year, but not a century year
      unless it is a multiple of 400. */
  predicate LeapYear(y: int) {
    y % 4 == 0 && (y % 100 != 0 || y % 400 == 0)
  }

  /** The length of a month of a year. */
  function DaysInMonth(y: int, m: int): (n: int)
    requires 1 <= m <= 12
    ensures 28 <= n <= 31
    ensures n == 29 <==> m == 2 && LeapYear(y)
  {
    if m == 2 then (if LeapYear(y) then 29 else 28)
    else if m == 4 || m == 6 || m == 9 || m == 11 then 30
    else 31
  }

  /** The March-based year `yoe` of a 400-year era ends with a February 29:
      the civil year `yoe + 1` of the era is a leap year. */
  predicate LeapOfEra(yoe: int) {
    (yoe + 1) % 4 == 0 && ((yoe + 1) % 100 != 0 || yoe == 399)
  }

  /** Whole eras do not change whether a year is a leap year. */
  lemma LeapYearOfEra(era: int, yoe: int)
    requires 0 <= yoe < 400
    ensures LeapYear(era * 400 + yoe + 1) <==> LeapOfEra(yoe)
  {
    ErasKeepRemainders(era, yoe + 1);
  }

  /** Adding whole eras of 400 years keeps the remainders by 4, 100 and
      400. */
  lemma ErasKeepRemainders(era: int, a: int)
    ensures (era * 400 + a) % 4 == a % 4
    ensures (era * 400 + a) % 100 == a % 100
    ensures (era * 400 + a) % 400 == a % 400
  {
    Shift4(era * 400 + a, era * 100, a);
    Shift100(era * 400 + a, era * 4, a);
    Shift400(era * 400 + a, era, a);
  }

  lemma Shift4(y: int, q: int, a: int)
    requires y == 4 * q + a
    ensures y % 4 == a % 4
  {
  }

  lemma Shift100(y: int, q: int, a: int)
    requires y == 100 * q + a
    ensures y % 100 == a % 100
  {
  }

  lemma Shift400(y: int, q: int, a: int)
    requires y == 400 * q + a
    ensures y % 400 == a % 400
  {
  }

  /** The month (0 is March) and the 1-based day of a day of a March-based
      year; months follow the 31, 30, 31, 30, 31 pattern of 153 days. */
  function SplitYearDay(doy: int): (p: (int, int))
    requires 0 <= doy <= 365
    ensures 0 <= p.0 <= 11 && 1 <= p.1 <= 31
    ensures doy == (153 * p.0 + 2) / 5 + p.1 - 1
    ensures p.0 < 11 ==> p.1 <= MarchMonthDays(p.0)
    ensures p.0 == 11 ==> p.1 == doy - 336
  {
    var mp := (5 * doy + 2) / 153;
    var d := doy - (153 * mp + 2) / 5 + 1;
    assert 153 * mp <= 5 * doy + 2 < 153 * mp + 153;
    (mp, d)
  }

  /** The lengths of the months of a March-based year, from March (0) to
      January (10); February (11) is the rest of the year. */
  function MarchMonthDays(mp: int): int {
    if mp == 1 || mp == 3 || mp == 6 || mp == 8 then 30 else 31
  }

  /** The calendar date of a day number (what `getUTCFullYear`, `getUTCMonth`
      and `getUTCDate` read off a `Date`). */
  function CivilFromDays(z: int): (c: Civil)
    ensures 1 <= c.month <= 12 && 1 <= c.day <= DaysInMonth(c.year, c.month)
  {
    var zz := z + 719468;
    var (yoe, doy) := SplitEraDay(zz % 146097);
    var (mp, d) := SplitYearDay(doy);
    LeapYearOfEra(zz / 146097, yoe);
    CivilOfEra(zz / 146097, yoe, mp, d)
  }

  /** The date of a March-based month and day of a year of a 400-year era. */
  function CivilOfEra(era: int, yoe: int, mp: int, d: int): (c: Civil)
    requires 0 <= mp <= 11 && 1 <= d <= 31
    ensures 1 <= c.month <= 12 && 1 <= c.day
    ensures mp < 11 && d <= MarchMonthDays(mp) ==> c.day <= DaysInMonth(c.year, c.month)
    ensures mp == 11 && (d <= 28 || (d == 29 && LeapYear(era * 400 + yoe + 1))) ==>
              c.day <= DaysInMonth(c.year, c.month)
  {
    var m := if mp < 10 then mp + 3 else mp - 9;
    Civil(yoe + era * 400 + (if m <= 2 then 1 else 0), m, d)
  }

  /** `DaysFromCivil` of a date given by its era, year of era, March-based
      month and day. */
  lemma DaysFromCivilByEra(era: int, yoe: int, mp: int, d: int)
    requires 0 <= yoe < 400 && 0 <= mp <= 11 && 1 <= d <= 31
    ensures var c := CivilOfEra(era, yoe, mp, d);
            DaysFromCivil(c.year, c.month, c.day)
              == era * 146097 + yoe * 365 + yoe / 4 - yoe / 100 + (153 * mp + 2) / 5 + d - 1 - 719468
  {
    var m := if mp < 10 then mp + 3 else mp - 9;
    assert (m + 9) % 12 == mp;
    var y' := era * 400 + yoe;
    assert y' / 400 == era;
  }

  /** Converting a day number to a calendar date and back gives the same day. */
  lemma CivilRoundTrip(z: int)
    ensures var c := CivilFromDays(z); DaysFromCivil(c.year, c.month, c.day) == z
  {
    var zz := z + 719468;
    var era := zz / 146097;
    var doe := zz % 146097;
    assert zz == era * 146097 + doe;
    var (yoe, doy) := SplitEraDay(doe);
    var (mp, d) := SplitYearDay(doy);
    assert CivilFromDays(z) == CivilOfEra(era, yoe, mp, d);
    DaysFromCivilByEra(era, yoe, mp, d);
  }

  /** The day number of a valid time value, or the invalid date (`TimeClip`). */
  function ClipDay(z: int): (d: JsDate)
    ensures d.Valid? <==> -MaxDay <= z <= MaxDay
    ensures d.Valid? ==> d.day == z
  {
    if -MaxDay <= z <= MaxDay then Valid(z) else Invalid
  }

  /** `new Date(year, monthIndex, day)`: a year from 0 to 99 means 1900 to
      1999, the month index is 0-based and may run outside 0..11 (it carries
      into the year), the day may run outside the month (it counts on from the
      first), and a result out of range is the invalid date. */
  function MakeDate(year: int, monthIndex: int, day: int): JsDate {
    var y := if 0 <= year <= 99 then 1900 + year else year;
    var ym := y + monthIndex / 12;
    var mn := monthIndex % 12;
    ClipDay(DaysFromCivil(ym, mn + 1, 1) + day - 1)
  }

  /** For a year outside 0..99 and an in-range month, `new Date(y, m - 1, d)`
      is day `DaysFromCivil(y, m, d)`. */
  lemma MakeDateCivil(y: int, m: int, d: int)
    requires !(0 <= y <= 99) && 1 <= m <= 12
    ensures MakeDate(y, m - 1, d) == ClipDay(DaysFromCivil(y, m, d))
  {
    assert (m - 1) / 12 == 0 && (m - 1) % 12 == m - 1;
    DaysFromCivilOffset(y, m, d);
  }

  /** `String(n).padStart(2, '0')`. */
  function Pad2(n: nat): (s: string)
    ensures JsText.AllDigits(s) && |s| >= 2
    ensures n < 100 ==> |s| == 2
    ensures n < 10 ==> s == "0" + JsText.NatText(n)
    ensures n >= 10 ==> s == JsText.NatText(n)
  {
    var t := JsText.NatText(n);
    if |t| < 2 then "0" + t else t
  }

  /** `toDateString` in the server: `DD/MM/YYYY` from the UTC day, month and
      year (the year is not padded); an invalid date prints `NaN/NaN/NaN`. */
  function ToDateString(d: JsDate): (s: string)
    ensures d.Invalid? ==> s == "NaN/NaN/NaN"
    ensures d.Valid? ==> |s| >= 7 && s[2] == '/' && s[5] == '/'
    ensures d.Valid? ==> JsText.AllDigits(s[..2]) && JsText.AllDigits(s[3..5])
    ensures d.Valid? ==> var c := CivilFromDays(d.day);
                         s == Pad2(c.day) + "/" + Pad2(c.month) + "/" + JsText.IntText(c.year)
  {
    match d
    case Invalid => "NaN/NaN/NaN"
    case Valid(z) =>
      var c := CivilFromDays(z);
      var dd, mm := Pad2(c.day), Pad2(c.month);
      assert |dd| == 2 && |mm| == 2;
      var s := dd + "/" + mm + "/" + JsText.IntText(c.year);
      assert s[..2] == dd && s[2] == '/' && s[3..5] == mm && s[5] == '/';
      s
  }
}

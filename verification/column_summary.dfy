/** The `/files/:filename/column-summary` handler: every row's cell in one
    column is normalised (read as a date when the column name mentions a date),
    trimmed and counted when not blank, and the counts are listed by count
    descending, ties by value ascending. */
module ColumnSummary {
  import opened Wrappers
  import JsText
  import Calendar
  import opened Sheet
  import PlainObject

  datatype Entry = Entry(value: string, count: nat)

  // ---------------------------------------------------------------------------
  // the key of one cell
  // ---------------------------------------------------------------------------

  /** `/fecha|date/i.test(column)`. */
  predicate IsDateColumn(column: string) {
    JsText.Includes(JsText.Lower(column), "fecha") || JsText.Includes(JsText.Lower(column), "date")
  }

  /** normalizeValue: outside a date column a cell is kept as it is; in a date
      column a cell that reads as a date (`CellDate`) becomes its `DD/MM/YYYY`
      text and any other cell is kept as it is. */
  function Normalize(v: Option<Value>, isDate: bool, parseDate: string -> Option<int>): (n: Option<Value>)
    ensures !isDate || CellDate(v, parseDate).None? ==> n == v
    ensures isDate && CellDate(v, parseDate).Some? ==>
              n == Some(Text(Calendar.ToDateString(CellDate(v, parseDate).value)))
  {
    if !isDate then v
    else
      match CellDate(v, parseDate)
      case Some(d) => Some(Text(Calendar.ToDateString(d)))
      case None => v
  }


  /** The key a cell is counted under: the trimmed text of its normalised
      value; `None` (not counted) for a missing or `null` value or a blank
      text. */
  function KeyOf(v: Option<Value>, isDate: bool, parseDate: string -> Option<int>): (k: Option<string>)
    ensures k.Some? ==> k.value != "" && JsText.Trim(k.value) == k.value
    ensures var n := Normalize(v, isDate, parseDate);
            k.Some? <==> n.Some? && n.value != Null && JsText.Trim(ToText(n.value)) != ""
    ensures k.Some? ==> k.value == JsText.Trim(ToText(Normalize(v, isDate, parseDate).value))
  {
    var n := Normalize(v, isDate, parseDate);
    if n.None? || n.value.Null? then None
    else
      var key := JsText.Trim(ToText(n.value));
      JsText.TrimIdempotent(ToText(n.value));
      if key == "" then None else Some(key)
  }

  /** The key of every row, in row order. */
  function KeysOf(rows: seq<Row>, column: string, parseDate: string -> Option<int>): (ks: seq<Option<string>>)
    ensures |ks| == |rows|
    ensures forall i :: 0 <= i < |rows| ==> ks[i] == KeyOf(Get(rows[i], column), IsDateColumn(column), parseDate)
    ensures WellFormedKeys(ks)
  {
    seq(|rows|, i requires 0 <= i < |rows| => KeyOf(Get(rows[i], column), IsDateColumn(column), parseDate))
  }

  /** Every counted key is a non-empty trimmed string. */
  predicate WellFormedKeys(ks: seq<Option<string>>) {
    forall i :: 0 <= i < |ks| && ks[i].Some? ==> ks[i].value != "" && JsText.Trim(ks[i].value) == ks[i].value
  }

  /** How many cells are counted under `k`. */
  function Occ(ks: seq<Option<string>>, k: string): (n: nat)
    ensures n <= |ks|
  {
    if ks == [] then 0
    else Occ(ks[..|ks| - 1], k) + (if ks[|ks| - 1] == Some(k) then 1 else 0)
  }

  /** How many cells are counted at all. */
  function Present(ks: seq<Option<string>>): (n: nat)
    ensures n <= |ks|
  {
    if ks == [] then 0
    else Present(ks[..|ks| - 1]) + (if ks[|ks| - 1].Some? then 1 else 0)
  }

  /** The cells counted under `k`, by position. */
  function OccCells(ks: seq<Option<string>>, k: string): set<nat> {
    set i: nat | i < |ks| && ks[i] == Some(k)
  }

  /** `Occ` counts exactly the cells that hold `k`. */
  lemma {:induction false} OccIsCardinality(ks: seq<Option<string>>, k: string)
    ensures Occ(ks, k) == |OccCells(ks, k)|
  {
    if ks != [] {
      var n := |ks| - 1;
      OccIsCardinality(ks[..n], k);
      assert OccCells(ks, k) == OccCells(ks[..n], k) + (if ks[n] == Some(k) then {n} else {});
      assert n !in OccCells(ks[..n], k);
    }
  }

  /** A key is counted at least once exactly when some cell has it. */
  lemma {:induction false} OccPositive(ks: seq<Option<string>>, k: string)
    ensures Occ(ks, k) >= 1 <==> exists i :: 0 <= i < |ks| && ks[i] == Some(k)
  {
    if ks != [] {
      var p := ks[..|ks| - 1];
      OccPositive(p, k);
      if exists i :: 0 <= i < |p| && p[i] == Some(k) {
        var i :| 0 <= i < |p| && p[i] == Some(k);
        assert ks[i] == Some(k);
      }
      if exists i :: 0 <= i < |ks| && ks[i] == Some(k) {
        var i :| 0 <= i < |ks| && ks[i] == Some(k);
        if i < |p| {
          assert p[i] == Some(k);
        }
      }
    }
  }

  // ---------------------------------------------------------------------------
  // counting
  // ---------------------------------------------------------------------------

  predicate Distinct(order: seq<string>) {
    forall i, j :: 0 <= i < j < |order| ==> order[i] != order[j]
  }

  /** The counts of the keys in `order`, added up. */
  function SumOver(order: seq<string>, counts: map<string, nat>): nat
    requires forall k :: k in order ==> k in counts
  {
    if order == [] then 0
    else SumOver(order[..|order| - 1], counts) + counts[order[|order| - 1]]
  }

  /** Changing the count of a key outside `order` does not change the sum. */
  lemma {:induction false} SumOverFrame(order: seq<string>, counts: map<string, nat>, k: string, c: nat)
    requires forall x :: x in order ==> x in counts
    requires k !in order
    ensures SumOver(order, counts[k := c]) == SumOver(order, counts)
  {
    if order != [] {
      SumOverFrame(order[..|order| - 1], counts, k, c);
    }
  }

  /** Adding one to the count of a key of `order` adds one to the sum. */
  lemma {:induction false} SumOverBump(order: seq<string>, counts: map<string, nat>, k: string)
    requires forall x :: x in order ==> x in counts
    requires Distinct(order) && k in order
    ensures SumOver(order, counts[k := counts[k] + 1]) == SumOver(order, counts) + 1
  {
    var p := order[..|order| - 1];
    var last := order[|order| - 1];
    if last == k {
      forall i | 0 <= i < |p| ensures p[i] != k {
        assert p[i] == order[i];
      }
      SumOverFrame(p, counts, k, counts[k] + 1);
    } else {
      assert k in p by {
        var i :| 0 <= i < |order| && order[i] == k;
        assert i < |p| && p[i] == k;
      }
      SumOverBump(p, counts, k);
    }
  }

  /** What the handler's `counts` object holds after the cells `ks`: every
      key seen, once in `order`, with the number of cells that have it. */
  ghost predicate Tallied(ks: seq<Option<string>>, order: seq<string>, counts: map<string, nat>) {
    && Distinct(order)
    && (forall k :: k in counts <==> k in order)
    && (forall k :: k in counts ==> counts[k] == Occ(ks, k) && counts[k] >= 1)
    && (forall j :: 0 <= j < |ks| && ks[j].Some? ==> ks[j].value in counts)
    && SumOver(order, counts) == Present(ks)
  }

  /** A blank or missing cell changes nothing. */
  lemma TallySkip(ks: seq<Option<string>>, order: seq<string>, counts: map<string, nat>)
    requires Tallied(ks, order, counts)
    ensures Tallied(ks + [None], order, counts)
  {
    var ks' := ks + [None];
    assert ks'[..|ks|] == ks;
    forall j | 0 <= j < |ks'| && ks'[j].Some? ensures ks'[j].value in counts {
      assert j < |ks| && ks'[j] == ks[j];
    }
  }

  /** `counts[key] = (counts[key] || 0) + 1` for a key already seen. */
  lemma TallyAgain(ks: seq<Option<string>>, order: seq<string>, counts: map<string, nat>, key: string)
    requires Tallied(ks, order, counts) && key in counts
    ensures Tallied(ks + [Some(key)], order, counts[key := counts[key] + 1])
  {
    var ks' := ks + [Some(key)];
    var counts' := counts[key := counts[key] + 1];
    assert ks'[..|ks|] == ks;
    SumOverBump(order, counts, key);
    forall k | k in counts' ensures counts'[k] == Occ(ks', k) && counts'[k] >= 1 {
      assert Occ(ks', k) == Occ(ks, k) + (if k == key then 1 else 0);
    }
    forall j | 0 <= j < |ks'| && ks'[j].Some? ensures ks'[j].value in counts' {
      if j < |ks| {
        assert ks'[j] == ks[j];
      }
    }
  }

  /** `counts[key] = (counts[key] || 0) + 1` for a key not seen before. */
  lemma TallyNew(ks: seq<Option<string>>, order: seq<string>, counts: map<string, nat>, key: string)
    requires Tallied(ks, order, counts) && key !in counts
    ensures Tallied(ks + [Some(key)], order + [key], counts[key := 1])
  {
    var ks' := ks + [Some(key)];
    var order' := order + [key];
    var counts' := counts[key := 1];
    assert ks'[..|ks|] == ks;
    forall j | 0 <= j < |ks| ensures ks[j] != Some(key) {
      if ks[j].Some? {
        assert ks[j].value in counts;
      }
    }
    OccPositive(ks, key);
    SumOverFrame(order, counts, key, 1);
    assert order'[..|order|] == order;
    assert SumOver(order', counts') == SumOver(order, counts') + 1;
    forall k | k in counts' ensures counts'[k] == Occ(ks', k) && counts'[k] >= 1 {
      assert Occ(ks', k) == Occ(ks, k) + (if k == key then 1 else 0);
    }
    forall j | 0 <= j < |ks'| && ks'[j].Some? ensures ks'[j].value in counts' {
      if j < |ks| {
        assert ks'[j] == ks[j];
      }
    }
    forall i, j | 0 <= i < j < |order'| ensures order'[i] != order'[j] {
      if j == |order| {
        assert order'[i] == order[i] && order[i] in counts;
      }
    }
  }

  /** The `forEach` of the handler: `counts` holds, for every key seen, how
      many cells have it, and `order` lists the keys once each. The model keeps
      them in the order they were first seen; a JavaScript object would list
      integer-like keys first, which the sort that follows makes irrelevant. */
  method Tally(ks: seq<Option<string>>) returns (order: seq<string>, counts: map<string, nat>)
    ensures Distinct(order)
    ensures forall k :: k in counts <==> k in order
    ensures forall k :: k in counts ==> counts[k] == Occ(ks, k) && counts[k] >= 1
    ensures forall j :: 0 <= j < |ks| && ks[j].Some? ==> ks[j].value in counts
    ensures SumOver(order, counts) == Present(ks)
  {
    order, counts := [], map[];
    var i := 0;
    while i < |ks|
      invariant 0 <= i <= |ks|
      invariant Tallied(ks[..i], order, counts)
    {
      assert ks[..i + 1] == ks[..i] + [ks[i]];
      match ks[i] {
        case None =>
          TallySkip(ks[..i], order, counts);
        case Some(key) =>
          if key in counts {
            TallyAgain(ks[..i], order, counts, key);
            counts := counts[key := counts[key] + 1];
          } else {
            TallyNew(ks[..i], order, counts, key);
            counts := counts[key := 1];
            order := order + [key];
          }
      }
      i := i + 1;
    }
    assert ks[..i] == ks;
  }

  // ---------------------------------------------------------------------------
  // ordering
  // ---------------------------------------------------------------------------

  /** `a.localeCompare(b) < 0`, as plain code-unit lexicographic order. */
  predicate StrLess(a: string, b: string) {
    if a == [] then b != []
    else if b == [] then false
    else a[0] < b[0] || (a[0] == b[0] && StrLess(a[1..], b[1..]))
  }

  lemma {:induction false} StrLessIrreflexive(a: string)
    ensures !StrLess(a, a)
  {
    if a != [] {
      StrLessIrreflexive(a[1..]);
    }
  }

  lemma {:induction false} StrLessAsymmetric(a: string, b: string)
    requires StrLess(a, b)
    ensures !StrLess(b, a)
  {
    if a != [] && b != [] && a[0] == b[0] {
      StrLessAsymmetric(a[1..], b[1..]);
    }
  }

  lemma {:induction false} StrLessTransitive(a: string, b: string, c: string)
    requires StrLess(a, b) && StrLess(b, c)
    ensures StrLess(a, c)
  {
    if a != [] && a[0] == b[0] && b[0] == c[0] {
      StrLessTransitive(a[1..], b[1..], c[1..]);
    }
  }

  lemma {:induction false} StrLessTotal(a: string, b: string)
    requires a != b
    ensures StrLess(a, b) || StrLess(b, a)
  {
    if a != [] && b != [] && a[0] == b[0] {
      assert a == [a[0]] + a[1..] && b == [b[0]] + b[1..];
      assert a[1..] != b[1..];
      StrLessTotal(a[1..], b[1..]);
    }
  }

  /** The comparator of the handler: `b.count - a.count || a.value.localeCompare(b.value)`
      is negative. */
  predicate Before(x: Entry, y: Entry) {
    x.count > y.count || (x.count == y.count && StrLess(x.value, y.value))
  }

  lemma BeforeAsymmetric(x: Entry, y: Entry)
    requires Before(x, y)
    ensures !Before(y, x) && x != y
  {
    if x.count == y.count {
      StrLessAsymmetric(x.value, y.value);
      StrLessIrreflexive(x.value);
    }
  }

  lemma BeforeTransitive(x: Entry, y: Entry, z: Entry)
    requires Before(x, y) && Before(y, z)
    ensures Before(x, z)
  {
    if x.count == y.count == z.count {
      StrLessTransitive(x.value, y.value, z.value);
    }
  }

  lemma BeforeTotal(x: Entry, y: Entry)
    requires x.value != y.value
    ensures Before(x, y) || Before(y, x)
  {
    StrLessTotal(x.value, y.value);
  }

  predicate Sorted(s: seq<Entry>) {
    forall i, j :: 0 <= i < j < |s| ==> Before(s[i], s[j])
  }

  /** The counts of a list of entries, added up. */
  function Total(s: seq<Entry>): nat {
    if s == [] then 0 else Total(s[..|s| - 1]) + s[|s| - 1].count
  }

  lemma {:induction false} TotalAppend(s: seq<Entry>, t: seq<Entry>)
    ensures Total(s + t) == Total(s) + Total(t)
  {
    if t == [] {
      assert s + t == s;
    } else {
      assert (s + t)[..|s + t| - 1] == s + t[..|t| - 1];
      assert (s + t)[|s + t| - 1] == t[|t| - 1];
      TotalAppend(s, t[..|t| - 1]);
    }
  }

  /** An entry that comes before every entry of a sorted list can go in
      front of it. */
  lemma SortedCons(x: Entry, s: seq<Entry>)
    requires Sorted(s)
    requires forall y :: y in s ==> Before(x, y)
    ensures Sorted([x] + s)
  {
    forall i, j | 0 <= i < j < |[x] + s| ensures Before(([x] + s)[i], ([x] + s)[j]) {
      if i == 0 {
        assert ([x] + s)[j] == s[j - 1];
      }
    }
  }

  lemma SortedTail(s: seq<Entry>)
    requires Sorted(s) && s != []
    ensures Sorted(s[1..])
    ensures forall y :: y in s[1..] ==> Before(s[0], y)
  {
    forall i, j | 0 <= i < j < |s[1..]| ensures Before(s[1..][i], s[1..][j]) {
      assert s[1..][i] == s[i + 1] && s[1..][j] == s[j + 1];
    }
    forall y | y in s[1..] ensures Before(s[0], y) {
      var j :| 0 <= j < |s[1..]| && s[1..][j] == y;
      assert s[j + 1] == y;
    }
  }

  /** Inserts an entry into a sorted list whose values all differ from its
      own. */
  function Insert(e: Entry, s: seq<Entry>): (r: seq<Entry>)
    requires Sorted(s)
    requires forall x :: x in s ==> x.value != e.value
    ensures Sorted(r)
    ensures multiset(r) == multiset(s) + multiset{e}
    ensures Total(r) == Total(s) + e.count
  {
    if s == [] then [e]
    else
      SortedTail(s);
      if Before(e, s[0]) then
        forall y | y in s ensures Before(e, y) {
          if y != s[0] {
            BeforeTransitive(e, s[0], y);
          }
        }
        SortedCons(e, s);
        TotalAppend([e], s);
        [e] + s
      else
        var rest := Insert(e, s[1..]);
        InsertBehind(e, s, rest);
        [s[0]] + rest
  }

  /** The step of `Insert` that keeps the head of the list. */
  lemma InsertBehind(e: Entry, s: seq<Entry>, rest: seq<Entry>)
    requires Sorted(s) && s != [] && !Before(e, s[0]) && e.value != s[0].value
    requires Sorted(rest) && multiset(rest) == multiset(s[1..]) + multiset{e}
    requires Total(rest) == Total(s[1..]) + e.count
    ensures Sorted([s[0]] + rest)
    ensures multiset([s[0]] + rest) == multiset(s) + multiset{e}
    ensures Total([s[0]] + rest) == Total(s) + e.count
  {
    SortedTail(s);
    BeforeTotal(e, s[0]);
    forall y | y in rest ensures Before(s[0], y) {
      assert y in multiset(rest);
    }
    SortedCons(s[0], rest);
    assert s == [s[0]] + s[1..];
    TotalAppend([s[0]], rest);
    TotalAppend([s[0]], s[1..]);
  }

  predicate DistinctValues(es: seq<Entry>) {
    forall i, j :: 0 <= i < j < |es| ==> es[i].value != es[j].value
  }

  /** The value of the last entry is not among the values of the others,
      whatever order they are in. */
  lemma LastValueFresh(es: seq<Entry>, sp: seq<Entry>)
    requires es != [] && DistinctValues(es)
    requires multiset(sp) == multiset(es[..|es| - 1])
    ensures forall x :: x in sp ==> x.value != es[|es| - 1].value
  {
    var p := es[..|es| - 1];
    forall x | x in sp ensures x.value != es[|es| - 1].value {
      assert x in multiset(p);
      var j :| 0 <= j < |p| && p[j] == x;
      assert es[j] == x;
    }
  }

  /** `summary.sort(...)`: the entries in the comparator's order. */
  function SortEntries(es: seq<Entry>): (r: seq<Entry>)
    requires DistinctValues(es)
    ensures Sorted(r)
    ensures multiset(r) == multiset(es)
    ensures Total(r) == Total(es)
  {
    if es == [] then []
    else
      var p := es[..|es| - 1];
      var last := es[|es| - 1];
      var sp := SortEntries(p);
      LastValueFresh(es, sp);
      SplitLast(es);
      Insert(last, sp)
  }

  /** A list is its front and its last entry. */
  lemma SplitLast(es: seq<Entry>)
    requires es != [] && DistinctValues(es)
    ensures DistinctValues(es[..|es| - 1])
    ensures multiset(es) == multiset(es[..|es| - 1]) + multiset{es[|es| - 1]}
    ensures Total(es) == Total(es[..|es| - 1]) + es[|es| - 1].count
  {
    var p := es[..|es| - 1];
    assert es == p + [es[|es| - 1]];
    TotalAppend(p, [es[|es| - 1]]);
  }

  /** A list sorted strictly by the comparator is fixed by its elements: so
      the summary does not depend on the order `Object.entries` lists the
      counts in, nor on the sorting algorithm. */
  lemma {:induction false} SortedUnique(a: seq<Entry>, b: seq<Entry>)
    requires Sorted(a) && Sorted(b)
    requires forall x :: x in a <==> x in b
    ensures a == b
  {
    if a != [] {
      assert a[0] in a;
    }
    if b != [] {
      assert b[0] in b;
    }
    if a != [] && b != [] {
      if a[0] != b[0] {
        assert b[0] in a && a[0] in b;
        var i :| 0 <= i < |a| && a[i] == b[0];
        var j :| 0 <= j < |b| && b[j] == a[0];
        assert Before(a[0], a[i]) && Before(b[0], b[j]);
        BeforeAsymmetric(a[0], b[0]);
        assert false;
      }
      forall x ensures x in a[1..] <==> x in b[1..] {
        if x in a[1..] {
          var i :| 0 <= i < |a[1..]| && a[1..][i] == x;
          assert a[i + 1] == x && x in b;
          BeforeAsymmetric(a[0], a[i + 1]);
          var j :| 0 <= j < |b| && b[j] == x;
          assert j != 0;
          assert b[1..][j - 1] == x;
        }
        if x in b[1..] {
          var j :| 0 <= j < |b[1..]| && b[1..][j] == x;
          assert b[j + 1] == x && x in a;
          BeforeAsymmetric(b[0], b[j + 1]);
          var i :| 0 <= i < |a| && a[i] == x;
          assert i != 0;
          assert a[1..][i - 1] == x;
        }
      }
      SortedUnique(a[1..], b[1..]);
      assert a == [a[0]] + a[1..] && b == [b[0]] + b[1..];
    }
  }

  // ---------------------------------------------------------------------------
  // the summary
  // ---------------------------------------------------------------------------

  /** `Object.entries(counts).map(...)`: one entry per counted key. */
  function Entries(order: seq<string>, counts: map<string, nat>): (es: seq<Entry>)
    requires forall k :: k in order ==> k in counts
    ensures |es| == |order|
    ensures forall i :: 0 <= i < |order| ==> es[i] == Entry(order[i], counts[order[i]])
    ensures Total(es) == SumOver(order, counts)
  {
    if order == [] then []
    else
      var p := Entries(order[..|order| - 1], counts);
      p + [Entry(order[|order| - 1], counts[order[|order| - 1]])]
  }

  /** What the handler answers for the counted cells `ks`: each counted key
      once, as a non-empty trimmed value with its number of cells; every
      counted key listed; the counts adding up to the number of counted cells;
      the list sorted by count descending, ties by value ascending. */
  ghost predicate IsSummaryOf(ks: seq<Option<string>>, summary: seq<Entry>) {
    && Sorted(summary)
    && DistinctValues(summary)
    && (forall i :: 0 <= i < |summary| ==>
          summary[i].value != "" && JsText.Trim(summary[i].value) == summary[i].value)
    && (forall i :: 0 <= i < |summary| ==>
          summary[i].count == Occ(ks, summary[i].value) && summary[i].count >= 1)
    && (forall j :: 0 <= j < |ks| && ks[j].Some? ==>
          exists i :: 0 <= i < |summary| && summary[i].value == ks[j].value)
    && Total(summary) == Present(ks)
  }

  /** Every entry of a reordering of the tally's entries is a counted key
      with its count. */
  lemma EntriesOfTally(ks: seq<Option<string>>, order: seq<string>, counts: map<string, nat>, summary: seq<Entry>)
    requires WellFormedKeys(ks) && Tallied(ks, order, counts)
    requires multiset(summary) == multiset(Entries(order, counts))
    ensures forall i :: 0 <= i < |summary| ==>
              summary[i].value != "" && JsText.Trim(summary[i].value) == summary[i].value
    ensures forall i :: 0 <= i < |summary| ==>
              summary[i].count == Occ(ks, summary[i].value) && summary[i].count >= 1
    ensures forall i :: 0 <= i < |summary| ==>
              summary[i].value in counts && summary[i].count == counts[summary[i].value]
  {
    var es := Entries(order, counts);
    forall i | 0 <= i < |summary|
      ensures summary[i].value in counts && summary[i].count == counts[summary[i].value]
    {
      assert summary[i] in multiset(es);
      var k :| 0 <= k < |es| && es[k] == summary[i];
    }
    forall i | 0 <= i < |summary|
      ensures summary[i].value != "" && JsText.Trim(summary[i].value) == summary[i].value
    {
      OccPositive(ks, summary[i].value);
    }
  }

  /** Every counted key has an entry in a reordering of the tally's entries. */
  lemma TallyCovers(ks: seq<Option<string>>, order: seq<string>, counts: map<string, nat>, summary: seq<Entry>)
    requires Tallied(ks, order, counts)
    requires multiset(summary) == multiset(Entries(order, counts))
    ensures forall j :: 0 <= j < |ks| && ks[j].Some? ==>
              exists i :: 0 <= i < |summary| && summary[i].value == ks[j].value
  {
    var es := Entries(order, counts);
    forall j | 0 <= j < |ks| && ks[j].Some?
      ensures exists i :: 0 <= i < |summary| && summary[i].value == ks[j].value
    {
      assert ks[j].value in order;
      var k :| 0 <= k < |order| && order[k] == ks[j].value;
      assert es[k] in multiset(summary);
      var i :| 0 <= i < |summary| && summary[i] == es[k];
    }
  }

  /** Entries sorted strictly by the comparator, each holding the count of
      its value, have no value twice. */
  lemma SortedDistinctValues(summary: seq<Entry>, counts: map<string, nat>)
    requires Sorted(summary)
    requires forall i :: 0 <= i < |summary| ==>
               summary[i].value in counts && summary[i].count == counts[summary[i].value]
    ensures DistinctValues(summary)
  {
    forall i, j | 0 <= i < j < |summary| ensures summary[i].value != summary[j].value {
      BeforeAsymmetric(summary[i], summary[j]);
    }
  }

  /** Sorting the entries of a finished tally gives the summary. */
  lemma SummaryOfTally(ks: seq<Option<string>>, order: seq<string>, counts: map<string, nat>)
    requires WellFormedKeys(ks) && Tallied(ks, order, counts)
    ensures DistinctValues(Entries(order, counts))
    ensures IsSummaryOf(ks, SortEntries(Entries(order, counts)))
  {
    var es := Entries(order, counts);
    assert DistinctValues(es);
    var summary := SortEntries(es);
    EntriesOfTally(ks, order, counts, summary);
    TallyCovers(ks, order, counts, summary);
    SortedDistinctValues(summary, counts);
  }

  /** The summary of one column (see `IsSummaryOf`). */
  method Summarize(rows: seq<Row>, column: string, parseDate: string -> Option<int>) returns (summary: seq<Entry>)
    ensures IsSummaryOf(KeysOf(rows, column, parseDate), summary)
  {
    var ks := KeysOf(rows, column, parseDate);
    var order, counts := Tally(ks);
    SummaryOfTally(ks, order, counts);
    summary := SortEntries(Entries(order, counts));
  }

  /** The summary is fixed by the column: two lists that both answer for the
      same cells are the same list. */
  lemma {:induction false} SummaryUnique(ks: seq<Option<string>>, a: seq<Entry>, b: seq<Entry>)
    requires IsSummaryOf(ks, a) && IsSummaryOf(ks, b)
    ensures a == b
  {
    forall x ensures x in a <==> x in b {
      if x in a {
        var i :| 0 <= i < |a| && a[i] == x;
        SummaryEntryShared(ks, b, x);
      }
      if x in b {
        var i :| 0 <= i < |b| && b[i] == x;
        SummaryEntryShared(ks, a, x);
      }
    }
    SortedUnique(a, b);
  }

  /** An entry counting the cells of its value is an entry of any list that
      holds every counted key with its count. */
  lemma SummaryEntryShared(ks: seq<Option<string>>, b: seq<Entry>, x: Entry)
    requires x.count == Occ(ks, x.value) && x.count >= 1
    requires forall i :: 0 <= i < |b| ==> b[i].count == Occ(ks, b[i].value)
    requires forall j :: 0 <= j < |ks| && ks[j].Some? ==>
               exists i :: 0 <= i < |b| && b[i].value == ks[j].value
    ensures x in b
  {
    OccPositive(ks, x.value);
    var j :| 0 <= j < |ks| && ks[j] == Some(x.value);
    var k :| 0 <= k < |b| && b[k].value == ks[j].value;
    assert b[k] == x;
  }

  // ---------------------------------------------------------------------------
  // the counts object as the handler writes it
  // ---------------------------------------------------------------------------

  /** A property of the handler's `counts` object: a number, or a text once a
      `+ 1` has met a value that is not a number. */
  datatype JsCount = Number(n: nat) | Concat(s: string)

  /** `x + 1` for a property `x` the object owns: a number goes up by one, a
      text gets the character `1` appended. */
  function PlusOne(c: JsCount): JsCount {
    match c
    case Number(n) => Number(n + 1)
    case Concat(s) => Concat(s + "1")
  }

  /** `counts[key] = (counts[key] || 0) + 1` on `counts = {}`, as written: an
      owned key goes up by one; `__proto__` reads the prototype, so the sum is
      a text, which the `__proto__` setter ignores; an inherited function name
      reads the function, so the sum is the function's text followed by `1`;
      any other key starts at one. No other key changes. */
  function CountStep(counts: map<string, JsCount>, key: string): (c: map<string, JsCount>)
    ensures forall k :: k != key ==> (k in c <==> k in counts) && (k in c ==> c[k] == counts[k])
  {
    if key in counts then counts[key := PlusOne(counts[key])]
    else if key == PlainObject.ProtoKey then counts
    else if key in PlainObject.InheritedFunctions then counts[key := Concat(PlainObject.InheritedText(key) + "1")]
    else counts[key := Number(1)]
  }

  /** The handler's `counts` object after the cells `ks`, as written. */
  function TallyAsWritten(ks: seq<Option<string>>): map<string, JsCount> {
    if ks == [] then map[]
    else
      var before := TallyAsWritten(ks[..|ks| - 1]);
      match ks[|ks| - 1]
      case None => before
      case Some(key) => CountStep(before, key)
  }

  /** For a key that is not a name a plain object inherits, the object as
      written holds exactly what `Tally` counts: the key is there when some
      cell has it, with the number of cells that have it. */
  lemma {:induction false} TallyAsWrittenAgrees(ks: seq<Option<string>>, k: string)
    requires k !in PlainObject.ReservedNames
    ensures k in TallyAsWritten(ks) <==> Occ(ks, k) >= 1
    ensures k in TallyAsWritten(ks) ==> TallyAsWritten(ks)[k] == Number(Occ(ks, k))
  {
    if ks != [] {
      TallyAsWrittenAgrees(ks[..|ks| - 1], k);
    }
  }

  /** A cell holding `__proto__` is never counted as written, while it is a
      counted key. */
  lemma ProtoKeyDropped()
    ensures var ks := [Some(PlainObject.ProtoKey)];
            TallyAsWritten(ks) == map[] && Occ(ks, PlainObject.ProtoKey) == 1
  {
    var ks := [Some(PlainObject.ProtoKey)];
    assert ks[..0] == [];
  }

  /** Two cells holding `constructor` are counted as written as the text
      `function Object() { [native code] }11` instead of the number 2. */
  lemma ConstructorKeyText()
    ensures var ks := [Some("constructor"), Some("constructor")];
            && TallyAsWritten(ks) == map["constructor" := Concat("function Object() { [native code] }11")]
            && Occ(ks, "constructor") == 2
  {
    var k := "constructor";
    var ks := [Some(k), Some(k)];
    var text := PlainObject.InheritedText(k);
    assert text == "function Object() { [native code] }";
    assert k in PlainObject.InheritedFunctions && k != PlainObject.ProtoKey;
    assert ks[..1][..0] == [] && ks[..1][0] == Some(k) && ks[1] == Some(k);
    assert TallyAsWritten(ks[..1]) == CountStep(map[], k) == map[k := Concat(text + "1")];
    assert TallyAsWritten(ks) == CountStep(map[k := Concat(text + "1")], k);
    assert text + "1" + "1" == "function Object() { [native code] }11";
  }
}

/** fetchActivityHeatmap: the number of captured tweets per UTC calendar
    day, from the `captured_at` column of every row. A capture time enters
    as the calendar date and clock text that `toISOString` renders for it;
    parsing the column into a Date is not modelled. */
module Analytics {
  import opened JsValue
  import opened Counting
  import opened KeyCount
  import Decimal

  /** A valid Date as `toISOString` sees it: the UTC year, month and day,
      and the rest of the rendering ("HH:mm:ss.sssZ"). */
  datatype Instant = Instant(year: int, month: nat, day: nat, clock: string)

  /** `captured_at`: null or empty, a string that makes an Invalid Date, or
      a valid time. */
  datatype Captured = Absent | Invalid | At(instant: Instant)

  datatype ActivityData = ActivityData(date: string, count: nat)

  /** `n` in decimal, padded with zeros on the left to `width` digits. */
  function Pad(n: nat, width: nat): (s: string)
    ensures |s| >= width
    ensures forall k :: 0 <= k < |s| ==> Decimal.IsDigit(s[k])
  {
    var digits := Decimal.NatToString(n);
    if |digits| >= width then digits else seq(width - |digits|, _ => '0') + digits
  }

  /** The year as `toISOString` writes it: four digits from 0 to 9999,
      otherwise a sign and six digits. */
  function YearText(y: int): (s: string)
    ensures forall k :: 0 <= k < |s| ==> Decimal.IsDigit(s[k]) || s[k] == '+' || s[k] == '-'
  {
    if 0 <= y <= 9999 then Pad(y, 4)
    else (if y < 0 then "-" else "+") + Pad(if y < 0 then -y else y, 6)
  }

  /** "YYYY-MM-DD" */
  function DateText(year: int, month: nat, day: nat): (s: string)
    ensures forall k :: 0 <= k < |s| ==> s[k] != 'T'
    ensures '-' in s
  {
    var s := YearText(year) + "-" + Pad(month, 2) + "-" + Pad(day, 2);
    assert s[|YearText(year)|] == '-';
    s
  }

  /** `toISOString()` */
  function IsoString(t: Instant): string {
    DateText(t.year, t.month, t.day) + "T" + t.clock
  }

  /** `split(sep)[0]`: the text before the first `sep`, or all of it. */
  function BeforeFirst(s: string, sep: char): (r: string)
    ensures r <= s
    ensures forall k :: 0 <= k < |r| ==> r[k] != sep
    ensures |r| < |s| ==> s[|r|] == sep
  {
    if s == [] || s[0] == sep then [] else [s[0]] + BeforeFirst(s[1..], sep)
  }

  /** The text before the first separator is what precedes it. */
  lemma {:induction false} BeforeFirstOf(a: string, sep: char, b: string)
    requires forall k :: 0 <= k < |a| ==> a[k] != sep
    ensures BeforeFirst(a + [sep] + b, sep) == a
  {
    if a != [] {
      BeforeFirstOf(a[1..], sep, b);
      assert (a + [sep] + b)[1..] == a[1..] + [sep] + b;
    }
  }

  /** `new Date(row.captured_at).toISOString().split('T')[0]`: the UTC date. */
  function DateKey(t: Instant): (key: string)
    ensures key == DateText(t.year, t.month, t.day)
  {
    BeforeFirstOf(DateText(t.year, t.month, t.day), 'T', t.clock);
    BeforeFirst(IsoString(t), 'T')
  }

  /** An unreadable date makes `toISOString` throw a RangeError: the
      promise rejects. */
  predicate AnyInvalid(rows: seq<Captured>) {
    exists k :: 0 <= k < |rows| && rows[k].Invalid?
  }

  /** The date keys of the captured rows, in order. */
  function Dates(rows: seq<Captured>): seq<string> {
    if rows == [] then []
    else
      var last := rows[|rows| - 1];
      Dates(rows[..|rows| - 1]) + (if last.At? then [DateKey(last.instant)] else [])
  }

  /** The final `map`: one item per entry of activityMap, in its order. The
      keys hold a '-', so none is an array index and Object.entries keeps
      the insertion order; none is an Object.prototype name either. */
  function ToActivity(entries: seq<Entry<string>>): (r: seq<ActivityData>)
    ensures |r| == |entries|
    ensures forall k :: 0 <= k < |r| ==> r[k] == ActivityData(entries[k].key, entries[k].count)
  {
    seq(|entries|, k requires 0 <= k < |entries| => ActivityData(entries[k].key, entries[k].count))
  }

  /** The value fetchActivityHeatmap resolves to, over the rows of the query
      (None for an error or no data); None when it rejects. */
  function ActivityHeatmap(fetched: Option<seq<Captured>>): Option<seq<ActivityData>> {
    if fetched.None? then Some([])
    else if AnyInvalid(fetched.value) then None
    else Some(ToActivity(Tally(Dates(fetched.value))))
  }

  lemma DatesStep(rows: seq<Captured>, i: nat)
    requires i < |rows|
    ensures Dates(rows[..i + 1]) == Dates(rows[..i]) + (if rows[i].At? then [DateKey(rows[i].instant)] else [])
  {
    assert rows[..i + 1][..i] == rows[..i];
  }

  lemma AnyInvalidStep(rows: seq<Captured>, i: nat)
    requires i < |rows|
    ensures AnyInvalid(rows[..i + 1]) <==> AnyInvalid(rows[..i]) || rows[i].Invalid?
  {
    assert forall k :: 0 <= k < i ==> rows[..i + 1][k] == rows[..i][k];
    assert rows[..i + 1][i] == rows[i];
  }

  /** fetchActivityHeatmap as written: rows without a time are skipped, an
      unreadable one rejects, and each other row counts one for its date. */
  method FetchActivityHeatmap(fetched: Option<seq<Captured>>) returns (r: Option<seq<ActivityData>>)
    ensures r == ActivityHeatmap(fetched)
  {
    if fetched.None? {
      return Some([]);
    }
    var data := fetched.value;
    var activityMap: seq<Entry<string>> := [];
    var i := 0;
    while i < |data|
      invariant 0 <= i <= |data|
      invariant !AnyInvalid(data[..i])
      invariant activityMap == Tally(Dates(data[..i]))
    {
      DatesStep(data, i);
      AnyInvalidStep(data, i);
      match data[i] {
        case Absent =>
          assert Dates(data[..i + 1]) == Dates(data[..i]);
        case Invalid =>
          return None;
        case At(t) =>
          var date := DateKey(t);
          TallyAppend(Dates(data[..i]), date);
          activityMap := Step(activityMap, date);
      }
      i := i + 1;
    }
    assert data[..i] == data;
    return Some(ToActivity(activityMap));
  }

  function OnDate(date: string): Captured -> bool {
    (c: Captured) => c.At? && DateKey(c.instant) == date
  }

  function IsCaptured(): Captured -> bool {
    (c: Captured) => c.At?
  }

  /** The keys list each captured row once, under its date. */
  lemma {:induction false} DatesCount(rows: seq<Captured>, date: string)
    ensures CountIf(Dates(rows), IsKey(date)) == CountIf(rows, OnDate(date))
    ensures |Dates(rows)| == CountIf(rows, IsCaptured())
  {
    if rows != [] {
      var init := rows[..|rows| - 1];
      var last := rows[|rows| - 1];
      DatesCount(init, date);
      assert rows == init + [last];
      CountIfAppend(init, last, OnDate(date));
      CountIfAppend(init, last, IsCaptured());
      if last.At? {
        CountIfAppend(Dates(init), DateKey(last.instant), IsKey(date));
      } else {
        assert Dates(rows) == Dates(init);
      }
    }
  }

  /** What the heatmap holds: distinct dates, each with the number of rows
      captured on it, at least one; a date is listed exactly when a row was
      captured on it; and the counts add up to the captured rows. */
  lemma HeatmapEntry(rows: seq<Captured>, date: string)
    requires !AnyInvalid(rows)
    ensures var r := ActivityHeatmap(Some(rows)).value;
      && (forall i, j :: 0 <= i < j < |r| ==> r[i].date != r[j].date)
      && (forall i :: 0 <= i < |r| && r[i].date == date ==> r[i].count == CountIf(rows, OnDate(date)) && r[i].count >= 1)
      && ((exists i :: 0 <= i < |r| && r[i].date == date) <==> CountIf(rows, OnDate(date)) > 0)
  {
    var ks := Dates(rows);
    var t := Tally(ks);
    TallyEntry(ks, date);
    DatesCount(rows, date);
    forall i | 0 <= i < |t| && t[i].key == date
      ensures t[i].count == CountIf(rows, OnDate(date)) && t[i].count >= 1
    {
      EntryOfMember(ks, t[i]);
    }
  }

  lemma HeatmapTotal(rows: seq<Captured>)
    requires !AnyInvalid(rows)
    ensures Total(Tally(Dates(rows))) == CountIf(rows, IsCaptured())
  {
    TallyTotal(Dates(rows));
    DatesCount(rows, "");
  }

  /** An error or no data gives an empty list, and an unreadable date
      rejects. */
  lemma HeatmapFailures(rows: seq<Captured>)
    ensures ActivityHeatmap(None) == Some([])
    ensures AnyInvalid(rows) <==> ActivityHeatmap(Some(rows)).None?
  {
  }
}

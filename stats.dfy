/** fetchQuantifiedStats: totals, a seven-day velocity chart, week over
    week growth, the top authors and the media diet, computed from the rows
    the `tweets` query returns. Dates are given already interpreted: a
    capture time is an instant and a local calendar day number, and the
    clock supplies today's day number and the instants one and two weeks
    ago. */
module Stats {
  import opened JsValue
  import opened Counting
  import StableSort
  import Rounding
  import Decimal

  /** `captured_at`: null or empty, a string `new Date` cannot read, or a
      readable time (its instant in milliseconds and its local day). */
  datatype Captured = Absent | Invalid | At(instant: int, day: int)

  /** The columns selected: captured_at, user_name, user_avatar_url and
      media_urls (None for null). */
  datatype Row = Row(captured: Captured, userName: Option<string>, avatar: Option<string>, mediaUrls: Json)

  /** `today` as a day number; `subDays(today, 7)` and `subDays(today, 14)`
      as instants. */
  datatype Clock = Clock(today: int, weekAgo: int, twoWeeksAgo: int)

  datatype Author = Author(name: string, count: nat, avatar: string)

  datatype QuantifiedStats = QuantifiedStats(
    totalTweets: nat,
    velocityScores: seq<nat>,
    topAuthors: seq<Author>,
    textOnly: int,
    visual: int,
    weekOverWeek: int)

  /** What an error or a missing result yields. */
  const ZeroStats := QuantifiedStats(0, [0, 0, 0, 0, 0, 0, 0], [], 0, 0, 0)

  const VelocityDays := 7
  const TopAuthorCount := 5

  // ---------------------------------------------------------------------
  // The capture loop: velocity buckets and the two weeks

  /** `format(captured) === format(day.date)` for the bucket of `day`. */
  function OnDay(day: int): Row -> bool {
    (r: Row) => r.captured.At? && r.captured.day == day
  }

  /** `isAfter(captured, oneWeekAgo)` */
  function InCurrentWeek(clock: Clock): Row -> bool {
    (r: Row) => r.captured.At? && r.captured.instant > clock.weekAgo
  }

  /** The `else if`: after two weeks ago and not in the current week. */
  function InLastWeek(clock: Clock): Row -> bool {
    (r: Row) => r.captured.At? && !(r.captured.instant > clock.weekAgo) && r.captured.instant > clock.twoWeeksAgo
  }

  function InLastTwoWeeks(clock: Clock): Row -> bool {
    (r: Row) => r.captured.At? && r.captured.instant > clock.twoWeeksAgo
  }

  function IsCaptured(): Row -> bool {
    (r: Row) => r.captured.At?
  }

  /** Bucket k counts the rows of the day 6 - k days before today. */
  function Velocity(rows: seq<Row>, today: int): (v: seq<nat>)
    ensures |v| == VelocityDays
  {
    seq<nat>(VelocityDays, k requires 0 <= k < VelocityDays => CountIf(rows, OnDay(today - (VelocityDays - 1 - k))))
  }

  /** No rows, seven empty buckets. */
  lemma VelocityOfNone(rows: seq<Row>, today: int)
    requires rows == []
    ensures Velocity(rows, today) == [0, 0, 0, 0, 0, 0, 0]
  {
    forall k | 0 <= k < VelocityDays ensures Velocity(rows, today)[k] == 0 {
      assert CountIf(rows, OnDay(today - (VelocityDays - 1 - k))) == 0;
    }
  }

  /** A date `new Date` cannot read makes `format` throw: the whole call fails. */
  predicate AnyInvalid(rows: seq<Row>) {
    exists k :: 0 <= k < |rows| && rows[k].captured.Invalid?
  }

  /** The inner `last7Days.forEach`: the bucket whose date is the captured
      day gains one. */
  method AddToBuckets(days: seq<nat>, day: int, today: int) returns (r: seq<nat>)
    requires |days| == VelocityDays
    ensures |r| == VelocityDays
    ensures forall k :: 0 <= k < VelocityDays ==>
      r[k] == days[k] + (if day == today - (VelocityDays - 1 - k) then 1 else 0)
  {
    r := days;
    var j := 0;
    while j < VelocityDays
      invariant 0 <= j <= VelocityDays && |r| == VelocityDays
      invariant forall k :: 0 <= k < j ==> r[k] == days[k] + (if day == today - (VelocityDays - 1 - k) then 1 else 0)
      invariant forall k :: j <= k < VelocityDays ==> r[k] == days[k]
    {
      if day == today - (VelocityDays - 1 - j) {
        r := r[j := r[j] + 1];
      }
      j := j + 1;
    }
  }

  lemma VelocityStep(rows: seq<Row>, i: nat, today: int)
    requires i < |rows| && rows[i].captured.At?
    ensures forall k :: 0 <= k < VelocityDays ==>
      Velocity(rows[..i + 1], today)[k] == Velocity(rows[..i], today)[k] + (if rows[i].captured.day == today - (VelocityDays - 1 - k) then 1 else 0)
  {
    forall k | 0 <= k < VelocityDays
      ensures Velocity(rows[..i + 1], today)[k] == Velocity(rows[..i], today)[k] + (if rows[i].captured.day == today - (VelocityDays - 1 - k) then 1 else 0)
    {
      CountIfStep(rows, i, OnDay(today - (VelocityDays - 1 - k)));
    }
  }

  lemma NoCaptureStep(rows: seq<Row>, i: nat, clock: Clock)
    requires i < |rows| && rows[i].captured.Absent?
    ensures Velocity(rows[..i + 1], clock.today) == Velocity(rows[..i], clock.today)
    ensures CountIf(rows[..i + 1], InCurrentWeek(clock)) == CountIf(rows[..i], InCurrentWeek(clock))
    ensures CountIf(rows[..i + 1], InLastWeek(clock)) == CountIf(rows[..i], InLastWeek(clock))
  {
    forall k | 0 <= k < VelocityDays
      ensures Velocity(rows[..i + 1], clock.today)[k] == Velocity(rows[..i], clock.today)[k]
    {
      CountIfStep(rows, i, OnDay(clock.today - (VelocityDays - 1 - k)));
    }
    CountIfStep(rows, i, InCurrentWeek(clock));
    CountIfStep(rows, i, InLastWeek(clock));
  }

  /** The outer `tweets.forEach`: rows without a capture time are skipped,
      an unreadable one aborts (None), and every other row feeds the
      velocity buckets and at most one of the two weeks. */
  method TallyCaptures(rows: seq<Row>, clock: Clock) returns (r: Option<(seq<nat>, nat, nat)>)
    ensures r.None? <==> AnyInvalid(rows)
    ensures r.Some? ==> r.value == (Velocity(rows, clock.today), CountIf(rows, InCurrentWeek(clock)), CountIf(rows, InLastWeek(clock)))
  {
    var velocity: seq<nat> := [0, 0, 0, 0, 0, 0, 0];
    var currentWeekCount: nat := 0;
    var lastWeekCount: nat := 0;
    var i := 0;
    VelocityOfNone(rows[..0], clock.today);
    while i < |rows|
      invariant 0 <= i <= |rows|
      invariant !AnyInvalid(rows[..i])
      invariant velocity == Velocity(rows[..i], clock.today)
      invariant currentWeekCount == CountIf(rows[..i], InCurrentWeek(clock))
      invariant lastWeekCount == CountIf(rows[..i], InLastWeek(clock))
    {
      var t := rows[i];
      match t.captured {
        case Absent =>
          NoCaptureStep(rows, i, clock);
        case Invalid =>
          assert rows[i].captured.Invalid?;
          return None;
        case At(instant, day) =>
          velocity := AddToBuckets(velocity, day, clock.today);
          VelocityStep(rows, i, clock.today);
          CountIfStep(rows, i, InCurrentWeek(clock));
          CountIfStep(rows, i, InLastWeek(clock));
          if instant > clock.weekAgo {
            currentWeekCount := currentWeekCount + 1;
          } else if instant > clock.twoWeeksAgo {
            lastWeekCount := lastWeekCount + 1;
          }
      }
      assert !AnyInvalid(rows[..i + 1]) by {
        assert forall k :: 0 <= k < i ==> rows[..i + 1][k] == rows[..i][k];
      }
      i := i + 1;
    }
    assert rows[..i] == rows;
    return Some((velocity, currentWeekCount, lastWeekCount));
  }

  /** Captured on one of the seven days that end today. */
  function InVelocityWindow(today: int): Row -> bool {
    (r: Row) => r.captured.At? && today - (VelocityDays - 1) <= r.captured.day <= today
  }

  /** What one row adds to bucket k. */
  function Bucket(x: Row, today: int, k: int): (n: nat)
    ensures n == (if OnDay(today - (VelocityDays - 1 - k))(x) then 1 else 0)
  {
    if x.captured.At? && x.captured.day == today - (VelocityDays - 1 - k) then 1 else 0
  }

  lemma BucketsOfOneRow(x: Row, today: int)
    ensures Bucket(x, today, 0) + Bucket(x, today, 1) + Bucket(x, today, 2) + Bucket(x, today, 3) +
      Bucket(x, today, 4) + Bucket(x, today, 5) + Bucket(x, today, 6) ==
      (if InVelocityWindow(today)(x) then 1 else 0)
  {
  }

  /** Each row falls in at most one velocity bucket: the buckets add up to
      the captured rows of the last seven days. */
  lemma {:induction false} VelocitySum(rows: seq<Row>, today: int)
    ensures var v := Velocity(rows, today);
      v[0] + v[1] + v[2] + v[3] + v[4] + v[5] + v[6] ==
        CountIf(rows, InVelocityWindow(today))
  {
    if rows != [] {
      var init := rows[..|rows| - 1];
      VelocitySum(init, today);
      assert rows == init + [rows[|rows| - 1]];
      var x := rows[|rows| - 1];
      forall k | 0 <= k < VelocityDays
        ensures Velocity(rows, today)[k] == Velocity(init, today)[k] + Bucket(x, today, k)
      {
        CountIfAppend(init, x, OnDay(today - (VelocityDays - 1 - k)));
      }
      CountIfAppend(init, x, InVelocityWindow(today));
      BucketsOfOneRow(x, today);
    } else {
      VelocityOfNone(rows, today);
    }
  }

  /** The two weeks never both count a row; together they count the rows
      of the last two weeks, the current week taking precedence. */
  lemma WeeksSplit(rows: seq<Row>, clock: Clock)
    requires clock.twoWeeksAgo <= clock.weekAgo
    ensures CountIf(rows, InCurrentWeek(clock)) + CountIf(rows, InLastWeek(clock)) == CountIf(rows, InLastTwoWeeks(clock))
    ensures CountIf(rows, InLastTwoWeeks(clock)) <= CountIf(rows, IsCaptured())
    ensures forall r :: !(InCurrentWeek(clock)(r) && InLastWeek(clock)(r))
  {
    forall r: Row ensures InLastTwoWeeks(clock)(r) == (InCurrentWeek(clock)(r) || InLastWeek(clock)(r)) {
    }
    forall r: Row ensures InLastTwoWeeks(clock)(r) ==> IsCaptured()(r) {
    }
    CountIfDisjoint(rows, InCurrentWeek(clock), InLastWeek(clock), InLastTwoWeeks(clock));
    CountIfMono(rows, InLastTwoWeeks(clock), IsCaptured());
  }

  // ---------------------------------------------------------------------
  // Week over week

  /** `lastWeekCount === 0 ? current * 100 : Math.round((current - last) / last * 100)`,
      the quotient taken exactly. */
  function WeekOverWeek(current: nat, last: nat): (w: int)
    ensures last == 0 ==> w == current * 100
    ensures last > 0 ==> last * (2 * w - 1) <= 200 * (current - last) < last * (2 * w + 1)
  {
    if last == 0 then current * 100 else Rounding.RoundDiv((current - last) * 100, last)
  }

  /** No change is 0%, doubling is +100%, and losing every capture is -100%. */
  lemma WeekOverWeekCases(current: nat, last: nat)
    requires last > 0
    ensures current == last ==> WeekOverWeek(current, last) == 0
    ensures current == 2 * last ==> WeekOverWeek(current, last) == 100
    ensures current == 0 ==> WeekOverWeek(current, last) == -100
  {
    if current == last {
      Rounding.RoundDivExact(0, last);
    }
    if current == 2 * last {
      Rounding.RoundDivExact(100, last);
    }
    if current == 0 {
      Rounding.RoundDivExact(-100, last);
    }
  }

  // ---------------------------------------------------------------------
  // Media diet

  /** `t.media_urls && Array.isArray(t.media_urls) && t.media_urls.length > 0` */
  function HasMedia(): Row -> bool {
    (r: Row) => r.mediaUrls.JArr? && |r.mediaUrls.items| > 0
  }

  /** The media `forEach`. */
  method CountVisual(rows: seq<Row>) returns (visualCount: nat)
    ensures visualCount == CountIf(rows, HasMedia())
  {
    visualCount := 0;
    for i := 0 to |rows|
      invariant visualCount == CountIf(rows[..i], HasMedia())
    {
      CountIfStep(rows, i, HasMedia());
      if rows[i].mediaUrls.JArr? && |rows[i].mediaUrls.items| > 0 {
        visualCount := visualCount + 1;
      }
    }
    assert rows[..|rows|] == rows;
  }

  /** `totalTweets === 0 ? 0 : Math.round(visualCount / totalTweets * 100)` */
  function VisualPct(visualCount: nat, total: nat): (p: int)
    requires visualCount <= total
    ensures 0 <= p <= 100
    ensures total == 0 ==> p == 0
    ensures total > 0 ==> total * (2 * p - 1) <= 200 * visualCount < total * (2 * p + 1)
  {
    if total == 0 then 0
    else
      Rounding.RoundDivExact(0, total);
      Rounding.RoundDivExact(100, total);
      Rounding.RoundDivMono(0, visualCount * 100, total);
      Rounding.RoundDivMono(visualCount * 100, 100 * total, total);
      Rounding.RoundDiv(visualCount * 100, total)
  }

  // ---------------------------------------------------------------------
  // Top authors

  /** The names a plain object already has through Object.prototype: for
      them `authorMap[name]` is truthy from the start, so no entry of the
      map's own is made and Object.entries never lists them. */
  const ObjectPrototypeKeys := {"constructor", "__defineGetter__", "__defineSetter__", "hasOwnProperty",
    "__lookupGetter__", "__lookupSetter__", "isPrototypeOf", "propertyIsEnumerable", "toString",
    "valueOf", "__proto__", "toLocaleString"}

  /** A row that makes or increments an entry of its own. */
  predicate Tallied(r: Row) {
    r.userName.Some? && r.userName.value != "" && r.userName.value !in ObjectPrototypeKeys
  }

  /** `t.user_avatar_url || ''` */
  function AvatarOf(r: Row): string {
    if r.avatar.Some? then r.avatar.value else ""
  }

  function ByName(name: string): Row -> bool {
    (r: Row) => Tallied(r) && r.userName.value == name
  }

  /** Position of the entry for `name`. */
  function FindAuthor(entries: seq<Author>, name: string): (r: Option<nat>)
    ensures r.Some? ==> r.value < |entries| && entries[r.value].name == name
    ensures r.None? ==> forall k :: 0 <= k < |entries| ==> entries[k].name != name
  {
    if entries == [] then None
    else if entries[0].name == name then Some(0)
    else
      match FindAuthor(entries[1..], name)
      case None => None
      case Some(k) => Some(k + 1)
  }

  /** One row of the author `forEach`. */
  function TallyStep(entries: seq<Author>, r: Row): seq<Author> {
    if !Tallied(r) then entries
    else
      match FindAuthor(entries, r.userName.value)
      case None => entries + [Author(r.userName.value, 1, AvatarOf(r))]
      case Some(k) => entries[k := entries[k].(count := entries[k].count + 1)]
  }

  /** authorMap's own entries in insertion order. */
  function Tally(rows: seq<Row>): seq<Author> {
    if rows == [] then [] else TallyStep(Tally(rows[..|rows| - 1]), rows[|rows| - 1])
  }

  /** The author loop, as written: look the name up, create the entry on
      first sight with the row's avatar, then count. */
  method BuildAuthorMap(rows: seq<Row>) returns (authorMap: seq<Author>)
    ensures authorMap == Tally(rows)
  {
    authorMap := [];
    for i := 0 to |rows|
      invariant authorMap == Tally(rows[..i])
    {
      assert rows[..i + 1][..i] == rows[..i];
      var t := rows[i];
      if Tallied(t) {
        var k := FindAuthor(authorMap, t.userName.value);
        if k.None? {
          authorMap := authorMap + [Author(t.userName.value, 0, AvatarOf(t))];
          k := Some(|authorMap| - 1);
        }
        authorMap := authorMap[k.value := authorMap[k.value].(count := authorMap[k.value].count + 1)];
      }
    }
    assert rows[..|rows|] == rows;
  }

  /** `authorMap[name]`: the entry for a name, if there is one. */
  function EntryOf(entries: seq<Author>, name: string): (r: Option<Author>)
    ensures r.Some? ==> r.value.name == name && r.value in entries
    ensures r.None? ==> forall k :: 0 <= k < |entries| ==> entries[k].name != name
  {
    match FindAuthor(entries, name)
    case None => None
    case Some(k) => Some(entries[k])
  }

  ghost predicate DistinctNames(entries: seq<Author>) {
    forall i, j :: 0 <= i < j < |entries| ==> entries[i].name != entries[j].name
  }

  lemma FindDistinct(entries: seq<Author>, k: nat)
    requires DistinctNames(entries) && k < |entries|
    ensures FindAuthor(entries, entries[k].name) == Some(k)
  {
  }

  lemma {:induction false} FindSameNames(t: seq<Author>, u: seq<Author>, name: string)
    requires |t| == |u| && forall k :: 0 <= k < |t| ==> t[k].name == u[k].name
    ensures FindAuthor(t, name) == FindAuthor(u, name)
  {
    if t != [] {
      FindSameNames(t[1..], u[1..], name);
    }
  }

  /** The index of the first row of an author, if it has one. */
  function FirstRow(rows: seq<Row>, name: string): (r: Option<nat>)
    ensures r.Some? ==> r.value < |rows| && ByName(name)(rows[r.value])
    ensures r.Some? ==> forall j :: 0 <= j < r.value ==> !ByName(name)(rows[j])
    ensures r.None? <==> forall j :: 0 <= j < |rows| ==> !ByName(name)(rows[j])
  {
    if rows == [] then None
    else
      var init := rows[..|rows| - 1];
      assert forall j :: 0 <= j < |init| ==> init[j] == rows[j];
      match FirstRow(init, name)
      case Some(i) => Some(i)
      case None => if ByName(name)(rows[|rows| - 1]) then Some(|rows| - 1) else None
  }

  /** What one row does to the entry of each name. */
  lemma TallyStepEntry(t: seq<Author>, x: Row, name: string)
    requires DistinctNames(t)
    ensures DistinctNames(TallyStep(t, x))
    ensures EntryOf(TallyStep(t, x), name) ==
      if !ByName(name)(x) then EntryOf(t, name)
      else if EntryOf(t, name).None? then Some(Author(name, 1, AvatarOf(x)))
      else Some(EntryOf(t, name).value.(count := EntryOf(t, name).value.count + 1))
  {
    var u := TallyStep(t, x);
    if Tallied(x) {
      var m := x.userName.value;
      match FindAuthor(t, m)
      case None =>
        assert DistinctNames(u);
        if name == m {
          FindDistinct(u, |t|);
        } else if FindAuthor(t, name).Some? {
          FindDistinct(u, FindAuthor(t, name).value);
        }
      case Some(k) =>
        FindSameNames(t, u, name);
    }
  }

  /** The map's entries, against an independent definition: the names are
      distinct, and a name has an entry exactly when it has a row; the entry
      counts that author's rows and keeps the avatar of its first row. */
  lemma {:induction false} TallyEntry(rows: seq<Row>, name: string)
    ensures DistinctNames(Tally(rows))
    ensures EntryOf(Tally(rows), name) ==
      match FirstRow(rows, name)
      case None => None
      case Some(i) => Some(Author(name, CountIf(rows, ByName(name)), AvatarOf(rows[i])))
  {
    if rows != [] {
      var init := rows[..|rows| - 1];
      var x := rows[|rows| - 1];
      TallyEntry(init, name);
      assert rows == init + [x];
      CountIfAppend(init, x, ByName(name));
      TallyStepEntry(Tally(init), x, name);
      if FirstRow(init, name).None? {
        CountIfZero(init, ByName(name));
      }
    }
  }

  /** Every entry is the entry of its name. */
  lemma EntryOfMember(rows: seq<Row>, a: Author)
    requires a in Tally(rows)
    ensures EntryOf(Tally(rows), a.name) == Some(a)
  {
    TallyEntry(rows, a.name);
    var k :| 0 <= k < |Tally(rows)| && Tally(rows)[k] == a;
    FindDistinct(Tally(rows), k);
  }

  /** An array index ("0", "17", ... below 2^32 - 1): Object.entries lists
      such keys first, in increasing numeric order. */
  predicate IsArrayIndex(s: string) {
    && |s| >= 1
    && (forall k :: 0 <= k < |s| ==> Decimal.IsDigit(s[k]))
    && (|s| == 1 || s[0] != '0')
    && Decimal.ParseDigits(s) < 4294967295
  }

  /** Sort key that puts smaller indices first. */
  function IndexOrder(a: Author): int {
    if IsArrayIndex(a.name) then -(Decimal.ParseDigits(a.name) as int) else 0
  }

  function AuthorCount(a: Author): int {
    a.count
  }

  function IndexEntries(t: seq<Author>): (r: seq<Author>)
    ensures forall k :: 0 <= k < |r| ==> IsArrayIndex(r[k].name)
  {
    if t == [] then []
    else IndexEntries(t[..|t| - 1]) + (if IsArrayIndex(t[|t| - 1].name) then [t[|t| - 1]] else [])
  }

  function OtherEntries(t: seq<Author>): (r: seq<Author>)
    ensures forall k :: 0 <= k < |r| ==> !IsArrayIndex(r[k].name)
  {
    if t == [] then []
    else OtherEntries(t[..|t| - 1]) + (if IsArrayIndex(t[|t| - 1].name) then [] else [t[|t| - 1]])
  }

  lemma {:induction false} EntriesPartition(t: seq<Author>)
    ensures multiset(IndexEntries(t)) + multiset(OtherEntries(t)) == multiset(t)
  {
    if t != [] {
      EntriesPartition(t[..|t| - 1]);
      assert t == t[..|t| - 1] + [t[|t| - 1]];
    }
  }

  /** `Object.entries(authorMap)`: index keys in increasing order, then the
      other keys in insertion order; every entry is listed once. */
  function ObjectEntries(t: seq<Author>): (r: seq<Author>)
    ensures multiset(r) == multiset(t)
    ensures |r| == |t|
  {
    EntriesPartition(t);
    StableSort.SortDescSorted(IndexEntries(t), IndexOrder);
    var r := StableSort.SortDesc(IndexEntries(t), IndexOrder) + OtherEntries(t);
    assert |r| == |multiset(r)| == |multiset(t)| == |t|;
    r
  }

  /** In Object.entries' order, array-index keys come first, in increasing
      numeric order. */
  lemma ObjectEntriesIndexFirst(t: seq<Author>, i: nat, j: nat)
    requires i < j < |ObjectEntries(t)| && IsArrayIndex(ObjectEntries(t)[j].name)
    ensures IsArrayIndex(ObjectEntries(t)[i].name)
    ensures Decimal.ParseDigits(ObjectEntries(t)[i].name) <= Decimal.ParseDigits(ObjectEntries(t)[j].name)
  {
    var s := StableSort.SortDesc(IndexEntries(t), IndexOrder);
    var r := ObjectEntries(t);
    assert r == s + OtherEntries(t);
    assert j < |s|;
    assert r[i] == s[i] && r[j] == s[j];
    assert s[i] in multiset(IndexEntries(t)) && s[j] in multiset(IndexEntries(t));
    StableSort.SortDescSorted(IndexEntries(t), IndexOrder);
  }

  /** The entries of a map, sorted by count (stably) and cut to five. */
  function TopOf(entries: seq<Author>): seq<Author> {
    StableSort.Take(StableSort.SortDesc(ObjectEntries(entries), AuthorCount), TopAuthorCount)
  }

  /** `topAuthors` */
  function TopAuthors(rows: seq<Row>): seq<Author> {
    TopOf(Tally(rows))
  }

  /** At most five entries, as many as there are up to five, in
      non-increasing count. */
  lemma TopOfSorted(entries: seq<Author>)
    ensures |TopOf(entries)| == (if |entries| <= TopAuthorCount then |entries| else TopAuthorCount)
    ensures forall i, j :: 0 <= i < j < |TopOf(entries)| ==> TopOf(entries)[i].count >= TopOf(entries)[j].count
  {
    StableSort.SortDescSorted(ObjectEntries(entries), AuthorCount);
  }

  /** Each one kept is one of the map's entries. */
  lemma TopOfMember(entries: seq<Author>, k: nat)
    requires k < |TopOf(entries)|
    ensures TopOf(entries)[k] in entries
  {
    var sorted := StableSort.SortDesc(ObjectEntries(entries), AuthorCount);
    assert TopOf(entries)[k] == sorted[k];
    assert sorted[k] in multiset(sorted);
  }

  /** Each author kept is a real author, with its number of rows and the
      avatar of its first row. */
  lemma TopAuthorEntry(rows: seq<Row>, k: nat)
    requires k < |TopAuthors(rows)|
    ensures var a := TopAuthors(rows)[k];
      && FirstRow(rows, a.name).Some?
      && a == Author(a.name, CountIf(rows, ByName(a.name)), AvatarOf(rows[FirstRow(rows, a.name).value]))
      && a.count >= 1
  {
    TopOfMember(Tally(rows), k);
    var a := TopAuthors(rows)[k];
    EntryOfMember(rows, a);
    TallyEntry(rows, a.name);
    var i := FirstRow(rows, a.name).value;
    CountIfZero(rows, ByName(a.name));
  }

  lemma TopOfBound(entries: seq<Author>, a: Author)
    requires |entries| > TopAuthorCount
    requires a in multiset(entries) - multiset(TopOf(entries))
    ensures a.count <= TopOf(entries)[TopAuthorCount - 1].count
  {
    StableSort.TopBound(ObjectEntries(entries), AuthorCount, TopAuthorCount, a);
  }

  /** No author left out has more rows than the fifth. */
  lemma TopAuthorsBound(rows: seq<Row>, a: Author)
    requires |Tally(rows)| > TopAuthorCount
    requires a in multiset(Tally(rows)) - multiset(TopAuthors(rows))
    ensures a.count <= TopAuthors(rows)[TopAuthorCount - 1].count
  {
    TopOfBound(Tally(rows), a);
  }

  // ---------------------------------------------------------------------
  // The whole computation

  /** The value fetchQuantifiedStats resolves to; None when it rejects. */
  function QuantifiedStatsOf(fetched: Option<seq<Row>>, clock: Clock): Option<QuantifiedStats> {
    if fetched.None? then Some(ZeroStats)
    else
      var rows := fetched.value;
      if AnyInvalid(rows) then None
      else
        var visual := VisualPct(CountIf(rows, HasMedia()), |rows|);
        Some(QuantifiedStats(
          |rows|,
          Velocity(rows, clock.today),
          TopAuthors(rows),
          100 - visual,
          visual,
          WeekOverWeek(CountIf(rows, InCurrentWeek(clock)), CountIf(rows, InLastWeek(clock)))))
  }

  /** fetchQuantifiedStats as written, over the query's outcome (None for
      an error or no data). */
  method FetchQuantifiedStats(fetched: Option<seq<Row>>, clock: Clock) returns (r: Option<QuantifiedStats>)
    ensures r == QuantifiedStatsOf(fetched, clock)
  {
    if fetched.None? {
      return Some(QuantifiedStats(0, [0, 0, 0, 0, 0, 0, 0], [], 0, 0, 0));
    }
    var tweets := fetched.value;
    var totalTweets := |tweets|;
    var captures := TallyCaptures(tweets, clock);
    if captures.None? {
      return None;
    }
    var (velocityScores, currentWeekCount, lastWeekCount) := captures.value;
    var weekOverWeek := WeekOverWeek(currentWeekCount, lastWeekCount);
    var authorMap := BuildAuthorMap(tweets);
    var topAuthors := TopOf(authorMap);
    var visualCount := CountVisual(tweets);
    var visualPct := VisualPct(visualCount, totalTweets);
    var textPct := 100 - visualPct;
    return Some(QuantifiedStats(totalTweets, velocityScores, topAuthors, textPct, visualPct, weekOverWeek));
  }

  /** The properties of a successful result: one total per row, seven
      buckets, the media split summing to 100, and an empty list giving
      100% text. */
  lemma StatsSpec(rows: seq<Row>, clock: Clock)
    requires !AnyInvalid(rows)
    ensures var s := QuantifiedStatsOf(Some(rows), clock);
      && s.Some?
      && s.value.totalTweets == |rows|
      && |s.value.velocityScores| == VelocityDays
      && s.value.visual + s.value.textOnly == 100
      && 0 <= s.value.visual <= 100
      && (rows == [] ==> s.value.visual == 0 && s.value.textOnly == 100 && s.value.topAuthors == [])
  {
  }

  /** An error gives zeros and seven zero buckets; an unreadable date
      rejects. */
  lemma StatsFailures(rows: seq<Row>, clock: Clock)
    ensures QuantifiedStatsOf(None, clock) == Some(ZeroStats)
    ensures |ZeroStats.velocityScores| == VelocityDays && forall k :: 0 <= k < VelocityDays ==> ZeroStats.velocityScores[k] == 0
    ensures AnyInvalid(rows) ==> QuantifiedStatsOf(Some(rows), clock) == None
  {
  }
}

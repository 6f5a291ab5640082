/** The aggregation half of transform: the cleaned rows are binned by UTC calendar day and by
    calendar month, each bin's numeric columns are averaged, the daily wind mean is classified
    on the wind scale, and the most frequent precipitation type of each observed month is
    joined onto the monthly rows through the month's "YYYY-MM" label. */
module Aggregation {
  import opened Wrappers
  import opened Calendar
  import opened Stats
  import opened WindScale
  import opened Cleaning

  /** Rows as they leave cleaning: every timestamp is a real instant and every row has one
      cell per column. */
  predicate Cleaned(rows: seq<Row>, numCols: nat, textCols: nat) {
    Rect(rows, numCols, textCols) && forall i :: 0 <= i < |rows| ==> Stamped(rows[i])
  }

  // ---- bins ----

  /** The rows `keep` accepts, in their original order. */
  function Where(rows: seq<Row>, keep: Row -> bool): (r: seq<Row>)
    ensures |r| <= |rows|
    ensures forall x :: multiset(r)[x] == if keep(x) then multiset(rows)[x] else 0
    ensures forall i :: 0 <= i < |r| ==> keep(r[i]) && r[i] in rows
  {
    if rows == [] then []
    else
      var rest := Where(rows[1..], keep);
      assert rows == [rows[0]] + rows[1..];
      if keep(rows[0]) then [rows[0]] + rest else rest
  }

  predicate OnDay(x: Row, d: Date) {
    Stamped(x) && DateOf(x) == d
  }

  predicate InMonth(x: Row, m: Month) {
    Stamped(x) && MonthOf(DateOf(x)) == m
  }

  /** The rows resample("D") puts in the bin of day d. */
  function RowsOn(rows: seq<Row>, d: Date): seq<Row> {
    Where(rows, x => OnDay(x, d))
  }

  /** The rows resample("M") and groupby(to_period("M")) put in the bin of month m. */
  function RowsIn(rows: seq<Row>, m: Month): seq<Row> {
    Where(rows, x => InMonth(x, m))
  }

  lemma WhereKeepsRect(rows: seq<Row>, keep: Row -> bool, numCols: nat, textCols: nat)
    requires Rect(rows, numCols, textCols)
    ensures Rect(Where(rows, keep), numCols, textCols)
  {
    var r := Where(rows, keep);
    forall i | 0 <= i < |r| ensures |r[i].nums| == numCols && |r[i].texts| == textCols {
      var k :| 0 <= k < |rows| && rows[k] == r[i];
    }
  }

  /** A bin no row falls into is empty. */
  lemma {:induction false} WhereNone(rows: seq<Row>, keep: Row -> bool)
    requires forall i :: 0 <= i < |rows| ==> !keep(rows[i])
    ensures Where(rows, keep) == []
  {
    if rows != [] {
      WhereNone(rows[1..], keep);
    }
  }

  // ---- the index resample builds: first to last observed day (month) ----

  function MinDay(rows: seq<Row>): (d: Date)
    requires rows != [] && forall i :: 0 <= i < |rows| ==> Stamped(rows[i])
    ensures exists i :: 0 <= i < |rows| && DateOf(rows[i]) == d
    ensures forall i :: 0 <= i < |rows| ==> DayAtMost(d, DateOf(rows[i]))
  {
    if |rows| == 1 then DateOf(rows[0])
    else
      var m := MinDay(rows[1..]);
      assert forall i :: 1 <= i < |rows| ==> rows[i] == rows[1..][i - 1];
      if DayBefore(DateOf(rows[0]), m) then DateOf(rows[0]) else m
  }

  function MaxDay(rows: seq<Row>): (d: Date)
    requires rows != [] && forall i :: 0 <= i < |rows| ==> Stamped(rows[i])
    ensures exists i :: 0 <= i < |rows| && DateOf(rows[i]) == d
    ensures forall i :: 0 <= i < |rows| ==> DayAtMost(DateOf(rows[i]), d)
  {
    if |rows| == 1 then DateOf(rows[0])
    else
      var m := MaxDay(rows[1..]);
      assert forall i :: 1 <= i < |rows| ==> rows[i] == rows[1..][i - 1];
      if DayBefore(m, DateOf(rows[0])) then DateOf(rows[0]) else m
  }

  /** Some row of rows was observed on day d. */
  predicate ObservedDay(rows: seq<Row>, d: Date) {
    exists k :: 0 <= k < |rows| && Stamped(rows[k]) && DateOf(rows[k]) == d
  }

  predicate DaysAscending(ds: seq<Date>) {
    forall i, j :: 0 <= i < j < |ds| ==> DayBefore(ds[i], ds[j])
  }

  /** Every calendar day between the first and the last of ds is one of them. */
  ghost predicate NoDaySkipped(ds: seq<Date>) {
    ds != [] ==> forall d :: ValidDate(d) && DayAtMost(ds[0], d) && DayAtMost(d, ds[|ds| - 1]) ==> d in ds
  }

  /** The days of the daily frame: every calendar day from the earliest to the latest
      observed day, ascending, including days on which nothing was observed. */
  function Days(rows: seq<Row>): (r: seq<Date>)
    requires forall i :: 0 <= i < |rows| ==> Stamped(rows[i])
    ensures r == [] <==> rows == []
    ensures forall d :: ObservedDay(rows, d) ==> d in r
    ensures r != [] ==> ObservedDay(rows, r[0]) && ObservedDay(rows, r[|r| - 1])
    ensures DaysAscending(r) && NoDaySkipped(r)
    ensures forall i :: 0 <= i < |r| ==> ValidDate(r[i])
  {
    if rows == [] then []
    else
      var lo, hi := MinDay(rows), MaxDay(rows);
      assert ValidDate(lo) && ValidDate(hi) && DayAtMost(lo, hi) by {
        var i :| 0 <= i < |rows| && DateOf(rows[i]) == lo;
        var k :| 0 <= k < |rows| && DateOf(rows[k]) == hi;
        assert ValidInstant(rows[i].stamp.value) && ValidInstant(rows[k].stamp.value);
      }
      var r := DayRange(lo, hi);
      assert forall d :: ObservedDay(rows, d) ==> d in r by {
        forall d | ObservedDay(rows, d) ensures d in r {
          var i :| 0 <= i < |rows| && Stamped(rows[i]) && DateOf(rows[i]) == d;
          assert ValidInstant(rows[i].stamp.value);
        }
      }
      assert ObservedDay(rows, lo) && ObservedDay(rows, hi);
      r
  }

  /** The months of the monthly frame: every calendar month from the earliest to the latest
      observed month, ascending, including months in which nothing was observed. */
  function Months(rows: seq<Row>): (r: seq<Month>)
    requires forall i :: 0 <= i < |rows| ==> Stamped(rows[i])
    ensures r == [] <==> rows == []
    ensures forall i :: 0 <= i < |rows| ==> MonthOf(DateOf(rows[i])) in r
    ensures r != [] ==> (exists i :: 0 <= i < |rows| && MonthOf(DateOf(rows[i])) == r[0]) &&
                        (exists i :: 0 <= i < |rows| && MonthOf(DateOf(rows[i])) == r[|r| - 1])
    ensures forall i, j :: 0 <= i < j < |r| ==> MonthBefore(r[i], r[j])
    ensures forall i :: 0 <= i < |r| ==> ValidMonth(r[i])
    ensures r != [] ==> forall m :: ValidMonth(m) && MonthAtMost(r[0], m) && MonthAtMost(m, r[|r| - 1]) ==> m in r
  {
    if rows == [] then []
    else
      var lo, hi := MinDay(rows), MaxDay(rows);
      assert ValidDate(lo) && ValidDate(hi) && DayAtMost(lo, hi) by {
        var i :| 0 <= i < |rows| && DateOf(rows[i]) == lo;
        var k :| 0 <= k < |rows| && DateOf(rows[k]) == hi;
        assert ValidInstant(rows[i].stamp.value) && ValidInstant(rows[k].stamp.value);
      }
      MonthOfMonotone(lo, hi);
      var r := MonthRange(MonthOf(lo), MonthOf(hi));
      assert forall i :: 0 <= i < |rows| ==> MonthOf(DateOf(rows[i])) in r by {
        forall i | 0 <= i < |rows| ensures MonthOf(DateOf(rows[i])) in r {
          assert ValidInstant(rows[i].stamp.value);
          MonthOfMonotone(lo, DateOf(rows[i]));
          MonthOfMonotone(DateOf(rows[i]), hi);
        }
      }
      r
  }

  // ---- the averages of one bin ----

  /** `.mean()` of every numeric column over the rows of one bin. */
  function BinMeans(bin: seq<Row>, numCols: nat): (ms: seq<Option<real>>)
    requires forall i :: 0 <= i < |bin| ==> |bin[i].nums| == numCols
    ensures |ms| == numCols
    ensures forall j :: 0 <= j < numCols ==> ms[j] == Mean(Column(bin, j))
  {
    seq(numCols, j requires 0 <= j < numCols => Mean(Column(bin, j)))
  }

  // ---- the daily frame ----

  /** One row of the daily frame: the day, the mean of every numeric column that day, and
      the wind-strength label of the day's mean wind speed. */
  datatype DailyRow = DailyRow(day: Date, means: seq<Option<real>>, windStrength: Option<string>)

  /** The column means of day d's bin. */
  function DayMeans(rows: seq<Row>, numCols: nat, textCols: nat, d: Date): (ms: seq<Option<real>>)
    requires Rect(rows, numCols, textCols)
    ensures |ms| == numCols
  {
    WhereKeepsRect(rows, x => OnDay(x, d), numCols, textCols);
    BinMeans(RowsOn(rows, d), numCols)
  }

  /** The "Formatted Date" column of the daily frame. */
  function DayColumn(r: seq<DailyRow>): (ds: seq<Date>)
    ensures |ds| == |r| && forall i :: 0 <= i < |r| ==> ds[i] == r[i].day
  {
    seq(|r|, i requires 0 <= i < |r| => r[i].day)
  }

  /** resample("D").mean() followed by the wind_strength column: one row per day of the
      range, in order, with that day's means and the label of its mean wind speed. */
  function DailyRows(rows: seq<Row>, numCols: nat, textCols: nat, wind: nat): (r: seq<DailyRow>)
    requires Cleaned(rows, numCols, textCols) && wind < numCols
    ensures DayColumn(r) == Days(rows)
    ensures forall i :: 0 <= i < |r| ==>
              r[i].means == DayMeans(rows, numCols, textCols, r[i].day) &&
              r[i].windStrength == WindStrength(r[i].means[wind])
  {
    var days := Days(rows);
    var r := seq(|days|, i requires 0 <= i < |days| =>
      var ms := DayMeans(rows, numCols, textCols, days[i]);
      DailyRow(days[i], ms, WindStrength(ms[wind])));
    assert DayColumn(r) == days;
    r
  }

  /** A day inside the range on which nothing was observed still has a row, with every mean
      and the wind strength missing. */
  lemma EmptyDay(rows: seq<Row>, numCols: nat, textCols: nat, wind: nat, i: nat)
    requires Cleaned(rows, numCols, textCols) && wind < numCols
    requires i < |Days(rows)| && !ObservedDay(rows, Days(rows)[i])
    ensures var r := DailyRows(rows, numCols, textCols, wind);
            (forall j :: 0 <= j < numCols ==> r[i].means[j] == None) && r[i].windStrength == None
  {
    WhereNone(rows, x => OnDay(x, Days(rows)[i]));
  }

  /** A day's mean of column j, when there is one, lies within any bounds of the column's
      values. */
  lemma DayMeanWithin(rows: seq<Row>, numCols: nat, textCols: nat, d: Date, j: nat, lo: real, hi: real)
    requires Rect(rows, numCols, textCols) && j < numCols
    requires forall k :: 0 <= k < |rows| && rows[k].nums[j].Some? ==> lo <= rows[k].nums[j].value <= hi
    ensures DayMeans(rows, numCols, textCols, d)[j].Some? ==> lo <= DayMeans(rows, numCols, textCols, d)[j].value <= hi
  {
    var bin := RowsOn(rows, d);
    WhereKeepsRect(rows, x => OnDay(x, d), numCols, textCols);
    BinWithin(rows, bin, numCols, textCols, j, lo, hi);
    MeanWithin(Column(bin, j), lo, hi);
  }

  /** A day on which something was observed has a mean in every column that has a value
      on every row. */
  lemma ObservedDayHasMean(rows: seq<Row>, numCols: nat, textCols: nat, d: Date, j: nat)
    requires Rect(rows, numCols, textCols) && j < numCols
    requires ObservedDay(rows, d)
    requires forall k :: 0 <= k < |rows| ==> rows[k].nums[j].Some?
    ensures DayMeans(rows, numCols, textCols, d)[j].Some?
  {
    var bin := RowsOn(rows, d);
    WhereKeepsRect(rows, x => OnDay(x, d), numCols, textCols);
    var k :| 0 <= k < |rows| && Stamped(rows[k]) && DateOf(rows[k]) == d;
    assert multiset(bin)[rows[k]] > 0;
    var b :| 0 <= b < |bin| && bin[b] == rows[k];
    assert Column(bin, j)[b].Some?;
  }

  /** Every row of a bin comes from the rows, so it keeps their bounds. */
  lemma BinWithin(rows: seq<Row>, bin: seq<Row>, numCols: nat, textCols: nat, j: nat, lo: real, hi: real)
    requires Rect(rows, numCols, textCols) && Rect(bin, numCols, textCols) && j < numCols
    requires forall b :: 0 <= b < |bin| ==> bin[b] in rows
    requires forall k :: 0 <= k < |rows| && rows[k].nums[j].Some? ==> lo <= rows[k].nums[j].value <= hi
    ensures forall b :: 0 <= b < |bin| && bin[b].nums[j].Some? ==> lo <= bin[b].nums[j].value <= hi
  {
    forall b | 0 <= b < |bin| && bin[b].nums[j].Some? ensures lo <= bin[b].nums[j].value <= hi {
      var q :| 0 <= q < |rows| && rows[q] == bin[b];
    }
  }

  // ---- the monthly frame ----

  /** The "Formatted Date" resample("M") gives a monthly bin: the last day of the month. */
  function MonthEnd(m: Month): (d: Date)
    requires ValidMonth(m)
    ensures ValidDate(d) && MonthOf(d) == m
    ensures forall e :: ValidDate(e) && MonthOf(e) == m ==> DayAtMost(e, d)
  {
    Date(m.year, m.month, DaysInMonth(m.year, m.month))
  }

  /** One row of resample("M").mean() with its "month" label. */
  datatype MonthlyMeans = MonthlyMeans(monthEnd: Date, means: seq<Option<real>>, month: string)

  /** The column means of month m's bin. */
  function MonthMeans(rows: seq<Row>, numCols: nat, textCols: nat, m: Month): (ms: seq<Option<real>>)
    requires Rect(rows, numCols, textCols)
    ensures |ms| == numCols
  {
    WhereKeepsRect(rows, x => InMonth(x, m), numCols, textCols);
    BinMeans(RowsIn(rows, m), numCols)
  }

  /** resample("M").mean() with the "month" column: one row per month of the range, in
      order, with its month-end date, its "YYYY-MM" label and its means. */
  /** One row of means per month of `months`, in order. */
  function MeanRowsFor(rows: seq<Row>, numCols: nat, textCols: nat, months: seq<Month>): (r: seq<MonthlyMeans>)
    requires Rect(rows, numCols, textCols) && forall i :: 0 <= i < |months| ==> ValidMonth(months[i])
    ensures |r| == |months|
    ensures forall i :: 0 <= i < |r| ==>
              r[i].monthEnd == MonthEnd(months[i]) && r[i].month == MonthLabel(months[i]) &&
              r[i].means == MonthMeans(rows, numCols, textCols, months[i])
  {
    seq(|months|, i requires 0 <= i < |months| =>
      MonthlyMeans(MonthEnd(months[i]), MonthMeans(rows, numCols, textCols, months[i]), MonthLabel(months[i])))
  }

  function MonthlyMeanRows(rows: seq<Row>, numCols: nat, textCols: nat): (r: seq<MonthlyMeans>)
    requires Cleaned(rows, numCols, textCols)
    ensures |r| == |Months(rows)|
    ensures forall i :: 0 <= i < |r| ==>
              var m := Months(rows)[i];
              r[i].monthEnd == MonthEnd(m) && r[i].month == MonthLabel(m) &&
              r[i].means == MonthMeans(rows, numCols, textCols, m)
  {
    MeanRowsFor(rows, numCols, textCols, Months(rows))
  }


  // ---- the most frequent precipitation type per observed month ----

  predicate HasRowIn(rows: seq<Row>, m: Month) {
    exists i :: 0 <= i < |rows| && InMonth(rows[i], m)
  }

  predicate MonthsAscending(ms: seq<Month>) {
    forall i, j :: 0 <= i < j < |ms| ==> MonthBefore(ms[i], ms[j])
  }

  /** The months of ms in which some row was observed, in the order of ms. */
  function MonthsWithRows(ms: seq<Month>, rows: seq<Row>): (r: seq<Month>)
    ensures forall m :: m in r <==> m in ms && HasRowIn(rows, m)
    ensures MonthsAscending(ms) ==> MonthsAscending(r)
  {
    if ms == [] then []
    else
      var rest := MonthsWithRows(ms[1..], rows);
      assert forall m :: m in ms <==> m == ms[0] || m in ms[1..];
      assert MonthsAscending(ms) ==> MonthsAscending(rest) && forall k :: 0 <= k < |rest| ==> MonthBefore(ms[0], rest[k]) by {
        if MonthsAscending(ms) {
          forall i, j | 0 <= i < j < |ms[1..]| ensures MonthBefore(ms[1..][i], ms[1..][j]) {
            assert ms[1..][i] == ms[i + 1] && ms[1..][j] == ms[j + 1];
          }
          forall k | 0 <= k < |rest| ensures MonthBefore(ms[0], rest[k]) {
            assert rest[k] in rest;
            var q :| 0 <= q < |ms[1..]| && ms[1..][q] == rest[k];
            assert ms[1..][q] == ms[q + 1];
          }
        }
      }
      if HasRowIn(rows, ms[0]) then [ms[0]] + rest else rest
  }

  /** The groups of df.groupby(df.index.to_period("M")): the observed months, ascending. */
  function ObservedMonths(rows: seq<Row>): (r: seq<Month>)
    requires forall i :: 0 <= i < |rows| ==> Stamped(rows[i])
    ensures forall m :: m in r <==> HasRowIn(rows, m)
    ensures MonthsAscending(r)
    ensures forall i :: 0 <= i < |r| ==> ValidMonth(r[i])
  {
    var ms := Months(rows);
    ObservedInRange(rows, ms);
    var r := MonthsWithRows(ms, rows);
    ObservedValid(rows, r);
    r
  }

  lemma ObservedInRange(rows: seq<Row>, ms: seq<Month>)
    requires forall i :: 0 <= i < |rows| ==> Stamped(rows[i]) && MonthOf(DateOf(rows[i])) in ms
    ensures forall m :: HasRowIn(rows, m) ==> m in ms
  {
    forall m | HasRowIn(rows, m) ensures m in ms {
      var i :| 0 <= i < |rows| && InMonth(rows[i], m);
    }
  }

  lemma ObservedValid(rows: seq<Row>, r: seq<Month>)
    requires forall m :: m in r ==> HasRowIn(rows, m)
    ensures forall i :: 0 <= i < |r| ==> ValidMonth(r[i])
  {
    forall i | 0 <= i < |r| ensures ValidMonth(r[i]) {
      assert r[i] in r;
      var k :| 0 <= k < |rows| && InMonth(rows[k], r[i]);
      assert ValidInstant(rows[k].stamp.value);
    }
  }

  /** One entry of the mode series: its "YYYY-MM" index label and its value. */
  datatype ModeEntry = ModeEntry(key: string, mode: Option<string>)

  /** df["Precip Type"]: the cells of text column p in row order. */
  function TextColumn(rows: seq<Row>, p: nat): (c: seq<Option<string>>)
    requires forall i :: 0 <= i < |rows| ==> p < |rows[i].texts|
    ensures |c| == |rows| && forall i :: 0 <= i < |rows| ==> c[i] == rows[i].texts[p]
  {
    seq(|rows|, i requires 0 <= i < |rows| => rows[i].texts[p])
  }

  /** The "Precip Type" cells of month m's rows. */
  function MonthPrecip(rows: seq<Row>, numCols: nat, textCols: nat, p: nat, m: Month): seq<Option<string>>
    requires Rect(rows, numCols, textCols) && p < textCols
  {
    WhereKeepsRect(rows, x => InMonth(x, m), numCols, textCols);
    TextColumn(RowsIn(rows, m), p)
  }

  predicate DistinctKeys(entries: seq<ModeEntry>) {
    forall i, j :: 0 <= i < j < |entries| ==> entries[i].key != entries[j].key
  }

  /** The mode series with its index turned into strings: one entry per observed month,
      ascending, holding the month's most frequent precipitation type (missing when the
      month has none); no label occurs twice. */
  function ModeTable(rows: seq<Row>, numCols: nat, textCols: nat, p: nat): (t: seq<ModeEntry>)
    requires Cleaned(rows, numCols, textCols) && p < textCols
    ensures |t| == |ObservedMonths(rows)|
    ensures forall k :: 0 <= k < |t| ==>
              var m := ObservedMonths(rows)[k];
              t[k].key == MonthLabel(m) && t[k].mode == Mode(MonthPrecip(rows, numCols, textCols, p, m))
    ensures DistinctKeys(t)
  {
    var obs := ObservedMonths(rows);
    var t := seq(|obs|, k requires 0 <= k < |obs| =>
      ModeEntry(MonthLabel(obs[k]), Mode(MonthPrecip(rows, numCols, textCols, p, obs[k]))));
    assert DistinctKeys(t) by {
      forall i, j | 0 <= i < j < |t| ensures t[i].key != t[j].key {
        if t[i].key == t[j].key {
          MonthLabelInjective(obs[i], obs[j]);
        }
      }
    }
    t
  }

  // ---- monthly.merge(mode, left_on="month", right_index=True, how="left") ----

  datatype MonthlyRow = MonthlyRow(monthEnd: Date, means: seq<Option<real>>, month: string, modePrecipType: Option<string>)

  function Attach(a: MonthlyMeans, mode: Option<string>): MonthlyRow {
    MonthlyRow(a.monthEnd, a.means, a.month, mode)
  }

  /** The values of the entries whose key is `key`, in order. */
  function Matches(entries: seq<ModeEntry>, key: string): (r: seq<Option<string>>)
    ensures r == [] <==> forall i :: 0 <= i < |entries| ==> entries[i].key != key
    ensures |r| <= |entries|
    ensures forall v :: v in r <==> exists i :: 0 <= i < |entries| && entries[i].key == key && entries[i].mode == v
  {
    if entries == [] then []
    else
      var rest := Matches(entries[1..], key);
      assert forall i :: 1 <= i < |entries| ==> entries[i] == entries[1..][i - 1];
      assert forall v :: (exists i :: 0 <= i < |entries| && entries[i].key == key && entries[i].mode == v) <==>
                         (entries[0].key == key && entries[0].mode == v) || v in rest by {
        forall v ensures (exists i :: 0 <= i < |entries| && entries[i].key == key && entries[i].mode == v) <==>
                         (entries[0].key == key && entries[0].mode == v) || v in rest {
          if v in rest {
            var k :| 0 <= k < |entries| - 1 && entries[1..][k].key == key && entries[1..][k].mode == v;
            assert entries[k + 1] == entries[1..][k];
          }
        }
      }
      if entries[0].key == key then [entries[0].mode] + rest else rest
  }

  /** A left join: every left row once per matching entry, in left order, or once with a
      missing value when no entry matches. */
  function LeftJoin(left: seq<MonthlyMeans>, right: seq<ModeEntry>): (r: seq<MonthlyRow>)
    ensures |r| >= |left|
    ensures left == [] ==> r == []
  {
    if left == [] then []
    else
      var ms := Matches(right, left[0].month);
      var here := if ms == [] then [Attach(left[0], None)]
                  else seq(|ms|, k requires 0 <= k < |ms| => Attach(left[0], ms[k]));
      here + LeftJoin(left[1..], right)
  }

  /** The value of the entry with key `key`, missing when there is none. */
  function Lookup(entries: seq<ModeEntry>, key: string): (r: Option<string>)
    ensures (forall i :: 0 <= i < |entries| ==> entries[i].key != key) ==> r == None
    ensures forall i :: 0 <= i < |entries| && entries[i].key == key && DistinctKeys(entries) ==> r == entries[i].mode
  {
    if entries == [] then None
    else if entries[0].key == key then entries[0].mode
    else
      var r := Lookup(entries[1..], key);
      assert forall i :: 1 <= i < |entries| ==> entries[i] == entries[1..][i - 1];
      r
  }

  lemma {:induction false} MatchesUnique(entries: seq<ModeEntry>, key: string)
    requires DistinctKeys(entries)
    ensures Matches(entries, key) == [] || Matches(entries, key) == [Lookup(entries, key)]
  {
    if entries != [] {
      MatchesUnique(entries[1..], key);
      if entries[0].key == key {
        assert forall i :: 1 <= i < |entries| ==> entries[i] == entries[1..][i - 1];
        assert Matches(entries[1..], key) == [];
      }
    }
  }

  /** With keys that do not repeat, the left join keeps every left row exactly once, in
      order, and gives it the value found under its key. */
  lemma {:induction false} LeftJoinUnique(left: seq<MonthlyMeans>, right: seq<ModeEntry>)
    requires DistinctKeys(right)
    ensures |LeftJoin(left, right)| == |left|
    ensures forall i :: 0 <= i < |left| ==> LeftJoin(left, right)[i] == Attach(left[i], Lookup(right, left[i].month))
  {
    if left != [] {
      LeftJoinUnique(left[1..], right);
      MatchesUnique(right, left[0].month);
      var r := LeftJoin(left, right);
      assert r[0] == Attach(left[0], Lookup(right, left[0].month));
      forall i | 1 <= i < |left| ensures r[i] == Attach(left[i], Lookup(right, left[i].month)) {
        assert r[i] == LeftJoin(left[1..], right)[i - 1];
        assert left[i] == left[1..][i - 1];
      }
    }
  }

  /** A key that occurs twice duplicates the left row: the join is not a lookup in general. */
  lemma LeftJoinDuplicates(a: MonthlyMeans)
    ensures LeftJoin([a], [ModeEntry(a.month, Some("rain")), ModeEntry(a.month, Some("snow"))]) ==
            [Attach(a, Some("rain")), Attach(a, Some("snow"))]
  {
    var right := [ModeEntry(a.month, Some("rain")), ModeEntry(a.month, Some("snow"))];
    assert right[1..] == [ModeEntry(a.month, Some("snow"))];
    assert Matches(right, a.month) == [Some("rain"), Some("snow")];
  }

  /** Row x is month m's row of the monthly frame: its month-end date, its label, its means
      and the most frequent precipitation type among its rows. */
  predicate MonthlyRowIs(x: MonthlyRow, rows: seq<Row>, numCols: nat, textCols: nat, p: nat, m: Month)
    requires Rect(rows, numCols, textCols) && p < textCols && ValidMonth(m)
  {
    x.monthEnd == MonthEnd(m) && x.month == MonthLabel(m) &&
    x.means == MonthMeans(rows, numCols, textCols, m) &&
    x.modePrecipType == Mode(MonthPrecip(rows, numCols, textCols, p, m))
  }

  /** The monthly frame: one row per month of the range, in order, whose mode_precip_type is
      the most frequent precipitation type among that month's rows, and missing for a month
      in which nothing was observed. */
  function MonthlyRows(rows: seq<Row>, numCols: nat, textCols: nat, p: nat): (r: seq<MonthlyRow>)
    requires Cleaned(rows, numCols, textCols) && p < textCols
    ensures |r| == |Months(rows)|
    ensures forall i :: 0 <= i < |r| ==> MonthlyRowIs(r[i], rows, numCols, textCols, p, Months(rows)[i])
  {
    var left := MonthlyMeanRows(rows, numCols, textCols);
    var right := ModeTable(rows, numCols, textCols, p);
    var r := LeftJoin(left, right);
    LeftJoinUnique(left, right);
    assert forall i :: 0 <= i < |r| ==> MonthlyRowIs(r[i], rows, numCols, textCols, p, Months(rows)[i]) by {
      forall i | 0 <= i < |r| ensures MonthlyRowIs(r[i], rows, numCols, textCols, p, Months(rows)[i]) {
        var m := Months(rows)[i];
        assert r[i] == Attach(left[i], Lookup(right, left[i].month));
        MonthMode(rows, numCols, textCols, p, m);
      }
    }
    r
  }

  /** The entry the join finds for month m is the mode of m's rows; for an unobserved
      month there is no entry, and no row the mode could come from. */
  lemma MonthMode(rows: seq<Row>, numCols: nat, textCols: nat, p: nat, m: Month)
    requires Cleaned(rows, numCols, textCols) && p < textCols && ValidMonth(m)
    ensures Lookup(ModeTable(rows, numCols, textCols, p), MonthLabel(m)) == Mode(MonthPrecip(rows, numCols, textCols, p, m))
  {
    var obs := ObservedMonths(rows);
    var t := ModeTable(rows, numCols, textCols, p);
    if HasRowIn(rows, m) {
      var k :| 0 <= k < |obs| && obs[k] == m;
      assert t[k].key == MonthLabel(m);
    } else {
      forall k | 0 <= k < |t| ensures t[k].key != MonthLabel(m) {
        if t[k].key == MonthLabel(m) {
          MonthLabelInjective(obs[k], m);
        }
      }
      WhereNone(rows, x => InMonth(x, m));
      PresentEmpty(MonthPrecip(rows, numCols, textCols, p, m));
    }
  }
}

/** validate: the sanity checks run on the daily frame, and what they say about a frame
    transform produced. */
module Validation {
  import opened Wrappers
  import opened Calendar
  import opened Schema
  import opened Cleaning
  import opened Aggregation
  import opened Pipeline

  /** Why validate stops: a column it looks up is absent (KeyError), or a check fails
      (ValueError). */
  datatype ValidationError = NoSuchColumn(name: string) | TemperatureOutOfRange | HumidityOutOfRange | NegativeWindSpeed

  datatype Verdict = Passed | Failed(error: ValidationError)

  /** Column j of every row is present and between lo and hi; a missing cell is not between
      anything. */
  predicate ColumnBetween(rows: seq<DailyRow>, j: nat, lo: real, hi: real)
    requires forall i :: 0 <= i < |rows| ==> j < |rows[i].means|
  {
    forall i :: 0 <= i < |rows| ==> rows[i].means[j].Some? && lo <= rows[i].means[j].value <= hi
  }

  /** Some row has a present, negative value in column j. */
  predicate ColumnHasNegative(rows: seq<DailyRow>, j: nat)
    requires forall i :: 0 <= i < |rows| ==> j < |rows[i].means|
  {
    exists i :: 0 <= i < |rows| && rows[i].means[j].Some? && rows[i].means[j].value < 0.0
  }

  /** `series.between(lo, hi).all()`. */
  function AllBetween(rows: seq<DailyRow>, j: nat, lo: real, hi: real): (b: bool)
    requires forall i :: 0 <= i < |rows| ==> j < |rows[i].means|
    ensures b <==> ColumnBetween(rows, j, lo, hi)
  {
    if rows == [] then true
    else
      var rest := AllBetween(rows[1..], j, lo, hi);
      assert forall i :: 1 <= i < |rows| ==> rows[i] == rows[1..][i - 1];
      rows[0].means[j].Some? && lo <= rows[0].means[j].value <= hi && rest
  }

  /** `(series < 0).any()`: a missing cell is not below zero. */
  function AnyNegative(rows: seq<DailyRow>, j: nat): (b: bool)
    requires forall i :: 0 <= i < |rows| ==> j < |rows[i].means|
    ensures b <==> ColumnHasNegative(rows, j)
  {
    if rows == [] then false
    else
      var rest := AnyNegative(rows[1..], j);
      assert forall i :: 1 <= i < |rows| ==> rows[i] == rows[1..][i - 1];
      (rows[0].means[j].Some? && rows[0].means[j].value < 0.0) || rest
  }

  predicate TemperatureInRange(d: Daily)
    requires Framed(d)
  {
    TEMPERATURE in d.numericNames && ColumnBetween(d.rows, IndexOf(d.numericNames, TEMPERATURE).value, -50.0, 50.0)
  }

  predicate HumidityInRange(d: Daily)
    requires Framed(d)
  {
    HUMIDITY in d.numericNames && ColumnBetween(d.rows, IndexOf(d.numericNames, HUMIDITY).value, 0.0, 1.0)
  }

  /** The first column naming wind has a negative value; a frame without such a column has
      no check to fail. */
  predicate WindNegative(d: Daily)
    requires Framed(d)
  {
    WindColumn(d.numericNames).Some? && ColumnHasNegative(d.rows, WindColumn(d.numericNames).value)
  }

  /** validate: the temperature check, then the humidity check, then the wind check; the
      first that fails decides the verdict. */
  function Validate(d: Daily): (v: Verdict)
    requires Framed(d)
    ensures v == Failed(NoSuchColumn(TEMPERATURE)) <==> TEMPERATURE !in d.numericNames
    ensures v == Failed(TemperatureOutOfRange) <==> TEMPERATURE in d.numericNames && !TemperatureInRange(d)
    ensures v == Failed(NoSuchColumn(HUMIDITY)) <==> TemperatureInRange(d) && HUMIDITY !in d.numericNames
    ensures v == Failed(HumidityOutOfRange) <==>
              TemperatureInRange(d) && HUMIDITY in d.numericNames && !HumidityInRange(d)
    ensures v == Failed(NegativeWindSpeed) <==> TemperatureInRange(d) && HumidityInRange(d) && WindNegative(d)
    ensures v == Passed <==> TemperatureInRange(d) && HumidityInRange(d) && !WindNegative(d)
  {
    match IndexOf(d.numericNames, TEMPERATURE)
    case None => Failed(NoSuchColumn(TEMPERATURE))
    case Some(tp) =>
      if !AllBetween(d.rows, tp, -50.0, 50.0) then Failed(TemperatureOutOfRange)
      else
        match IndexOf(d.numericNames, HUMIDITY)
        case None => Failed(NoSuchColumn(HUMIDITY))
        case Some(h) =>
          if !AllBetween(d.rows, h, 0.0, 1.0) then Failed(HumidityOutOfRange)
          else
            match WindColumn(d.numericNames)
            case None => Passed
            case Some(w) => if AnyNegative(d.rows, w) then Failed(NegativeWindSpeed) else Passed
  }

  /** A single missing temperature fails validation. */
  lemma MissingTemperatureFails(d: Daily, i: nat)
    requires Framed(d) && TEMPERATURE in d.numericNames
    requires i < |d.rows| && d.rows[i].means[IndexOf(d.numericNames, TEMPERATURE).value].None?
    ensures Validate(d) == Failed(TemperatureOutOfRange)
  {
  }

  function ExampleFrame(wind: real, temperature: real, humidity: real): Daily {
    Daily(["Wind Speed (km/h)", TEMPERATURE, HUMIDITY],
          [DailyRow(Date(2016, 1, 1), [Some(wind), Some(temperature), Some(humidity)], None)])
  }

  /** The example frame's columns: wind first, then temperature, then humidity. */
  lemma ExampleColumns()
    ensures var names := ExampleFrame(0.0, 0.0, 0.0).numericNames;
            IndexOf(names, TEMPERATURE) == Some(1) && IndexOf(names, HUMIDITY) == Some(2) &&
            WindColumn(names) == Some(0)
  {
    var names := ExampleFrame(0.0, 0.0, 0.0).numericNames;
    assert Lowered(names[0])[..4] == "wind";
    assert OccursAt(Lowered(names[0]), "wind", 0);
  }

  /** A day of 51 degrees, a humidity of 1.2 and a wind speed of -3 each fail; a day inside
      every range passes. */
  lemma ValidateExamples()
    ensures Validate(ExampleFrame(10.0, 51.0, 0.5)) == Failed(TemperatureOutOfRange)
    ensures Validate(ExampleFrame(10.0, 20.0, 1.2)) == Failed(HumidityOutOfRange)
    ensures Validate(ExampleFrame(-3.0, 20.0, 0.5)) == Failed(NegativeWindSpeed)
    ensures Validate(ExampleFrame(10.0, 20.0, 0.5)) == Passed
  {
    ExampleColumns();
  }

  /** A day of the daily frame on which nothing was observed has a row of missing means. */
  lemma GapDayRow(t: Table, d: Date) returns (i: nat)
    requires WellFormed(t) && HUMIDITY in t.numericNames && WindColumn(t.numericNames).Some?
    requires d in DayColumn(DailyFrame(t).rows) && !ObservedDay(t.rows, d)
    ensures i < |DailyFrame(t).rows| && DailyFrame(t).rows[i].day == d
    ensures forall j :: 0 <= j < |t.numericNames| ==> DailyFrame(t).rows[i].means[j] == None
  {
    var h := IndexOf(t.numericNames, HUMIDITY).value;
    var rows := Prepare(t, h);
    var n, m, w := |t.numericNames|, |t.textNames|, WindColumn(t.numericNames).value;
    var r := DailyRows(rows, n, m, w);
    assert DailyFrame(t).rows == r;
    PrepareDates(t, h);
    assert !ObservedDay(rows, d);
    i :| 0 <= i < |r| && r[i].day == d;
    assert Days(rows)[i] == d;
    EmptyDay(rows, n, m, w, i);
  }

  /** A day of the daily frame on which nothing was observed fails validation on
      temperature: resample gives it a row of missing means. */
  lemma GapDayFails(t: Table, d: Date)
    requires WellFormed(t) && HUMIDITY in t.numericNames && WindColumn(t.numericNames).Some?
    requires TEMPERATURE in t.numericNames
    requires d in DayColumn(DailyFrame(t).rows) && !ObservedDay(t.rows, d)
    ensures Validate(DailyFrame(t)) == Failed(TemperatureOutOfRange)
  {
    var f := DailyFrame(t);
    var i := GapDayRow(t, d);
    assert f.numericNames == t.numericNames;
    assert TEMPERATURE in f.numericNames;
    assert i < |f.rows|;
    assert IndexOf(f.numericNames, TEMPERATURE).value < |t.numericNames|;
    assert f.rows[i].means[IndexOf(f.numericNames, TEMPERATURE).value].None?;
    MissingTemperatureFails(f, i);
  }

  /** Cell c is present and between lo and hi, or, when `present` is false, missing. */
  predicate CellWithin(c: Option<real>, lo: real, hi: real, present: bool) {
    if c.Some? then lo <= c.value <= hi else !present
  }

  /** Column j of every row passes CellWithin, stated row by row. */
  predicate CellsWithin(rows: seq<Row>, j: nat, lo: real, hi: real, present: bool)
    requires HasColumn(rows, j)
  {
    rows == [] || (CellWithin(rows[0].nums[j], lo, hi, present) && CellsWithin(rows[1..], j, lo, hi, present))
  }

  lemma {:induction false} CellsWithinAll(rows: seq<Row>, j: nat, lo: real, hi: real, present: bool)
    requires HasColumn(rows, j)
    ensures CellsWithin(rows, j, lo, hi, present) <==>
            forall k :: 0 <= k < |rows| ==> CellWithin(rows[k].nums[j], lo, hi, present)
  {
    if rows != [] {
      CellsWithinAll(rows[1..], j, lo, hi, present);
      assert forall k :: 1 <= k < |rows| ==> rows[k] == rows[1..][k - 1];
    }
  }

  /** Every day of ds was observed in rows, stated day by day. */
  predicate AllObserved(rows: seq<Row>, ds: seq<Date>) {
    ds == [] || (ObservedDay(rows, ds[0]) && AllObserved(rows, ds[1..]))
  }

  lemma {:induction false} AllObservedIn(rows: seq<Row>, ds: seq<Date>)
    ensures AllObserved(rows, ds) <==> forall d :: d in ds ==> ObservedDay(rows, d)
  {
    if ds != [] {
      AllObservedIn(rows, ds[1..]);
      assert forall d :: d in ds <==> d == ds[0] || d in ds[1..];
    }
  }

  /** The mean, on an observed day, of a fully present column whose values lie between lo
      and hi is present and between lo and hi. */
  lemma DayMeanBetween(rows: seq<Row>, numCols: nat, textCols: nat, d: Date, j: nat, lo: real, hi: real)
    requires Rect(rows, numCols, textCols) && j < numCols && ObservedDay(rows, d)
    requires forall k :: 0 <= k < |rows| ==> rows[k].nums[j].Some? && lo <= rows[k].nums[j].value <= hi
    ensures DayMeans(rows, numCols, textCols, d)[j].Some?
    ensures lo <= DayMeans(rows, numCols, textCols, d)[j].value <= hi
  {
    ObservedDayHasMean(rows, numCols, textCols, d, j);
    DayMeanWithin(rows, numCols, textCols, d, j, lo, hi);
  }

  /** Daily rows whose days were all observed, each holding the means of its day, have every
      mean of a fully present column between lo and hi when the column's values are. */
  lemma RowMeansBetween(r: seq<DailyRow>, rows: seq<Row>, numCols: nat, textCols: nat, j: nat, lo: real, hi: real)
    requires Rect(rows, numCols, textCols) && j < numCols
    requires CellsWithin(rows, j, lo, hi, true)
    requires forall i :: 0 <= i < |r| ==> r[i].means == DayMeans(rows, numCols, textCols, r[i].day)
    requires forall i :: 0 <= i < |r| ==> ObservedDay(rows, r[i].day)
    ensures forall i :: 0 <= i < |r| ==> j < |r[i].means|
    ensures ColumnBetween(r, j, lo, hi)
  {
    CellsWithinAll(rows, j, lo, hi, true);
    assert forall k :: 0 <= k < |rows| ==> rows[k].nums[j].Some? && lo <= rows[k].nums[j].value <= hi by {
      forall k | 0 <= k < |rows| ensures rows[k].nums[j].Some? && lo <= rows[k].nums[j].value <= hi {
        assert CellWithin(rows[k].nums[j], lo, hi, true);
      }
    }
    forall i | 0 <= i < |r| ensures r[i].means[j].Some? && lo <= r[i].means[j].value <= hi {
      DayMeanBetween(rows, numCols, textCols, r[i].day, j, lo, hi);
    }
  }

  /** Daily rows on the days ds, all of which were observed, are each on an observed day. */
  lemma RowDaysObserved(r: seq<DailyRow>, rows: seq<Row>, ds: seq<Date>)
    requires DayColumn(r) == ds && AllObserved(rows, ds)
    ensures forall i :: 0 <= i < |r| ==> ObservedDay(rows, r[i].day)
  {
    AllObservedIn(rows, ds);
    forall i | 0 <= i < |r| ensures ObservedDay(rows, r[i].day) {
      assert DayColumn(r)[i] == r[i].day;
      assert ds[i] in ds;
    }
  }

  /** Every daily mean of a fully present column whose values lie between lo and hi lies
      between lo and hi, when every day of the frame was observed. */
  lemma DailyColumnBetween(rows: seq<Row>, numCols: nat, textCols: nat, w: nat, j: nat, lo: real, hi: real)
    requires Cleaned(rows, numCols, textCols) && w < numCols && j < numCols
    requires CellsWithin(rows, j, lo, hi, true)
    requires AllObserved(rows, Days(rows))
    ensures ColumnBetween(DailyRows(rows, numCols, textCols, w), j, lo, hi)
  {
    var r := DailyRows(rows, numCols, textCols, w);
    RowDaysObserved(r, rows, Days(rows));
    RowMeansBetween(r, rows, numCols, textCols, j, lo, hi);
  }

  /** Daily rows each holding the means of its day have no negative mean in a column with no
      negative value. */
  lemma RowMeansNonNegative(r: seq<DailyRow>, rows: seq<Row>, numCols: nat, textCols: nat, j: nat, hi: real)
    requires Rect(rows, numCols, textCols) && j < numCols
    requires CellsWithin(rows, j, 0.0, hi, false)
    requires forall i :: 0 <= i < |r| ==> r[i].means == DayMeans(rows, numCols, textCols, r[i].day)
    ensures forall i :: 0 <= i < |r| ==> j < |r[i].means|
    ensures !ColumnHasNegative(r, j)
  {
    CellsWithinAll(rows, j, 0.0, hi, false);
    assert forall k :: 0 <= k < |rows| && rows[k].nums[j].Some? ==> 0.0 <= rows[k].nums[j].value <= hi by {
      forall k | 0 <= k < |rows| && rows[k].nums[j].Some? ensures 0.0 <= rows[k].nums[j].value <= hi {
        assert CellWithin(rows[k].nums[j], 0.0, hi, false);
      }
    }
    forall i | 0 <= i < |r| && r[i].means[j].Some? ensures r[i].means[j].value >= 0.0 {
      DayMeanWithin(rows, numCols, textCols, r[i].day, j, 0.0, hi);
    }
  }

  /** A column with no negative value has no negative daily mean. */
  lemma DailyColumnNonNegative(rows: seq<Row>, numCols: nat, textCols: nat, w: nat, j: nat, hi: real)
    requires Cleaned(rows, numCols, textCols) && w < numCols && j < numCols
    requires CellsWithin(rows, j, 0.0, hi, false)
    ensures !ColumnHasNegative(DailyRows(rows, numCols, textCols, w), j)
  {
    RowMeansNonNegative(DailyRows(rows, numCols, textCols, w), rows, numCols, textCols, j, hi);
  }

  /** The prepared rows keep the input's bounds on column j (for the humidity column, only a
      fraction bound, hi <= 1, since a column above 1 is divided by 100), and have no missing
      cell in it when the input had a value there. */
  lemma PreparedCells(t: Table, j: nat, lo: real, hi: real, present: bool)
    requires WellFormed(t) && HUMIDITY in t.numericNames
    requires j < |t.numericNames| && (j != IndexOf(t.numericNames, HUMIDITY).value || hi <= 1.0)
    requires StampedWithin(t.rows, j, lo, hi) && (present ==> StampedPresent(t.rows, j))
    ensures CellsWithin(Prepare(t, IndexOf(t.numericNames, HUMIDITY).value), j, lo, hi, present)
  {
    var h := IndexOf(t.numericNames, HUMIDITY).value;
    var rows := Prepare(t, h);
    PrepareWithin(t, h, j, lo, hi);
    CellsWithinAll(rows, j, lo, hi, present);
  }

  /** The prepared humidities are all present fractions when the input's lie in [0, 100]
      and some stamped row has one. */
  lemma PreparedHumidity(t: Table)
    requires WellFormed(t) && HUMIDITY in t.numericNames
    requires var h := IndexOf(t.numericNames, HUMIDITY).value;
             StampedWithin(t.rows, h, 0.0, 100.0) && StampedPresent(t.rows, h)
    ensures var h := IndexOf(t.numericNames, HUMIDITY).value;
            CellsWithin(Prepare(t, h), h, 0.0, 1.0, true)
  {
    var h := IndexOf(t.numericNames, HUMIDITY).value;
    PrepareHumidity(t, h);
    CellsWithinAll(Prepare(t, h), h, 0.0, 1.0, true);
  }

  /** Every calendar day between two days on which something was observed was itself
      observed: the input has no day the daily resampling would fill with a missing row. */
  ghost predicate ObservedEveryDay(rows: seq<Row>) {
    forall a, d, b ::
      ObservedDay(rows, a) && ObservedDay(rows, b) && ValidDate(d) && DayAtMost(a, d) && DayAtMost(d, b) ==>
      ObservedDay(rows, d)
  }

  /** Rows on the days of an input that skips no day were observed on every day their
      resampling finds. */
  lemma DaysObserved(rows: seq<Row>, input: seq<Row>)
    requires forall i :: 0 <= i < |rows| ==> Stamped(rows[i])
    requires SameDays(rows, input) && ObservedEveryDay(input)
    ensures AllObserved(rows, Days(rows))
  {
    var ds := Days(rows);
    forall d | d in ds ensures ObservedDay(rows, d) {
      var i :| 0 <= i < |ds| && ds[i] == d;
      assert DayAtMost(ds[0], d) && DayAtMost(d, ds[|ds| - 1]);
      assert ObservedDay(input, ds[0]) && ObservedDay(input, ds[|ds| - 1]);
    }
    AllObservedIn(rows, ds);
  }

  /** In an ascending run of days with no day skipped, a day between two of its days is one
      of them. */
  lemma DayBetween(ds: seq<Date>, a: Date, d: Date, b: Date)
    requires DaysAscending(ds) && NoDaySkipped(ds)
    requires a in ds && b in ds && ValidDate(d) && DayAtMost(a, d) && DayAtMost(d, b)
    ensures d in ds
  {
    var i :| 0 <= i < |ds| && ds[i] == a;
    var j :| 0 <= j < |ds| && ds[j] == b;
    assert i == 0 || DayBefore(ds[0], a);
    assert j == |ds| - 1 || DayBefore(b, ds[|ds| - 1]);
    assert DayAtMost(ds[0], d) && DayAtMost(d, ds[|ds| - 1]);
  }

  /** A day between two observed days of the input is one of the days resampling finds in
      rows on the same days. */
  lemma GapInDays(rows: seq<Row>, input: seq<Row>, a: Date, d: Date, b: Date)
    requires forall i :: 0 <= i < |rows| ==> Stamped(rows[i])
    requires SameDays(rows, input)
    requires ObservedDay(input, a) && ObservedDay(input, b) && ValidDate(d) && DayAtMost(a, d) && DayAtMost(d, b)
    ensures d in Days(rows)
  {
    assert ObservedDay(rows, a) && ObservedDay(rows, b);
    DayBetween(Days(rows), a, d, b);
  }

  /** An input that skips a day between two observed days fails validation on temperature. */
  lemma GapFails(t: Table)
    requires WellFormed(t) && HUMIDITY in t.numericNames && WindColumn(t.numericNames).Some?
    requires TEMPERATURE in t.numericNames
    requires !ObservedEveryDay(t.rows)
    ensures Validate(DailyFrame(t)) == Failed(TemperatureOutOfRange)
  {
    var a, d, b :| ObservedDay(t.rows, a) && ObservedDay(t.rows, b) && ValidDate(d) &&
                   DayAtMost(a, d) && DayAtMost(d, b) && !ObservedDay(t.rows, d);
    var h := IndexOf(t.numericNames, HUMIDITY).value;
    PrepareDates(t, h);
    GapInDays(Prepare(t, h), t.rows, a, d, b);
    assert DayColumn(DailyFrame(t).rows) == Days(Prepare(t, h));
    GapDayFails(t, d);
  }

  /** A fully present column of the prepared rows whose values lie between lo and hi gives
      daily means all between lo and hi, when the input skips no day. */
  lemma FrameBetween(t: Table, j: nat, lo: real, hi: real)
    requires WellFormed(t) && HUMIDITY in t.numericNames && WindColumn(t.numericNames).Some?
    requires j < |t.numericNames| && ObservedEveryDay(t.rows)
    requires CellsWithin(Prepare(t, IndexOf(t.numericNames, HUMIDITY).value), j, lo, hi, true)
    ensures ColumnBetween(DailyFrame(t).rows, j, lo, hi)
  {
    var h := IndexOf(t.numericNames, HUMIDITY).value;
    var rows := Prepare(t, h);
    var n, m, w := |t.numericNames|, |t.textNames|, WindColumn(t.numericNames).value;
    PrepareDates(t, h);
    DaysObserved(rows, t.rows);
    assert DailyFrame(t).rows == DailyRows(rows, n, m, w);
    DailyColumnBetween(rows, n, m, w, j, lo, hi);
  }

  /** A fully present column of the input whose values lie between lo and hi (fractions, if
      it is the humidity column) gives daily means all between lo and hi, when the input
      skips no day. */
  lemma FrameColumnBetween(t: Table, j: nat, lo: real, hi: real)
    requires WellFormed(t) && HUMIDITY in t.numericNames && WindColumn(t.numericNames).Some?
    requires j < |t.numericNames| && (j != IndexOf(t.numericNames, HUMIDITY).value || hi <= 1.0)
    requires ObservedEveryDay(t.rows)
    requires StampedWithin(t.rows, j, lo, hi) && StampedPresent(t.rows, j)
    ensures ColumnBetween(DailyFrame(t).rows, j, lo, hi)
  {
    PreparedCells(t, j, lo, hi, true);
    FrameBetween(t, j, lo, hi);
  }

  /** A humidity column with a stamped value, holding fractions or percentages (every value
      in [0, 100]), gives daily humidities all in [0, 1], when the input skips no day. */
  lemma FrameHumidityBetween(t: Table)
    requires WellFormed(t) && HUMIDITY in t.numericNames && WindColumn(t.numericNames).Some?
    requires ObservedEveryDay(t.rows)
    requires var h := IndexOf(t.numericNames, HUMIDITY).value;
             StampedWithin(t.rows, h, 0.0, 100.0) && StampedPresent(t.rows, h)
    ensures HumidityInRange(DailyFrame(t))
  {
    PreparedHumidity(t);
    FrameBetween(t, IndexOf(t.numericNames, HUMIDITY).value, 0.0, 1.0);
  }

  /** The wind column is never the humidity column, since "Humidity" does not mention wind. */
  lemma WindIsNotHumidity(names: seq<string>)
    requires HUMIDITY in names && WindColumn(names).Some?
    ensures WindColumn(names).value != IndexOf(names, HUMIDITY).value
  {
    HumidityIsNotWind();
  }

  /** An input wind column with no negative value gives no negative daily mean. */
  lemma FrameWindNonNegative(t: Table)
    requires WellFormed(t) && HUMIDITY in t.numericNames && WindColumn(t.numericNames).Some?
    requires StampedAtLeast(t.rows, WindColumn(t.numericNames).value, 0.0)
    ensures !WindNegative(DailyFrame(t))
  {
    var h := IndexOf(t.numericNames, HUMIDITY).value;
    var rows := Prepare(t, h);
    var n, m, w := |t.numericNames|, |t.textNames|, WindColumn(t.numericNames).value;
    var hi := StampedBounded(t.rows, w, 0.0);
    WindIsNotHumidity(t.numericNames);
    PreparedCells(t, w, 0.0, hi, false);
    assert DailyFrame(t).rows == DailyRows(rows, n, m, w);
    DailyColumnNonNegative(rows, n, m, w, w, hi);
  }

  /** The data the dataset should hold passes: when every day between the first and the last
      observation was observed, every temperature lies in [-50, 50], every humidity lies in
      [0, 100] (as fractions or as percentages), no wind speed is negative, and temperature
      and humidity each have a value at all, the daily frame transform writes passes
      validation. With GapFails: when the values lie in range, validation passes exactly when
      the input skips no day. */
  lemma PipelinePasses(t: Table)
    requires WellFormed(t) && HUMIDITY in t.numericNames && WindColumn(t.numericNames).Some?
    requires TEMPERATURE in t.numericNames
    requires ObservedEveryDay(t.rows)
    requires var tp := IndexOf(t.numericNames, TEMPERATURE).value;
             StampedWithin(t.rows, tp, -50.0, 50.0) && StampedPresent(t.rows, tp)
    requires var h := IndexOf(t.numericNames, HUMIDITY).value;
             StampedWithin(t.rows, h, 0.0, 100.0) && StampedPresent(t.rows, h)
    requires StampedAtLeast(t.rows, WindColumn(t.numericNames).value, 0.0)
    ensures Validate(DailyFrame(t)) == Passed
  {
    var tp := IndexOf(t.numericNames, TEMPERATURE).value;
    assert tp != IndexOf(t.numericNames, HUMIDITY).value;
    FrameColumnBetween(t, tp, -50.0, 50.0);
    FrameHumidityBetween(t);
    FrameWindNonNegative(t);
  }
}

/** transform as a whole: cleaning, then the daily and monthly frames, with the errors it
    raises on the way. Reading the CSV file and writing the two output files are not part of
    this model; the frames themselves are its result. */
module Pipeline {
  import opened Wrappers
  import opened Calendar
  import opened Schema
  import opened Stats
  import opened Cleaning
  import opened Aggregation

  /** Why transform stops: a column df[...] names is absent (KeyError), the humidity column
      holds text so its maximum cannot be compared with 1 (TypeError), or no column mentions
      wind (the KeyError transform raises itself). */
  datatype TransformError = MissingColumn(name: string) | HumidityNotNumeric | WindColumnNotFound

  /** daily_weather.csv: "Formatted Date", the numeric columns, "wind_strength". */
  datatype Daily = Daily(numericNames: seq<string>, rows: seq<DailyRow>)

  /** monthly_weather.csv: "Formatted Date", the numeric columns, "month", "mode_precip_type". */
  datatype Monthly = Monthly(numericNames: seq<string>, rows: seq<MonthlyRow>)

  datatype Output = Output(daily: Daily, monthly: Monthly)

  /** Cleaning keeps every row one cell per column. */
  lemma CleanRect(t: Table)
    requires WellFormed(t)
    ensures Rect(Clean(t.rows), |t.numericNames|, |t.textNames|)
  {
    var c := Clean(t.rows);
    forall i | 0 <= i < |c| ensures |c[i].nums| == |t.numericNames| && |c[i].texts| == |t.textNames| {
      assert c[i] in c;
      var k :| 0 <= k < |t.rows| && t.rows[k] == c[i];
    }
  }

  /** transform's cleaning steps: the cleaned rows, humidity rescaled, missing numbers imputed.
      The timestamps and the text cells are those of the cleaned rows. */
  function Prepare(t: Table, h: nat): (r: seq<Row>)
    requires WellFormed(t) && h < |t.numericNames|
    ensures Cleaned(r, |t.numericNames|, |t.textNames|)
    ensures |r| == |Clean(t.rows)|
    ensures forall i :: 0 <= i < |r| ==> r[i].stamp == Clean(t.rows)[i].stamp && r[i].texts == Clean(t.rows)[i].texts
  {
    var c := Clean(t.rows);
    CleanRect(t);
    Impute(RescaleHumidity(c, h), |t.numericNames|)
  }

  /** Every daily row has one mean per numeric column. */
  predicate Framed(d: Daily) {
    forall i :: 0 <= i < |d.rows| ==> |d.rows[i].means| == |d.numericNames|
  }

  /** The daily frame transform writes. */
  function DailyFrame(t: Table): (f: Daily)
    requires WellFormed(t) && HUMIDITY in t.numericNames && WindColumn(t.numericNames).Some?
    ensures Framed(f)
  {
    var rows := Prepare(t, IndexOf(t.numericNames, HUMIDITY).value);
    Daily(t.numericNames, DailyRows(rows, |t.numericNames|, |t.textNames|, WindColumn(t.numericNames).value))
  }

  /** The monthly frame transform writes: the numeric columns of the input, and one row per
      month of the monthly index of the prepared rows, holding that month's end, label, means
      and precipitation-type mode. */
  function MonthlyFrame(t: Table): (f: Monthly)
    requires WellFormed(t) && HUMIDITY in t.numericNames && PRECIP_TYPE in t.textNames
    ensures f.numericNames == t.numericNames
    ensures var rows := Prepare(t, IndexOf(t.numericNames, HUMIDITY).value);
            var p := IndexOf(t.textNames, PRECIP_TYPE).value;
            |f.rows| == |Months(rows)| &&
            forall i :: 0 <= i < |f.rows| ==>
              MonthlyRowIs(f.rows[i], rows, |t.numericNames|, |t.textNames|, p, Months(rows)[i])
  {
    var rows := Prepare(t, IndexOf(t.numericNames, HUMIDITY).value);
    Monthly(t.numericNames, MonthlyRows(rows, |t.numericNames|, |t.textNames|, IndexOf(t.textNames, PRECIP_TYPE).value))
  }

  /** transform: the error it stops with, in the order it meets them, or the daily and the
      monthly frame. */
  function Transform(t: Table): (r: Result<Output, TransformError>)
    requires WellFormed(t)
    ensures r == Err(MissingColumn(HUMIDITY)) <==> HUMIDITY !in t.numericNames && HUMIDITY !in t.textNames
    ensures r == Err(HumidityNotNumeric) <==> HUMIDITY !in t.numericNames && HUMIDITY in t.textNames
    ensures r == Err(WindColumnNotFound) <==> HUMIDITY in t.numericNames && WindColumn(t.numericNames).None?
    ensures r == Err(MissingColumn(PRECIP_TYPE)) <==>
              HUMIDITY in t.numericNames && WindColumn(t.numericNames).Some? && PRECIP_TYPE !in t.textNames
    ensures r.Ok? <==> HUMIDITY in t.numericNames && WindColumn(t.numericNames).Some? && PRECIP_TYPE in t.textNames
    ensures r.Ok? ==> r.value == Output(DailyFrame(t), MonthlyFrame(t))
  {
    match IndexOf(t.numericNames, HUMIDITY)
    case None =>
      if HUMIDITY in t.textNames then Err(HumidityNotNumeric) else Err(MissingColumn(HUMIDITY))
    case Some(_) =>
      match WindColumn(t.numericNames)
      case None => Err(WindColumnNotFound)
      case Some(_) =>
        match IndexOf(t.textNames, PRECIP_TYPE)
        case None => Err(MissingColumn(PRECIP_TYPE))
        case Some(_) => Ok(Output(DailyFrame(t), MonthlyFrame(t)))
  }

  /** Rows r were observed on exactly the days on which the stamped rows of `input` were. */
  ghost predicate SameDays(r: seq<Row>, input: seq<Row>) {
    forall d :: ObservedDay(r, d) <==> ObservedDay(input, d)
  }

  /** Rows with the timestamps of the cleaned rows lie on the days of the stamped input. */
  lemma CleanStampsSameDays(r: seq<Row>, c: seq<Row>, input: seq<Row>)
    requires |r| == |c| && forall i :: 0 <= i < |r| ==> r[i].stamp == c[i].stamp
    requires forall x :: x in c <==> x in input && Stamped(x)
    ensures SameDays(r, input)
  {
    forall d ensures ObservedDay(r, d) <==> ObservedDay(input, d) {
      if ObservedDay(input, d) {
        var k :| 0 <= k < |input| && Stamped(input[k]) && DateOf(input[k]) == d;
        assert input[k] in c;
        var i :| 0 <= i < |c| && c[i] == input[k];
        assert Stamped(r[i]) && DateOf(r[i]) == d;
      }
      if ObservedDay(r, d) {
        var i :| 0 <= i < |r| && Stamped(r[i]) && DateOf(r[i]) == d;
        assert c[i] in c;
        var k :| 0 <= k < |input| && input[k] == c[i];
        assert Stamped(input[k]) && DateOf(input[k]) == d;
      }
    }
  }

  /** Preparing keeps exactly the observed days. */
  lemma PrepareDates(t: Table, h: nat)
    requires WellFormed(t) && h < |t.numericNames|
    ensures SameDays(Prepare(t, h), t.rows)
  {
    CleanStampsSameDays(Prepare(t, h), Clean(t.rows), t.rows);
  }

  /** The days resampling finds in rows observed on the days of the stamped input are those
      of the input: none exactly when no timestamp parsed, every observed day among them, and
      the first and the last of them observed. */
  lemma DaysOfInput(rows: seq<Row>, input: seq<Row>)
    requires forall i :: 0 <= i < |rows| ==> Stamped(rows[i])
    requires SameDays(rows, input)
    ensures var ds := Days(rows);
            (ds == [] <==> forall k :: 0 <= k < |input| ==> !Stamped(input[k])) &&
            (forall d :: ObservedDay(input, d) ==> d in ds) &&
            (ds != [] ==> ObservedDay(input, ds[0]) && ObservedDay(input, ds[|ds| - 1]))
  {
    var ds := Days(rows);
    if ds == [] {
      forall k | 0 <= k < |input| ensures !Stamped(input[k]) {
        if Stamped(input[k]) {
          assert ObservedDay(input, DateOf(input[k]));
          assert false;
        }
      }
    } else {
      assert ObservedDay(rows, DateOf(rows[0]));
    }
  }

  /** The daily frame has one row per calendar day from the
      earliest to the latest observed day, ascending, with no day skipped, and is empty
      exactly when no timestamp parsed. */
  lemma DailyFrameDays(t: Table)
    requires WellFormed(t) && HUMIDITY in t.numericNames && WindColumn(t.numericNames).Some?
    ensures var ds := DayColumn(DailyFrame(t).rows);
            (ds == [] <==> forall k :: 0 <= k < |t.rows| ==> !Stamped(t.rows[k])) &&
            (forall d :: ObservedDay(t.rows, d) ==> d in ds) &&
            (ds != [] ==> ObservedDay(t.rows, ds[0]) && ObservedDay(t.rows, ds[|ds| - 1])) &&
            DaysAscending(ds) && NoDaySkipped(ds)
  {
    var h := IndexOf(t.numericNames, HUMIDITY).value;
    var rows := Prepare(t, h);
    assert DayColumn(DailyFrame(t).rows) == Days(rows);
    PrepareDates(t, h);
    DaysOfInput(rows, t.rows);
  }

  /** Column j's values on the rows whose timestamp parsed all lie between lo and hi. */
  predicate StampedWithin(rows: seq<Row>, j: nat, lo: real, hi: real)
    requires HasColumn(rows, j)
  {
    forall k :: 0 <= k < |rows| && Stamped(rows[k]) && rows[k].nums[j].Some? ==> lo <= rows[k].nums[j].value <= hi
  }

  /** Column j's values on the rows whose timestamp parsed are all at least lo. */
  predicate StampedAtLeast(rows: seq<Row>, j: nat, lo: real)
    requires HasColumn(rows, j)
  {
    forall k :: 0 <= k < |rows| && Stamped(rows[k]) && rows[k].nums[j].Some? ==> lo <= rows[k].nums[j].value
  }

  /** A column bounded below is bounded above too, by its largest value. */
  lemma StampedBounded(rows: seq<Row>, j: nat, lo: real) returns (hi: real)
    requires HasColumn(rows, j) && StampedAtLeast(rows, j, lo)
    ensures StampedWithin(rows, j, lo, hi)
  {
    var c := Column(rows, j);
    match Max(c)
    case None =>
      hi := lo;
      assert forall k :: 0 <= k < |rows| ==> c[k] == rows[k].nums[j];
    case Some(m) =>
      hi := m;
      assert forall k :: 0 <= k < |rows| ==> c[k] == rows[k].nums[j];
  }

  predicate StampedPresent(rows: seq<Row>, j: nat)
    requires HasColumn(rows, j)
  {
    exists k :: 0 <= k < |rows| && Stamped(rows[k]) && rows[k].nums[j].Some?
  }

  /** Cleaning keeps the bounds of a column's values. */
  lemma CleanWithin(t: Table, j: nat, lo: real, hi: real)
    requires WellFormed(t) && j < |t.numericNames|
    requires StampedWithin(t.rows, j, lo, hi)
    ensures var c := Clean(t.rows);
            HasColumn(c, j) && forall i :: 0 <= i < |c| && c[i].nums[j].Some? ==> lo <= c[i].nums[j].value <= hi
  {
    var c := Clean(t.rows);
    CleanRect(t);
    forall i | 0 <= i < |c| && c[i].nums[j].Some? ensures lo <= c[i].nums[j].value <= hi {
      assert c[i] in c;
      var k :| 0 <= k < |t.rows| && t.rows[k] == c[i];
    }
  }

  /** A value on a row whose timestamp parsed survives cleaning. */
  lemma CleanPresent(t: Table, j: nat)
    requires WellFormed(t) && j < |t.numericNames|
    requires StampedPresent(t.rows, j)
    ensures var c := Clean(t.rows);
            HasColumn(c, j) && exists i :: 0 <= i < |c| && c[i].nums[j].Some?
  {
    var c := Clean(t.rows);
    CleanRect(t);
    var k :| 0 <= k < |t.rows| && Stamped(t.rows[k]) && t.rows[k].nums[j].Some?;
    assert t.rows[k] in c;
    var i0 :| 0 <= i0 < |c| && c[i0] == t.rows[k];
  }

  /** Every prepared humidity is a fraction when every stamped input humidity lies in
      [0, 100], fractions and percentages alike: the rescale turns percentages into
      fractions, and imputation fills in the column mean, which stays inside [0, 1]. When
      the column has a stamped value at all, preparing leaves no humidity missing. */
  lemma PrepareHumidity(t: Table, h: nat)
    requires WellFormed(t) && h < |t.numericNames|
    requires StampedWithin(t.rows, h, 0.0, 100.0)
    ensures forall i :: 0 <= i < |Prepare(t, h)| && Prepare(t, h)[i].nums[h].Some? ==>
              0.0 <= Prepare(t, h)[i].nums[h].value <= 1.0
    ensures StampedPresent(t.rows, h) ==> forall i :: 0 <= i < |Prepare(t, h)| ==> Prepare(t, h)[i].nums[h].Some?
  {
    var c := Clean(t.rows);
    CleanRect(t);
    CleanWithin(t, h, 0.0, 100.0);
    RescaleToFractions(c, h);
    var s := RescaleHumidity(c, h);
    ImputeWithin(s, |t.numericNames|, h, 0.0, 1.0);
    if StampedPresent(t.rows, h) {
      CleanPresent(t, h);
      var i :| 0 <= i < |c| && c[i].nums[h].Some?;
      assert s[i].nums[h].Some?;
      ImputeFillsColumns(s, |t.numericNames|, h);
    }
  }

  /** Imputing keeps any bounds of a column's values. */
  lemma ImputeWithin(s: seq<Row>, numCols: nat, j: nat, lo: real, hi: real)
    requires forall i :: 0 <= i < |s| ==> |s[i].nums| == numCols
    requires j < numCols
    requires forall i :: 0 <= i < |s| && s[i].nums[j].Some? ==> lo <= s[i].nums[j].value <= hi
    ensures forall i :: 0 <= i < |s| && Impute(s, numCols)[i].nums[j].Some? ==>
              lo <= Impute(s, numCols)[i].nums[j].value <= hi
  {
    MeanWithin(Column(s, j), lo, hi);
  }

  /** When all values of column j on rows whose timestamp parsed lie between lo and hi, so do
      all values after preparing: imputation fills in the column mean, which stays inside any
      bounds of the values. And when the column has such a value at all, preparing leaves no
      cell of it missing. For the humidity column this needs the values to be fractions
      already, so that no rescale happens. */
  lemma PrepareWithin(t: Table, h: nat, j: nat, lo: real, hi: real)
    requires WellFormed(t) && h < |t.numericNames| && j < |t.numericNames|
    requires StampedWithin(t.rows, j, lo, hi)
    requires j != h || hi <= 1.0
    ensures forall i :: 0 <= i < |Prepare(t, h)| && Prepare(t, h)[i].nums[j].Some? ==>
              lo <= Prepare(t, h)[i].nums[j].value <= hi
    ensures StampedPresent(t.rows, j) ==> forall i :: 0 <= i < |Prepare(t, h)| ==> Prepare(t, h)[i].nums[j].Some?
  {
    var c := Clean(t.rows);
    CleanRect(t);
    CleanWithin(t, j, lo, hi);
    if j == h {
      assert !SomeAbove(c, h, 1.0);
    }
    var s := RescaleHumidity(c, h);
    assert forall i :: 0 <= i < |s| ==> s[i].nums[j] == c[i].nums[j];
    ImputeWithin(s, |t.numericNames|, j, lo, hi);
    if StampedPresent(t.rows, j) {
      CleanPresent(t, j);
      ImputeFillsColumns(s, |t.numericNames|, j);
    }
  }
}

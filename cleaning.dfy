/** The cleaning half of transform: rows whose timestamp did not parse are dropped, then exact
    duplicates (keeping the first occurrence), then the humidity column is rescaled from percent
    to a fraction when its maximum exceeds 1, then every missing numeric value is replaced by
    its column's mean. */
module Cleaning {
  import opened Wrappers
  import opened Calendar
  import opened Stats

  /** One observation: the parsed "Formatted Date" (None when it did not parse), the numeric
      columns and the text columns ("Precip Type", "Summary", ...), each possibly missing. */
  datatype Row = Row(stamp: Option<Instant>, nums: seq<Option<real>>, texts: seq<Option<string>>)

  /** The data frame read from the CSV file: column names by kind, and its rows. */
  datatype Table = Table(numericNames: seq<string>, textNames: seq<string>, rows: seq<Row>)

  /** Every row has one cell per column. */
  predicate Rect(rows: seq<Row>, numCols: nat, textCols: nat) {
    forall i :: 0 <= i < |rows| ==> |rows[i].nums| == numCols && |rows[i].texts| == textCols
  }

  predicate WellFormed(t: Table) {
    Rect(t.rows, |t.numericNames|, |t.textNames|)
  }

  /** The row's timestamp is a real instant (not NaT after errors="coerce"). */
  predicate Stamped(r: Row) {
    r.stamp.Some? && ValidInstant(r.stamp.value)
  }

  function DateOf(r: Row): Date
    requires Stamped(r)
  {
    r.stamp.value.date
  }

  // ---- dropna(subset=["Formatted Date"]) ----

  function KeepStamped(rows: seq<Row>): (r: seq<Row>)
    ensures |r| <= |rows|
    ensures forall x :: x in r <==> x in rows && Stamped(x)
  {
    if rows == [] then []
    else
      var rest := KeepStamped(rows[1..]);
      assert forall x :: x in rows <==> x == rows[0] || x in rows[1..];
      if Stamped(rows[0]) then [rows[0]] + rest else rest
  }

  // ---- drop_duplicates(keep="first") ----

  /** The position of the first occurrence of x. */
  function FirstIndex(s: seq<Row>, x: Row): (i: nat)
    requires x in s
    ensures i < |s| && s[i] == x && x !in s[..i]
  {
    if s[0] == x then 0
    else
      var i := FirstIndex(s[1..], x);
      assert s[..i + 1] == [s[0]] + s[1..][..i];
      i + 1
  }

  lemma {:induction false} FirstIndexIsFirst(s: seq<Row>, x: Row, i: nat)
    requires i < |s| && s[i] == x && x !in s[..i]
    ensures FirstIndex(s, x) == i
  {
    if i > 0 {
      assert s[..i][0] == s[0];
      assert s[1..][..i - 1] == s[..i][1..];
      FirstIndexIsFirst(s[1..], x, i - 1);
    }
  }

  predicate Distinct(s: seq<Row>) {
    forall i, j :: 0 <= i < j < |s| ==> s[i] != s[j]
  }

  /** drop_duplicates(keep="first"): each row once. */
  function Dedup(s: seq<Row>): (r: seq<Row>)
    ensures forall x :: x in r <==> x in s
    ensures Distinct(r)
  {
    if s == [] then []
    else
      var init, x := s[..|s| - 1], s[|s| - 1];
      assert s == init + [x];
      if x in init then Dedup(init) else Dedup(init) + [x]
  }

  /** The rows Dedup keeps come in the order of their first occurrence. */
  lemma {:induction false} DedupOrder(s: seq<Row>)
    ensures forall p, q :: 0 <= p < q < |Dedup(s)| ==> FirstIndex(s, Dedup(s)[p]) < FirstIndex(s, Dedup(s)[q])
  {
    if s != [] {
      var init, x := s[..|s| - 1], s[|s| - 1];
      DedupOrder(init);
      assert s == init + [x];
      assert forall y :: y in init ==> FirstIndex(s, y) == FirstIndex(init, y) by {
        forall y | y in init ensures FirstIndex(s, y) == FirstIndex(init, y) {
          var k := FirstIndex(init, y);
          assert s[..k] == init[..k];
          FirstIndexIsFirst(s, y, k);
        }
      }
      if x !in init {
        assert FirstIndex(s, x) == |s| - 1 by {
          assert s[..|s| - 1] == init;
          FirstIndexIsFirst(s, x, |s| - 1);
        }
      }
    }
  }

  /** dropna on the timestamp, then drop_duplicates: exactly the stamped rows, each once. */
  function Clean(rows: seq<Row>): (r: seq<Row>)
    ensures forall i :: 0 <= i < |r| ==> Stamped(r[i])
    ensures forall x :: x in r <==> x in rows && Stamped(x)
    ensures Distinct(r)
  {
    var r := Dedup(KeepStamped(rows));
    assert forall p :: 0 <= p < |r| ==> r[p] in r;
    r
  }

  /** The cleaned rows come in the order of their first occurrence in the input. */
  lemma CleanOrder(rows: seq<Row>)
    ensures forall p, q :: 0 <= p < q < |Clean(rows)| ==> FirstIndex(rows, Clean(rows)[p]) < FirstIndex(rows, Clean(rows)[q])
  {
    var k := KeepStamped(rows);
    var r := Clean(rows);
    DedupOrder(k);
    KeepStampedOrder(rows);
    assert forall p :: 0 <= p < |r| ==> r[p] in k;
  }

  /** Filtering keeps the relative order of first occurrences. */
  lemma {:induction false} KeepStampedOrder(rows: seq<Row>)
    ensures forall x, y :: x in KeepStamped(rows) && y in KeepStamped(rows) ==>
              (FirstIndex(KeepStamped(rows), x) < FirstIndex(KeepStamped(rows), y) <==> FirstIndex(rows, x) < FirstIndex(rows, y))
  {
    if rows != [] {
      KeepStampedOrder(rows[1..]);
      var k := KeepStamped(rows);
      var k' := KeepStamped(rows[1..]);
      forall x | x in k && x != rows[0]
        ensures FirstIndex(rows, x) == FirstIndex(rows[1..], x) + 1
        ensures FirstIndex(k, x) == FirstIndex(k', x) + (if Stamped(rows[0]) then 1 else 0)
      {
        if Stamped(rows[0]) {
          assert k[1..] == k';
        }
      }
      if Stamped(rows[0]) {
        assert FirstIndex(k, rows[0]) == 0;
      }
      assert FirstIndex(rows, rows[0]) == 0;
    }
  }

  lemma {:induction false} KeepStampedAll(rows: seq<Row>)
    requires forall i :: 0 <= i < |rows| ==> Stamped(rows[i])
    ensures KeepStamped(rows) == rows
  {
    if rows != [] {
      KeepStampedAll(rows[1..]);
    }
  }

  lemma {:induction false} DedupDistinct(s: seq<Row>)
    requires Distinct(s)
    ensures Dedup(s) == s
  {
    if s != [] {
      var init, x := s[..|s| - 1], s[|s| - 1];
      assert s == init + [x];
      DedupDistinct(init);
      DedupSnoc(init, x);
    }
  }

  /** Appending a new row appends it to the deduplicated prefix. */
  lemma DedupSnoc(init: seq<Row>, x: Row)
    requires x !in init
    ensures Dedup(init + [x]) == Dedup(init) + [x]
  {
    assert (init + [x])[..|init|] == init;
  }

  /** Cleaning its own output changes nothing. */
  lemma CleanIdempotent(rows: seq<Row>)
    ensures Clean(Clean(rows)) == Clean(rows)
  {
    var c := Clean(rows);
    KeepStampedAll(c);
    DedupDistinct(c);
  }

  // ---- the humidity rescale ----

  predicate HasColumn(rows: seq<Row>, j: nat) {
    forall i :: 0 <= i < |rows| ==> j < |rows[i].nums|
  }

  /** df[column]: the column's cells in row order. */
  function Column(rows: seq<Row>, j: nat): (c: seq<Option<real>>)
    requires HasColumn(rows, j)
    ensures |c| == |rows| && forall i :: 0 <= i < |rows| ==> c[i] == rows[i].nums[j]
  {
    seq(|rows|, i requires 0 <= i < |rows| => rows[i].nums[j])
  }

  function Percent(x: Option<real>): Option<real> {
    match x
    case None => None
    case Some(v) => Some(v / 100.0)
  }

  /** Some present value of column j exceeds limit. */
  predicate SomeAbove(rows: seq<Row>, j: nat, limit: real)
    requires HasColumn(rows, j)
  {
    exists i :: 0 <= i < |rows| && rows[i].nums[j].Some? && rows[i].nums[j].value > limit
  }

  /** `if df["Humidity"].max() > 1: df["Humidity"] = df["Humidity"] / 100.0`: one decision for
      the whole column, taken when any present value exceeds 1; no other cell changes. */
  function RescaleHumidity(rows: seq<Row>, h: nat): (r: seq<Row>)
    requires HasColumn(rows, h)
    ensures |r| == |rows| && HasColumn(r, h)
    ensures forall i :: 0 <= i < |rows| ==>
              r[i].stamp == rows[i].stamp && r[i].texts == rows[i].texts && |r[i].nums| == |rows[i].nums| &&
              forall j :: 0 <= j < |rows[i].nums| && j != h ==> r[i].nums[j] == rows[i].nums[j]
    ensures SomeAbove(rows, h, 1.0) ==> forall i :: 0 <= i < |rows| ==> r[i].nums[h] == Percent(rows[i].nums[h])
    ensures !SomeAbove(rows, h, 1.0) ==> r == rows
  {
    var m := Max(Column(rows, h));
    assert m.Some? && m.value > 1.0 <==> SomeAbove(rows, h, 1.0);
    if m.Some? && m.value > 1.0 then
      seq(|rows|, i requires 0 <= i < |rows| => rows[i].(nums := rows[i].nums[h := Percent(rows[i].nums[h])]))
    else
      rows
  }

  /** A percentage column (nothing above 100) is rescaled once: a second pass leaves it alone. */
  lemma RescaleSettles(rows: seq<Row>, h: nat)
    requires HasColumn(rows, h)
    requires !SomeAbove(rows, h, 100.0)
    ensures RescaleHumidity(RescaleHumidity(rows, h), h) == RescaleHumidity(rows, h)
  {
    var r := RescaleHumidity(rows, h);
    if SomeAbove(rows, h, 1.0) {
      assert !SomeAbove(r, h, 1.0) by {
        forall i | 0 <= i < |r| && r[i].nums[h].Some? ensures r[i].nums[h].value <= 1.0 {
          assert r[i].nums[h] == Percent(rows[i].nums[h]);
        }
      }
    }
  }

  /** Conversely, a humidity above 100 is still above 1 after one pass, so a second pass
      divides it again: the rescale settles exactly when no humidity exceeds 100. */
  lemma RescaleUnsettled(rows: seq<Row>, h: nat)
    requires HasColumn(rows, h)
    requires SomeAbove(rows, h, 100.0)
    ensures RescaleHumidity(RescaleHumidity(rows, h), h) != RescaleHumidity(rows, h)
  {
    var i :| 0 <= i < |rows| && rows[i].nums[h].Some? && rows[i].nums[h].value > 100.0;
    assert SomeAbove(rows, h, 1.0);
    var r := RescaleHumidity(rows, h);
    assert r[i].nums[h] == Percent(rows[i].nums[h]);
    assert SomeAbove(r, h, 1.0);
    var r2 := RescaleHumidity(r, h);
    assert r2[i].nums[h] == Percent(r[i].nums[h]);
    assert r2[i].nums[h] != r[i].nums[h];
  }

  /** Percentages become fractions: when every present humidity lies in [0, 100], every
      present humidity after the rescale lies in [0, 1], whether or not the column was
      divided. */
  lemma RescaleToFractions(rows: seq<Row>, h: nat)
    requires HasColumn(rows, h)
    requires forall i :: 0 <= i < |rows| && rows[i].nums[h].Some? ==> 0.0 <= rows[i].nums[h].value <= 100.0
    ensures var r := RescaleHumidity(rows, h);
            forall i :: 0 <= i < |r| && r[i].nums[h].Some? ==> 0.0 <= r[i].nums[h].value <= 1.0
  {
    var r := RescaleHumidity(rows, h);
    if SomeAbove(rows, h, 1.0) {
      forall i | 0 <= i < |r| && r[i].nums[h].Some? ensures 0.0 <= r[i].nums[h].value <= 1.0 {
        assert r[i].nums[h] == Percent(rows[i].nums[h]);
      }
    }
  }

  /** A humidity of 150 is not a fraction after one pass (1.5) and is rescaled again on a
      second pass: cleaning is not idempotent on such input, and its output may lie outside [0, 1]. */
  lemma RescaleNotIdempotent()
    ensures var rows := [Row(None, [Some(150.0)], [])];
            RescaleHumidity(rows, 0) == [Row(None, [Some(1.5)], [])] &&
            RescaleHumidity(RescaleHumidity(rows, 0), 0) == [Row(None, [Some(0.015)], [])]
  {
    var rows := [Row(None, [Some(150.0)], [])];
    assert rows[0].nums[0].Some? && rows[0].nums[0].value > 1.0;
    assert SomeAbove(rows, 0, 1.0);
    var r := RescaleHumidity(rows, 0);
    assert r[0].nums[0] == Some(1.5);
    assert r[0].nums == [Some(1.5)];
    assert r == [Row(None, [Some(1.5)], [])];
    assert r[0].nums[0].Some? && r[0].nums[0].value > 1.0;
    assert SomeAbove(r, 0, 1.0);
    var r2 := RescaleHumidity(r, 0);
    assert r2[0].nums[0] == Some(0.015);
    assert r2[0].nums == [Some(0.015)];
    assert r2 == [Row(None, [Some(0.015)], [])];
  }

  // ---- df.fillna(df.mean(numeric_only=True)) ----

  /** Every missing numeric cell takes its column's mean over all rows; present cells, the
      timestamp and the text columns are untouched. A column with no present value has no
      mean and stays missing. */
  function Impute(rows: seq<Row>, numCols: nat): (r: seq<Row>)
    requires forall i :: 0 <= i < |rows| ==> |rows[i].nums| == numCols
    ensures |r| == |rows|
    ensures forall i :: 0 <= i < |rows| ==>
              r[i].stamp == rows[i].stamp && r[i].texts == rows[i].texts && |r[i].nums| == numCols &&
              forall j :: 0 <= j < numCols ==>
                r[i].nums[j] == if rows[i].nums[j].Some? then rows[i].nums[j] else Mean(Column(rows, j))
  {
    var means := seq(numCols, j requires 0 <= j < numCols => Mean(Column(rows, j)));
    seq(|rows|, i requires 0 <= i < |rows| =>
      rows[i].(nums := seq(numCols, j requires 0 <= j < numCols =>
                             if rows[i].nums[j].Some? then rows[i].nums[j] else means[j])))
  }

  /** Imputation is fillna with the column mean, column by column, and keeps every column mean. */
  lemma ImputeKeepsMeans(rows: seq<Row>, numCols: nat, j: nat)
    requires forall i :: 0 <= i < |rows| ==> |rows[i].nums| == numCols
    requires j < numCols
    ensures Column(Impute(rows, numCols), j) == FillMissing(Column(rows, j), Mean(Column(rows, j)))
    ensures Mean(Column(Impute(rows, numCols), j)) == Mean(Column(rows, j))
  {
    MeanOfMeanFilled(Column(rows, j));
  }

  /** After imputation a column has a missing cell only if it had no present value at all. */
  lemma ImputeFillsColumns(rows: seq<Row>, numCols: nat, j: nat)
    requires forall i :: 0 <= i < |rows| ==> |rows[i].nums| == numCols
    requires j < numCols
    requires exists i :: 0 <= i < |rows| && rows[i].nums[j].Some?
    ensures forall i :: 0 <= i < |rows| ==> Impute(rows, numCols)[i].nums[j].Some?
  {
    var c := Column(rows, j);
    assert exists i :: 0 <= i < |c| && c[i].Some?;
  }

  /** Imputing twice is imputing once. */
  lemma ImputeIdempotent(rows: seq<Row>, numCols: nat)
    requires forall i :: 0 <= i < |rows| ==> |rows[i].nums| == numCols
    ensures Impute(Impute(rows, numCols), numCols) == Impute(rows, numCols)
  {
    var r := Impute(rows, numCols);
    var r2 := Impute(r, numCols);
    forall i | 0 <= i < |rows| ensures r2[i] == r[i] {
      forall j | 0 <= j < numCols ensures r2[i].nums[j] == r[i].nums[j] {
        ImputeKeepsMeans(rows, numCols, j);
      }
      assert r2[i].nums == r[i].nums;
    }
  }
}

# Weather ETL core, modelled and verified in Dafny

This project models the data logic of the weather ETL pipeline in `dags/etl_functions.py`:

- `wind_strength` classifies a wind speed given in km/h on a Beaufort-style table of twelve
  bands, after converting it to m/s.
- `transform` cleans the hourly weather records:
  - it drops rows whose timestamp does not parse;
  - it drops exact duplicates;
  - it rescales the humidity column from percentages when it holds a value above 1;
  - it fills every missing numeric value with its column's mean.

  It then builds two frames. The daily frame has one row per calendar day from the first
  observed day to the last, holds the mean of each numeric column, and labels the daily
  mean wind speed. The monthly frame holds the monthly means, a "YYYY-MM" month label and
  the most frequent precipitation type of the month, attached through a left join on the
  label.
- `validate` runs three ordered range checks on the daily frame: temperature, then
  humidity, then wind speed. The first failing check decides the outcome.

Everything is modelled as pure functions over sequences, because every step of the Python is
a whole-column pandas expression rather than a loop that updates state. Rebinding `df` and
assigning a column are modelled by returning the new value. The modules follow the
pipeline's steps:

| file | module | what it holds |
|---|---|---|
| wrappers.dfy | `Wrappers` | `Option` (a missing value, NaN) and `Result` (a raised error) |
| calendar.dfy | `Calendar` | UTC dates and months, the day and month ranges `resample` builds, the "YYYY-MM" label |
| wind_scale.dfy | `WindScale` | the band table and `wind_strength` |
| stats.dfy | `Stats` | skip-NaN mean, maximum, NaN filling, and the mode with its tie-break |
| schema.dfy | `Schema` | finding a column by its exact name and finding the wind column by substring |
| cleaning.dfy | `Cleaning` | records and tables; dropping rows without a timestamp; dropping duplicates; humidity rescaling; mean imputation |
| aggregation.dfy | `Aggregation` | daily and monthly binning, bin means, the monthly mode table and the left join |
| pipeline.dfy | `Pipeline` | `transform` end to end, with the errors it raises |
| validation.dfy | `Validation` | `validate` and what it says about frames that `transform` produced |

Data model:

- A record (`Cleaning.Row`) carries its timestamp as an already-parsed `Option<Instant>`: a
  UTC date plus a second of the day.
- Numeric cells are `Option<real>` and text cells are `Option<string>`, with `None`
  standing for NaN.
- A table (`Cleaning.Table`) gives the names of its numeric columns and of its text columns
  (the columns `select_dtypes(include="number")` keeps and the columns it drops), together
  with the rows.
- `Stamped` is what `pd.to_datetime(..., errors="coerce")` accepts. The date must be a real
  calendar day, the second must lie within the day, and the instant must lie inside the
  range of a pandas nanosecond `Timestamp`.

## Model

| member | source | states |
|---|---|---|
| WindScale.Scan | dags/etl_functions.py:37-39 | The scan finds nothing exactly when no band holds the value. Otherwise it returns the label of a band that holds the value, and no earlier band holds it: the first match wins. |
| WindScale.ScaleIsAscending | dags/etl_functions.py:29-36 | The table as written is ascending. Every band is a proper interval, and every band but the last ends strictly below where the next one starts. |
| WindScale.AscendingApart | dags/etl_functions.py:29-36 | In an ascending table, any band ends strictly before any later band begins. |
| WindScale.AtMostOneBand | dags/etl_functions.py:37-39 | On the ascending table at most one band holds a given value, so the first match is the only match. |
| WindScale.MissLiesInGap | dags/etl_functions.py:29-39 | On an ascending table with an open-ended last band, a value at or above the first lower bound that no band holds lies in a gap between two consecutive bands. |
| WindScale.GapMisses | dags/etl_functions.py:29-39 | Conversely, a value below the first band or inside a gap is held by no band. |
| WindScale.ScaleScan | dags/etl_functions.py:29-39 | On the table as written, the scan finds no band exactly when the value is negative or in a gap. A value in band i gets the label of band i. |
| WindScale.WindStrength | dags/etl_functions.py:25-39 | `wind_strength` returns no label exactly when the speed is missing, its m/s value (km/h divided by 3.6) is negative, or that value lies in a gap of the table. Otherwise it returns the label of a band holding the m/s value, and a speed in band i gets the label of band i. |
| WindScale.WindStrengthExamples | dags/etl_functions.py:25-39 | 5 km/h is "Calm" and 20 km/h is "Gentle Breeze". 5.58 km/h (1.55 m/s) falls in the gap after "Calm" and gets no label. |
| Calendar.DayRange | dags/etl_functions.py:71 | The daily index holds every calendar day from the first day to the last, strictly ascending, and is empty exactly when the first day is after the last. |
| Calendar.MonthRange | dags/etl_functions.py:85 | The monthly index holds every month from the first month to the last, strictly ascending, and is empty exactly when the first month is after the last. |
| Calendar.NextDayIsSuccessor | dags/etl_functions.py:71 | No valid day lies strictly between a day and the next day. |
| Calendar.NextMonthIsSuccessor | dags/etl_functions.py:85 | No valid month lies strictly between a month and the next month. |
| Calendar.NextDay | dags/etl_functions.py:71 | The next calendar day comes strictly after the day. |
| Calendar.NextMonth | dags/etl_functions.py:85 | The next month, the step of the monthly index, comes strictly after the month, including the rollover from December to January. |
| Calendar.MonthOfMonotone | dags/etl_functions.py:85-90 | Bucketing days into months keeps their order. |
| Calendar.Padded | dags/etl_functions.py:86 | Zero-padding gives exactly `width` decimal digits. |
| Calendar.PaddedRoundTrip | dags/etl_functions.py:86 | Reading the padded digits back gives the number. |
| Calendar.MonthLabel | dags/etl_functions.py:86 | `str(period)` is seven characters: four year digits, '-', two month digits. |
| Calendar.MonthLabelRoundTrip | dags/etl_functions.py:86 | Parsing a month's label gives the month back. |
| Calendar.MonthLabelInjective | dags/etl_functions.py:95-101 | Different months have different labels, so joining on the label is joining on the month. |
| Stats.Present | dags/etl_functions.py:65 | The non-missing values of a column, so never more of them than cells. |
| Stats.PresentMembers | dags/etl_functions.py:91 | A value is among the present values exactly when some cell holds it. |
| Stats.PresentEmpty | dags/etl_functions.py:91 | No value is present exactly when every cell is missing. |
| Stats.PresentCounts | dags/etl_functions.py:91 | Dropping the missing cells keeps each value's number of occurrences. |
| Stats.Mean | dags/etl_functions.py:65-71 | The skip-NaN mean is missing exactly when every cell is missing. |
| Stats.MeanWithin | dags/etl_functions.py:71 | When every present value lies in [lo, hi], so does the mean. |
| Stats.PresentWithin | dags/etl_functions.py:71 | Dropping the missing cells keeps the bounds of the present values. |
| Stats.Max | dags/etl_functions.py:61 | The skip-NaN maximum is missing exactly when every cell is missing. Otherwise it is one of the values and no value exceeds it. |
| Stats.MaxOf | dags/etl_functions.py:61 | The maximum of a non-empty list of values is one of them, and none exceeds it. |
| Stats.FillMissing | dags/etl_functions.py:65 | `fillna(v)` keeps every present cell and puts v in every missing one. |
| Stats.FilledSum | dags/etl_functions.py:65 | After filling, every cell is present, and the sum grows by v once for each cell that was missing. |
| Stats.MeanOfMeanFilled | dags/etl_functions.py:65 | Filling a column with its own mean leaves its mean unchanged. |
| Stats.StrLeTotal | dags/etl_functions.py:91 | The string order that `mode()` sorts by is total. |
| Stats.StrLeAntisymmetric | dags/etl_functions.py:91 | The string order is antisymmetric. |
| Stats.StrLeTransitive | dags/etl_functions.py:91 | The string order is transitive. |
| Stats.Best | dags/etl_functions.py:91 | The chosen candidate is one of the candidates and beats every candidate: it is more frequent, or it is as frequent and not greater. |
| Stats.Mode | dags/etl_functions.py:91 | `x.mode().iloc[0]` is missing exactly when no value is present. Otherwise it is a most frequent present value and the smallest of those. |
| Stats.ModeIsUnique | dags/etl_functions.py:91 | Only one value meets that description. |
| Stats.ModeCharacterised | dags/etl_functions.py:91 | The mode is m exactly when m meets that description. |
| Stats.ModeExample | dags/etl_functions.py:91 | The mode of Rain, Rain, Snow is Rain. The mode of two missing values is missing. |
| Schema.LoweredIdempotent | dags/etl_functions.py:74 | Lower-casing a lower-cased name changes nothing. |
| Schema.NamesWindIgnoresCase | dags/etl_functions.py:74 | Whether a name mentions wind does not depend on the case of its letters: a name and its lower-cased form are both wind columns or neither is. |
| Schema.ContainsFrom | dags/etl_functions.py:74 | The search starting at position k succeeds exactly when the pattern occurs at some position k or later. |
| Schema.Contains | dags/etl_functions.py:74 | `t in s` holds exactly when t occurs in s at some position. |
| Schema.FirstWindFrom | dags/etl_functions.py:74-78 | From a given position on, this finds the first column whose lower-cased name contains "wind", and it is missing exactly when no such column exists. |
| Schema.WindColumn | dags/etl_functions.py:74-78 | `wind_col_candidates[0]` is the first column whose lower-cased name contains "wind". It is missing exactly when no such column exists. |
| Schema.IndexOf | dags/etl_functions.py:61 | This finds the first column with exactly the given name, and it is missing exactly when no column has that name. |
| Schema.HumidityIsNotWind | dags/etl_functions.py:61-74 | "Humidity" does not contain "wind" in any case, so the column transform rescales is never the wind column. |
| Cleaning.KeepStamped | dags/etl_functions.py:56-57 | After `dropna(subset=["Formatted Date"])`, a row remains exactly when it was an input row with a parsed timestamp. |
| Cleaning.KeepStampedOrder | dags/etl_functions.py:57 | Dropping the unstamped rows keeps the relative order of the remaining rows, compared by first occurrence. |
| Cleaning.KeepStampedAll | dags/etl_functions.py:57 | When every row is stamped, nothing is dropped. |
| Cleaning.FirstIndex | dags/etl_functions.py:57 | The position of a row's first occurrence. |
| Cleaning.FirstIndexIsFirst | dags/etl_functions.py:57 | A position holding the row, with no occurrence of the row before it, is the row's first occurrence. |
| Cleaning.Dedup | dags/etl_functions.py:57 | After `drop_duplicates()`, a row occurs in the result exactly when it occurs in the input, and no row occurs twice. |
| Cleaning.DedupOrder | dags/etl_functions.py:57 | The kept rows come in the order of their first occurrences in the input, so the first occurrence is the one kept. |
| Cleaning.DedupDistinct | dags/etl_functions.py:57 | A table without duplicates is left unchanged. |
| Cleaning.DedupSnoc | dags/etl_functions.py:57 | A row that has not occurred before is kept, at the end. |
| Cleaning.Clean | dags/etl_functions.py:56-57 | The cleaned rows are exactly the input rows that have a parsed timestamp. Every one is stamped and none occurs twice. |
| Cleaning.CleanOrder | dags/etl_functions.py:56-57 | The cleaned rows keep the order of their first occurrences in the input. |
| Cleaning.CleanIdempotent | dags/etl_functions.py:56-57 | Cleaning cleaned rows changes nothing. |
| Cleaning.RescaleHumidity | dags/etl_functions.py:61-62 | This is one decision for the whole column. When some present humidity exceeds 1, every humidity cell is divided by 100. Otherwise the rows are unchanged. Timestamps, text cells and the other numeric cells never change. |
| Cleaning.RescaleSettles | dags/etl_functions.py:61-62 | When no humidity exceeds 100, rescaling a second time changes nothing. |
| Cleaning.RescaleUnsettled | dags/etl_functions.py:61-62 | When some humidity exceeds 100, a second pass changes the result: that value is still above 1 after one pass and is divided again. |
| Cleaning.RescaleToFractions | dags/etl_functions.py:61-62 | When every present humidity lies in [0, 100], every present humidity after the rescale lies in [0, 1]: percentages are divided, and a column of fractions is left alone. |
| Cleaning.RescaleNotIdempotent | dags/etl_functions.py:61-62 | A humidity of 150 becomes 1.5 after one pass and 0.015 after a second pass: the step is not idempotent. |
| Cleaning.Impute | dags/etl_functions.py:65 | Every present numeric cell is kept, and every missing numeric cell becomes its column's skip-NaN mean. Timestamps and text cells, `Precip Type` among them, are unchanged. |
| Cleaning.ImputeKeepsMeans | dags/etl_functions.py:65 | Each imputed column is `fillna` of the column with its mean, and its mean is unchanged. |
| Cleaning.ImputeFillsColumns | dags/etl_functions.py:65 | A column with at least one present value has no missing cell after imputation. |
| Cleaning.ImputeIdempotent | dags/etl_functions.py:65 | Imputing a second time changes nothing. |
| Aggregation.Where | dags/etl_functions.py:71-85 | This selects the rows a bin keeps. Each selected row occurs as often as in the input, and no other row occurs. |
| Aggregation.WhereKeepsRect | dags/etl_functions.py:71-85 | Selected rows keep their cell counts. |
| Aggregation.WhereNone | dags/etl_functions.py:71-85 | When the predicate accepts no row, the bin is empty. |
| Aggregation.MinDay | dags/etl_functions.py:71 | This is the earliest observed day: a day of some row, and no row is earlier. |
| Aggregation.MaxDay | dags/etl_functions.py:71 | This is the latest observed day: a day of some row, and no row is later. |
| Aggregation.Days | dags/etl_functions.py:71 | The daily index holds every observed day. Its first and last days were observed, and it is strictly ascending with no calendar day skipped between them. It is empty exactly when there are no rows. |
| Aggregation.Months | dags/etl_functions.py:85 | The monthly index holds the month of every row. Its first and last months were observed, and it is strictly ascending with no month skipped between them. It is empty exactly when there are no rows. |
| Aggregation.BinMeans | dags/etl_functions.py:71-85 | Each entry of a bin's means is the skip-NaN mean of that column over the bin. |
| Aggregation.DayMeans | dags/etl_functions.py:71 | A day's means have one entry per numeric column. |
| Aggregation.MonthMeans | dags/etl_functions.py:85 | A month's means have one entry per numeric column. |
| Aggregation.DailyRows | dags/etl_functions.py:71-79 | The daily frame has one row per day of the daily index, in order. Each row holds the means of that day's rows, and `wind_strength` is the classifier applied to that day's mean wind speed. |
| Aggregation.EmptyDay | dags/etl_functions.py:71 | A day of the index on which nothing was observed gets a row whose means are all missing, and whose wind label is therefore missing. |
| Aggregation.DayMeanWithin | dags/etl_functions.py:71 | When a column's present values all lie in [lo, hi], so does each present daily mean. |
| Aggregation.ObservedDayHasMean | dags/etl_functions.py:71 | An observed day has a mean in every column that has no missing cell. |
| Aggregation.BinWithin | dags/etl_functions.py:71-85 | A bin drawn from the rows keeps the rows' bounds on a column. |
| Aggregation.MonthEnd | dags/etl_functions.py:85 | `resample("M")` labels a month with its last calendar day: a valid day of that month that no day of the month comes after. |
| Aggregation.MonthlyMeanRows | dags/etl_functions.py:85-86 | There is one row per month of the monthly index, in order. Each row holds the month-end date, the "YYYY-MM" label of the month and the means of that month's rows. |
| Aggregation.MonthsWithRows | dags/etl_functions.py:90 | This keeps exactly the months with a row in them, and keeps them ascending. |
| Aggregation.ObservedMonths | dags/etl_functions.py:90 | The groups of `groupby(to_period("M"))` are exactly the months with a row in them, ascending. |
| Aggregation.ObservedInRange | dags/etl_functions.py:90 | Every observed month is among the months of the index. |
| Aggregation.ObservedValid | dags/etl_functions.py:90 | Every observed month is a valid month. |
| Aggregation.ModeTable | dags/etl_functions.py:89-95 | There is one entry per observed month. Its key is the month's label and its value is the mode of that month's precipitation types. No two entries share a key. |
| Aggregation.Matches | dags/etl_functions.py:98-103 | A value is listed exactly when some entry whose key equals the label holds it, and never more values than entries. The result is empty exactly when no key equals the label. |
| Aggregation.LeftJoin | dags/etl_functions.py:98-103 | The left join never loses a left row, and an empty left side gives an empty result. |
| Aggregation.Lookup | dags/etl_functions.py:98-103 | A label absent from the mode table gets a missing mode. When the keys are distinct, a present label gets its entry's mode. |
| Aggregation.MatchesUnique | dags/etl_functions.py:98-103 | When the keys are distinct, a label matches at most one entry. |
| Aggregation.LeftJoinUnique | dags/etl_functions.py:98-103 | When the keys are distinct, the join keeps every left row, in order and once. Each row is extended with the mode its label looks up, or a missing mode. |
| Aggregation.LeftJoinDuplicates | dags/etl_functions.py:98-103 | When two entries share a key, the left row is repeated once per match, as pandas `merge` does. |
| Aggregation.MonthlyRows | dags/etl_functions.py:85-103 | The monthly frame has one row per month of the index, in order. Each row holds the month-end date, the label, the month's means and the mode of the month's precipitation types, which is missing for a month with no rows. |
| Aggregation.MonthMode | dags/etl_functions.py:89-103 | Looking a month's label up in the mode table gives the mode of that month's precipitation types, including for a month of the index that has no rows. |
| Pipeline.CleanRect | dags/etl_functions.py:56-57 | Cleaned rows keep one cell per column. |
| Pipeline.Prepare | dags/etl_functions.py:56-65 | The rows after cleaning, rescaling and imputation are stamped and rectangular. They are as many as the cleaned rows, with the cleaned rows' timestamps and text cells. |
| Pipeline.DailyFrame | dags/etl_functions.py:71-79 | Every row of the daily frame has one mean per numeric column. |
| Pipeline.MonthlyFrame | dags/etl_functions.py:85-103 | The monthly frame keeps the input's numeric columns and has one row per month of the monthly index of the prepared rows, in order. Each row holds the month-end date, the "YYYY-MM" label, the month's means and the mode of its precipitation types. |
| Pipeline.Transform | dags/etl_functions.py:51-108 | These are the errors `transform` stops with, in its order, each exactly under its condition: no Humidity column (KeyError); a Humidity column that holds text (TypeError from `max() > 1`); no column naming wind (KeyError); no Precip Type column (KeyError). Otherwise the result is the daily frame and the monthly frame. |
| Pipeline.CleanStampsSameDays | dags/etl_functions.py:56-65 | Rows with the timestamps of the cleaned rows were observed on exactly the days of the stamped input. |
| Pipeline.PrepareDates | dags/etl_functions.py:56-65 | The prepared rows were observed on exactly the days of the stamped input. |
| Pipeline.DaysOfInput | dags/etl_functions.py:71 | Stated for the input: the daily index is empty exactly when no timestamp parsed, it holds every observed day, and its first and last days were observed. |
| Pipeline.DailyFrameDays | dags/etl_functions.py:56-79 | The days of the daily frame are empty exactly when no input timestamp parsed. They hold every observed input day, start and end on observed days, and are strictly ascending with no calendar day skipped. |
| Pipeline.CleanWithin | dags/etl_functions.py:56-57 | Cleaning keeps the bounds of a column's values. |
| Pipeline.CleanPresent | dags/etl_functions.py:56-57 | A value present in a stamped input row is still present after cleaning. |
| Pipeline.ImputeWithin | dags/etl_functions.py:65 | Imputation keeps the bounds of a column's values. |
| Pipeline.PrepareWithin | dags/etl_functions.py:56-65 | When the stamped input keeps a column in [lo, hi], so does every prepared value. A column with any stamped value has no missing cell after preparation. For the humidity column the bound is a fraction bound (hi <= 1); PrepareHumidity states what happens to percentages. |
| Pipeline.PrepareHumidity | dags/etl_functions.py:56-65 | When every stamped input humidity lies in [0, 100], as fractions or as percentages, every prepared humidity lies in [0, 1]. When the column has any stamped value, no prepared humidity is missing. |
| Validation.AllBetween | dags/etl_functions.py:116-120 | `series.between(lo, hi).all()` holds exactly when every cell is present and within [lo, hi]. |
| Validation.AnyNegative | dags/etl_functions.py:124 | `(series < 0).any()` holds exactly when some cell is present and negative. |
| Validation.Validate | dags/etl_functions.py:112-127 | Each verdict holds exactly under its condition, in order. No temperature column (KeyError). A temperature outside [-50, 50] or missing. No humidity column (KeyError). A humidity outside [0, 1] or missing. A negative wind speed in the first column naming wind. Otherwise it passes. |
| Validation.MissingTemperatureFails | dags/etl_functions.py:116-117 | A single missing daily temperature fails the temperature check. |
| Validation.ExampleColumns | dags/etl_functions.py:116-123 | In the example frame, temperature and humidity are found by name, and the wind column is the first column. |
| Validation.ValidateExamples | dags/etl_functions.py:116-127 | 51 degrees fails on temperature, a humidity of 1.2 fails on humidity, a wind speed of -3 fails on wind, and a day inside every range passes. |
| Validation.GapDayRow | dags/etl_functions.py:71 | A day of the daily frame on which nothing was observed has a row with every mean missing. |
| Validation.GapDayFails | dags/etl_functions.py:116-117 | Such a day makes `validate` fail on temperature. |
| Validation.DayMeanBetween | dags/etl_functions.py:71 | The mean, on an observed day, of a column with no missing cell and every value in [lo, hi] is present and within [lo, hi]. |
| Validation.DailyColumnBetween | dags/etl_functions.py:71 | When every day of the frame was observed, a column with no missing cell and every value in [lo, hi] gives daily means that are all present and within [lo, hi]. |
| Validation.DailyColumnNonNegative | dags/etl_functions.py:71 | A column with no negative value gives no negative daily mean. |
| Validation.PreparedCells | dags/etl_functions.py:56-65 | The prepared rows keep the input's bounds on a column (for the humidity column, only a fraction bound, hi <= 1; PrepareHumidity covers percentages). When some stamped input row has a value in the column, no cell of it is missing. |
| Validation.DaysObserved | dags/etl_functions.py:71 | When the input skips no day between two observed days, every day of the daily index was observed. |
| Validation.GapInDays | dags/etl_functions.py:71 | A calendar day between two observed days is in the daily index. |
| Validation.GapFails | dags/etl_functions.py:56-117 | An input that skips a day between two observed days gives a daily frame that `validate` rejects on temperature. |
| Validation.FrameBetween | dags/etl_functions.py:65-79 | When the input skips no day and a column of the prepared rows has every cell present and in [lo, hi], every daily mean of that column is present and within [lo, hi]. |
| Validation.FrameColumnBetween | dags/etl_functions.py:56-79 | When the input skips no day and a column of it has a stamped value with every value in [lo, hi] (humidity as a fraction), every daily mean of that column is present and within [lo, hi]. |
| Validation.FrameHumidityBetween | dags/etl_functions.py:56-120 | When the input skips no day and its humidity column has a stamped value, with every value in [0, 100], every daily humidity lies in [0, 1], so the humidity check of `validate` holds. |
| Validation.WindIsNotHumidity | dags/etl_functions.py:61-78 | The wind column transform finds is never its humidity column. |
| Validation.FrameWindNonNegative | dags/etl_functions.py:56-124 | When no stamped input wind speed is negative, no daily mean wind speed is negative, so the wind check of `validate` holds. |
| Validation.PipelinePasses | dags/etl_functions.py:51-127 | When the input skips no day, temperatures lie in [-50, 50], humidities lie in [0, 100] (fractions or percentages), no wind speed is negative, and temperature and humidity each have a value, the daily frame `transform` writes passes `validate`. With GapFails this is an equivalence: for such in-range data, validation passes exactly when the input skips no day. |

What the code does at its edges, as the model states it:

- The wind table has gaps: 1.5 to 1.6 m/s, 3.3 to 3.4, 5.4 to 5.5, and so on between every
  two bands. A speed in a gap, such as 5.58 km/h (1.55 m/s), falls through the loop and gets
  no label (`WindStrength`, `WindStrengthExamples`). 5 km/h (1.39 m/s) is "Calm".
- `resample("D")` adds a row of missing means for each day between the first and the last
  observed day on which nothing was observed (`EmptyDay`). `validate` rejects that row on
  temperature, because a missing value is not `between(-50, 50)` (`GapFails`).
- The humidity rescale divides by 100 once, and only when the column's maximum exceeds 1. A
  humidity of 150 becomes 1.5 (`RescaleNotIdempotent`). `validate` checks daily means, not
  single readings. A day is rejected when its mean humidity still exceeds 1, for example
  when 150 is its only reading, but readings of 150 and 10 on one day average 0.8 and pass.
  A column within [0, 100] ends in [0, 1] (`RescaleToFractions`, `PrepareHumidity`).
- Dropping rows without a timestamp and dropping duplicates is idempotent
  (`CleanIdempotent`). The humidity rescale is idempotent exactly when no humidity
  exceeds 100 (`RescaleSettles`, `RescaleUnsettled`).
- `mode()` returns its values sorted and `iloc[0]` takes the first, so among the most
  frequent precipitation types of a month the smallest string wins (`Mode`).

## Left out

- File and database I/O are not modelled: the path constants and `os.makedirs`, `extract`,
  `read_csv`, `to_csv`, and `load_daily`/`load_monthly`. The model takes the table in memory
  and returns the frames. The Airflow DAG in `dags/airflow_dag_weather_etl.py` is not part of
  this model.
- Timestamp strings: `pd.to_datetime(..., utc=True)` parsing and time-zone conversion are a
  library call. Timestamps arrive already parsed into a UTC date and a whole second, and an
  unparseable or out-of-range one is `None`. Sub-second precision is not modelled.
- Floating point: values are exact `real`s and NaN is `None`. Rounding in the division by
  3.6, in the means and in the CSV round trip between `transform` and `validate` is not
  modelled. `validate` is applied to the daily frame itself.
- `lower()` is modelled on ASCII letters only.
- Duplicate column names are not modelled. The wind lookup runs over the numeric columns. A missing "Formatted Date" column
  (a KeyError) is not modelled: every record has a timestamp field.
- Column types are fixed by the table: a "Precip Type" column that pandas reads as numeric is
  not modelled.
- Pipeline.Transform: a Humidity column holding text is always reported as
  `HumidityNotNumeric`, the TypeError of comparing a string maximum with 1. When no kept row
  holds a value in that column (no timestamp parsed, or the text is only in rows without a
  timestamp), pandas' maximum is NaN, `NaN > 1` is false, and `transform` goes on without a
  numeric humidity column. The model does not follow that path.
- Validation.Validate: when no numeric column names wind, the frame passes the wind check.
  The real daily CSV also carries the text column `wind_strength`, which `validate` would
  then pick. This never happens for a frame that `transform` produced, because `transform`
  requires a wind column, which comes before `wind_strength`.
- Aggregation.Where: its contract states which rows a bin holds and how often, not their
  order. The order of rows inside a bin does not affect a mean or a mode.
- Aggregation.LeftJoin: its own contract states only that no left row is lost. The exact
  result is stated by LeftJoinUnique for distinct keys, and by LeftJoinDuplicates for a
  repeated key.
- The writes of `daily["wind_strength"]`, `monthly["month"]` and `mode.index` are modelled
  as fields of the result rows, not as column assignments in place.

/** Calendar days and months (UTC), the buckets of the daily and monthly resampling,
    and the "YYYY-MM" label that monthly periods are rendered with. */
module Calendar {

  datatype Date = Date(year: int, month: int, day: int)
  datatype Month = Month(year: int, month: int)

  /** A UTC instant, to whole seconds after midnight of `date`. */
  datatype Instant = Instant(date: Date, second: int)

  const FIRST_YEAR := 1
  const LAST_YEAR := 9999
  const SECONDS_PER_DAY := 86400

  predicate IsLeapYear(y: int) {
    y % 4 == 0 && (y % 100 != 0 || y % 400 == 0)
  }

  function DaysInMonth(y: int, m: int): int {
    if m == 2 then (if IsLeapYear(y) then 29 else 28)
    else if m == 4 || m == 6 || m == 9 || m == 11 then 30
    else 31
  }

  predicate ValidDate(d: Date) {
    FIRST_YEAR <= d.year <= LAST_YEAR && 1 <= d.month <= 12 && 1 <= d.day <= DaysInMonth(d.year, d.month)
  }

  predicate ValidMonth(m: Month) {
    FIRST_YEAR <= m.year <= LAST_YEAR && 1 <= m.month <= 12
  }

  predicate DayBefore(a: Date, b: Date) {
    a.year < b.year || (a.year == b.year && (a.month < b.month || (a.month == b.month && a.day < b.day)))
  }

  predicate DayAtMost(a: Date, b: Date) {
    DayBefore(a, b) || a == b
  }

  predicate MonthBefore(a: Month, b: Month) {
    a.year < b.year || (a.year == b.year && a.month < b.month)
  }

  predicate MonthAtMost(a: Month, b: Month) {
    MonthBefore(a, b) || a == b
  }

  predicate InstantBefore(a: Instant, b: Instant) {
    DayBefore(a.date, b.date) || (a.date == b.date && a.second < b.second)
  }

  /** The earliest and latest whole-second instants a pandas nanosecond Timestamp can hold
      (1677-09-21 00:12:43.145224193 and 2262-04-11 23:47:16.854775807). */
  const EARLIEST_TIMESTAMP := Instant(Date(1677, 9, 21), 764)
  const LATEST_TIMESTAMP := Instant(Date(2262, 4, 11), 85636)

  /** An instant that pd.to_datetime(..., errors="coerce") turns into a timestamp rather than NaT:
      a real calendar day, a second within that day, and inside pandas' Timestamp range. */
  predicate ValidInstant(i: Instant) {
    && ValidDate(i.date)
    && 0 <= i.second < SECONDS_PER_DAY
    && !InstantBefore(i, EARLIEST_TIMESTAMP)
    && !InstantBefore(LATEST_TIMESTAMP, i)
  }

  function MonthOf(d: Date): (m: Month)
    ensures ValidDate(d) ==> ValidMonth(m)
  {
    Month(d.year, d.month)
  }

  lemma MonthOfMonotone(a: Date, b: Date)
    requires DayAtMost(a, b)
    ensures MonthAtMost(MonthOf(a), MonthOf(b))
  {
  }

  function NextDay(d: Date): (e: Date)
    requires ValidDate(d)
    ensures DayBefore(d, e)
  {
    if d.day < DaysInMonth(d.year, d.month) then Date(d.year, d.month, d.day + 1)
    else if d.month < 12 then Date(d.year, d.month + 1, 1)
    else Date(d.year + 1, 1, 1)
  }

  /** NextDay is the immediate successor: no valid day lies strictly between d and NextDay(d). */
  lemma NextDayIsSuccessor(d: Date, e: Date)
    requires ValidDate(d) && ValidDate(e) && DayBefore(d, e)
    ensures ValidDate(NextDay(d)) && DayAtMost(NextDay(d), e)
  {
  }

  function NextMonth(m: Month): (n: Month)
    ensures MonthBefore(m, n)
  {
    if m.month < 12 then Month(m.year, m.month + 1) else Month(m.year + 1, 1)
  }

  lemma NextMonthIsSuccessor(m: Month, n: Month)
    requires ValidMonth(m) && ValidMonth(n) && MonthBefore(m, n)
    ensures ValidMonth(NextMonth(m)) && MonthAtMost(NextMonth(m), n)
  {
  }

  /** Every calendar day from `first` to `last`, the index that resample("D") builds. */
  function DayRange(first: Date, last: Date): (r: seq<Date>)
    requires ValidDate(first) && ValidDate(last)
    ensures DayAtMost(first, last) <==> r != []
    ensures r != [] ==> r[0] == first && r[|r| - 1] == last
    ensures forall i :: 0 <= i < |r| ==> ValidDate(r[i]) && DayAtMost(first, r[i]) && DayAtMost(r[i], last)
    ensures forall i, j :: 0 <= i < j < |r| ==> DayBefore(r[i], r[j])
    ensures forall d :: ValidDate(d) && DayAtMost(first, d) && DayAtMost(d, last) ==> d in r
    decreases last.year - first.year, 12 - first.month, 31 - first.day
  {
    if DayBefore(last, first) then []
    else if first == last then [first]
    else
      NextDayIsSuccessor(first, last);
      var rest := DayRange(NextDay(first), last);
      assert forall d :: ValidDate(d) && DayBefore(first, d) ==> DayAtMost(NextDay(first), d) by {
        forall d | ValidDate(d) && DayBefore(first, d) ensures DayAtMost(NextDay(first), d) {
          NextDayIsSuccessor(first, d);
        }
      }
      [first] + rest
  }

  /** Every calendar month from `first` to `last`, the index that resample("M") builds. */
  function MonthRange(first: Month, last: Month): (r: seq<Month>)
    requires ValidMonth(first) && ValidMonth(last)
    ensures MonthAtMost(first, last) <==> r != []
    ensures r != [] ==> r[0] == first && r[|r| - 1] == last
    ensures forall i :: 0 <= i < |r| ==> ValidMonth(r[i]) && MonthAtMost(first, r[i]) && MonthAtMost(r[i], last)
    ensures forall i, j :: 0 <= i < j < |r| ==> MonthBefore(r[i], r[j])
    ensures forall m :: ValidMonth(m) && MonthAtMost(first, m) && MonthAtMost(m, last) ==> m in r
    decreases last.year - first.year, 12 - first.month
  {
    if MonthBefore(last, first) then []
    else if first == last then [first]
    else
      var rest := MonthRange(NextMonth(first), last);
      [first] + rest
  }

  // ---- the "YYYY-MM" label of a monthly period ----

  function Pow10(n: nat): (p: nat)
    ensures p >= 1
  {
    if n == 0 then 1 else 10 * Pow10(n - 1)
  }

  predicate IsDigit(c: char) {
    '0' <= c <= '9'
  }

  /** `n` written in decimal with exactly `width` digits, zero-padded on the left. */
  function Padded(n: nat, width: nat): (s: string)
    requires n < Pow10(width)
    ensures |s| == width
    ensures forall i :: 0 <= i < |s| ==> IsDigit(s[i])
  {
    if width == 0 then ""
    else Padded(n / 10, width - 1) + [('0' as int + n % 10) as char]
  }

  /** The number a string of decimal digits denotes. */
  function DigitsValue(s: string): int
    requires forall i :: 0 <= i < |s| ==> IsDigit(s[i])
  {
    if s == [] then 0
    else 10 * DigitsValue(s[..|s| - 1]) + (s[|s| - 1] as int - '0' as int)
  }

  lemma {:induction false} PaddedRoundTrip(n: nat, width: nat)
    requires n < Pow10(width)
    ensures DigitsValue(Padded(n, width)) == n
  {
    if width > 0 {
      var s := Padded(n, width);
      assert s[..|s| - 1] == Padded(n / 10, width - 1);
      PaddedRoundTrip(n / 10, width - 1);
    }
  }

  /** str(period) for a monthly pandas Period: the year in four digits, '-', the month in two. */
  function MonthLabel(m: Month): (s: string)
    requires ValidMonth(m)
    ensures |s| == 7 && s[4] == '-'
    ensures forall i :: 0 <= i < 7 && i != 4 ==> IsDigit(s[i])
  {
    Padded(m.year, 4) + "-" + Padded(m.month, 2)
  }

  /** Reads a "YYYY-MM" label back into its month. */
  function ParseMonthLabel(s: string): Month
    requires |s| == 7 && forall i :: 0 <= i < 7 && i != 4 ==> IsDigit(s[i])
  {
    Month(DigitsValue(s[..4]), DigitsValue(s[5..]))
  }

  lemma MonthLabelRoundTrip(m: Month)
    requires ValidMonth(m)
    ensures ParseMonthLabel(MonthLabel(m)) == m
  {
    var s := MonthLabel(m);
    assert s[..4] == Padded(m.year, 4);
    assert s[5..] == Padded(m.month, 2);
    PaddedRoundTrip(m.year, 4);
    PaddedRoundTrip(m.month, 2);
  }

  /** Two different months never share a label, so joining on the label is joining on the month. */
  lemma MonthLabelInjective(a: Month, b: Month)
    requires ValidMonth(a) && ValidMonth(b) && MonthLabel(a) == MonthLabel(b)
    ensures a == b
  {
    MonthLabelRoundTrip(a);
    MonthLabelRoundTrip(b);
  }
}

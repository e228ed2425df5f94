/**
 * The table-reshaping helpers of the dashboard: element-wise safe division,
 * splitting a table into a current and a previous period, the percentage
 * change of a column between the two periods, time-bucket keys, and the
 * normalisation of a selected date range.  All of them are pure: they read
 * their arguments and return new values.
 */
module Helpers {
  import opened Common
  import opened Calendar
  import opened Frames

  // ---------------------------------------------------------------------------
  // safe_divide

  /** One position of `safe_divide`: x / y, or NaN where y is 0 (also when x is 0) or either side is NaN. */
  function Ratio(x: Cell, y: Cell): (r: Cell)
    ensures y == Some(0.0) ==> r == None  // the headline case: a zero divisor gives NaN, never a crash
    ensures r.Some? <==> x.Some? && y.Some? && y.value != 0.0
    ensures r.Some? ==> r.value * y.value == x.value
  {
    if y == Some(0.0) then None
    else if x.None? || y.None? then None
    else Some(x.value / y.value)
  }

  /** Element-wise division of two columns of equal length, with NaN wherever the divisor is 0. */
  function SafeDivide(a: seq<Cell>, b: seq<Cell>): (r: seq<Cell>)
    requires |a| == |b|
    ensures |r| == |a|
    ensures forall i :: 0 <= i < |r| && b[i] == Some(0.0) ==> r[i] == None  // the headline case
    ensures forall i :: 0 <= i < |r| ==> (r[i].Some? <==> a[i].Some? && b[i].Some? && b[i].value != 0.0)
    ensures forall i :: 0 <= i < |r| && r[i].Some? ==> r[i].value * b[i].value == a[i].value
  {
    seq(|a|, i requires 0 <= i < |a| => Ratio(a[i], b[i]))
  }

  /**
   * `safe_divide` called with two built-in Python numbers: Python evaluates
   * `a / b` before `np.where` sees the mask, so a zero divisor raises
   * ZeroDivisionError instead of giving NaN.
   */
  function ScalarSafeDivide(a: real, b: real): (r: Result<Cell>)
    ensures r.Err? <==> b == 0.0
    ensures r.Err? ==> r.error == ZeroDivisionError
    ensures r.Ok? ==> r.value.Some? && r.value.value * b == a
  {
    if b == 0.0 then Err(ZeroDivisionError) else Ok(Some(a / b))
  }

  /** For built-in numbers the zero divisor crashes, where the numpy path (`Ratio`) gives NaN. */
  lemma ScalarZeroDivisorRaises()
    ensures ScalarSafeDivide(1.0, 0.0) == Err(ZeroDivisionError)
    ensures Ratio(Some(1.0), Some(0.0)) == None
  {
  }

  // ---------------------------------------------------------------------------
  // split_periods

  /**
   * The latest date of a table.  A table without rows has no latest date (pandas
   * gives NaT, and every comparison with NaT is false); any day serves then,
   * since there is no row to compare with it.
   */
  function Latest(rows: seq<Row>): (latest: Day)
    ensures forall r :: r in rows ==> r.date <= latest
    ensures rows != [] ==> latest in Dates(rows)
  {
    if rows == [] then 0 else MaxDate(rows)
  }

  /** The current window: the `days` calendar days ending at `latest`. */
  predicate InCurrent(latest: Day, days: int, d: Day) {
    latest - (days - 1) <= d <= latest
  }

  /**
   * The previous window as written: from latest - (2 * days - 1) up to, but
   * excluding, latest - days.  That is the window of only `days - 1` days that
   * ends the day before latest - days.
   */
  predicate InPrevious(latest: Day, days: int, d: Day): (b: bool)
    ensures b <==> InCurrent(latest - days - 1, days - 1, d)
    ensures b ==> !InCurrent(latest, days, d)
  {
    latest - (2 * days - 1) <= d < latest - days
  }

  /**
   * Splits a table into its current and previous windows, or reports both as
   * unavailable when it has fewer than 2 * days distinct dates.
   */
  function SplitPeriods(data: Frame, days: int): (r: (Option<Frame>, Option<Frame>))
    ensures r.0.None? <==> |Dates(data.rows)| < 2 * days
    ensures r.1.None? <==> r.0.None?
    ensures r.0.Some? ==> r.0.value.columns == data.columns
    ensures r.1.Some? ==> r.1.value.columns == data.columns
    ensures r.0.Some? ==> forall row :: row in r.0.value.rows <==>
                            row in data.rows && InCurrent(Latest(data.rows), days, row.date)
    ensures r.1.Some? ==> forall row :: row in r.1.value.rows <==>
                            row in data.rows && InPrevious(Latest(data.rows), days, row.date)
  {
    if |Dates(data.rows)| < 2 * days then (None, None)
    else
      var latest := Latest(data.rows);
      (Some(Frame(data.columns, Select(data.rows, d => InCurrent(latest, days, d)))),
       Some(Frame(data.columns, Select(data.rows, d => InPrevious(latest, days, d)))))
  }

  /**
   * Each window keeps the input order: the rows of the table before position k
   * that fall in the window come before those after it.
   */
  lemma {:induction false} SplitPeriodsKeepsOrder(data: Frame, days: int, k: nat)
    requires SplitPeriods(data, days).0.Some? && k <= |data.rows|
    ensures SplitPeriods(data, days).0.value.rows ==
            Select(data.rows[..k], d => InCurrent(Latest(data.rows), days, d)) +
            Select(data.rows[k..], d => InCurrent(Latest(data.rows), days, d))
    ensures SplitPeriods(data, days).1.value.rows ==
            Select(data.rows[..k], d => InPrevious(Latest(data.rows), days, d)) +
            Select(data.rows[k..], d => InPrevious(Latest(data.rows), days, d))
  {
    var latest := Latest(data.rows);
    assert data.rows == data.rows[..k] + data.rows[k..];
    SelectAppend(data.rows[..k], data.rows[k..], d => InCurrent(latest, days, d));
    SelectAppend(data.rows[..k], data.rows[k..], d => InPrevious(latest, days, d));
  }

  /**
   * The two windows share no row, and rows dated latest - days fall in
   * neither; the previous window covers at most days - 1 distinct dates.
   */
  lemma SplitPeriodsWindows(data: Frame, days: int)
    requires SplitPeriods(data, days).0.Some?
    ensures var (cur, prev) := SplitPeriods(data, days);
            forall row :: !(row in cur.value.rows && row in prev.value.rows)
    ensures var (cur, prev) := SplitPeriods(data, days);
            forall row :: row in data.rows && row.date == Latest(data.rows) - days ==>
                          row !in cur.value.rows && row !in prev.value.rows
    ensures var (cur, prev) := SplitPeriods(data, days);
            |Dates(prev.value.rows)| <= if days >= 1 then days - 1 else 0
  {
    var latest := Latest(data.rows);
    var prev := SplitPeriods(data, days).1.value;
    CardinalityWithin(Dates(prev.rows), latest - (2 * days - 1), latest - days);
  }

  /** A table with fewer than 2 * days distinct dates gives no windows, whatever days is. */
  lemma SplitPeriodsTooFewDates(data: Frame, days: int)
    requires |Dates(data.rows)| < 2 * days
    ensures SplitPeriods(data, days) == (None, None)
  {
  }

  /** As written, a one-day split always has an empty previous window. */
  lemma OneDayPreviousWindowEmpty(data: Frame)
    requires SplitPeriods(data, 1).1.Some?
    ensures SplitPeriods(data, 1).1.value.rows == []
  {
    var latest := Latest(data.rows);
    SelectNone(data.rows, d => InPrevious(latest, 1, d));
  }

  /** The previous window the design describes: the `days` calendar days just before the current one. */
  predicate InPreviousIntended(latest: Day, days: int, d: Day) {
    latest - (2 * days - 1) <= d <= latest - days
  }

  /** split_periods with the previous window ending at latest - days inclusive. */
  function SplitPeriodsIntended(data: Frame, days: int): (r: (Option<Frame>, Option<Frame>))
    ensures r.0.None? <==> |Dates(data.rows)| < 2 * days
    ensures r.1.None? <==> r.0.None?
    ensures r.0.Some? ==> r.0.value.columns == data.columns && r.1.value.columns == data.columns
    ensures r.0.Some? ==> r.0 == SplitPeriods(data, days).0
  {
    if |Dates(data.rows)| < 2 * days then (None, None)
    else
      var latest := Latest(data.rows);
      (Some(Frame(data.columns, Select(data.rows, d => InCurrent(latest, days, d)))),
       Some(Frame(data.columns, Select(data.rows, d => InPreviousIntended(latest, days, d)))))
  }

  /**
   * With the intended previous window, the two windows share no row and
   * together hold exactly the rows of the last 2 * days calendar days; every
   * row dated latest - days is in the previous window, and that window covers
   * at most `days` distinct dates.
   */
  lemma SplitPeriodsIntendedWindows(data: Frame, days: int)
    requires SplitPeriodsIntended(data, days).0.Some?
    ensures var (cur, prev) := SplitPeriodsIntended(data, days);
            forall row :: !(row in cur.value.rows && row in prev.value.rows)
    ensures var (cur, prev) := SplitPeriodsIntended(data, days);
            forall row :: row in cur.value.rows || row in prev.value.rows <==>
                          row in data.rows && Latest(data.rows) - (2 * days - 1) <= row.date <= Latest(data.rows)
    ensures var (cur, prev) := SplitPeriodsIntended(data, days);
            days >= 1 ==>
            forall row :: row in data.rows && row.date == Latest(data.rows) - days ==> row in prev.value.rows
    ensures var (cur, prev) := SplitPeriodsIntended(data, days);
            |Dates(prev.value.rows)| <= if days >= 1 then days else 0
  {
    var latest := Latest(data.rows);
    var prev := SplitPeriodsIntended(data, days).1.value;
    assert forall row :: row in prev.rows <==> row in data.rows && InPreviousIntended(latest, days, row.date);
    CardinalityWithin(Dates(prev.rows), latest - (2 * days - 1), latest - days + 1);
  }

  // ---------------------------------------------------------------------------
  // calculate_percentage_delta

  /** A window that is missing or has no rows. */
  predicate Blank(w: Option<Frame>) {
    w.None? || w.value.rows == []
  }

  /**
   * The relative change of `column` from the previous window to the current
   * one, or NaN (None) when a window is missing or empty or the previous sum is
   * 0.  Indexing a non-empty window by a column it lacks raises KeyError.
   */
  function PercentageDelta(current: Option<Frame>, previous: Option<Frame>, column: string): (r: Result<Option<real>>)
    ensures Blank(current) || Blank(previous) ==> r == Ok(None)
    ensures r.Err? <==> !Blank(current) && !Blank(previous) &&
                        (column !in current.value.columns || column !in previous.value.columns)
    ensures r.Err? ==> r.error == KeyError(column)
    ensures !Blank(current) && !Blank(previous) && r.Ok? ==>
              (r.value.None? <==> ColumnSum(previous.value.rows, column) == 0.0)
    ensures r.Ok? && r.value.Some? ==>
              ColumnSum(current.value.rows, column) ==
              ColumnSum(previous.value.rows, column) * (1.0 + r.value.value)
  {
    if Blank(current) || Blank(previous) then Ok(None)
    else if column !in current.value.columns || column !in previous.value.columns then Err(KeyError(column))
    else
      var cs := ColumnSum(current.value.rows, column);
      var ps := ColumnSum(previous.value.rows, column);
      if ps == 0.0 then Ok(None) else Ok(Some((cs - ps) / ps))
  }

  /** A current sum of 150 against a previous sum of 100 is a change of 0.5. */
  lemma PercentageDeltaExample()
    ensures PercentageDelta(
              Some(Frame({"installs"}, [Row(10, map["installs" := Some(100.0)]),
                                        Row(11, map["installs" := Some(50.0)])])),
              Some(Frame({"installs"}, [Row(3, map["installs" := Some(100.0)]),
                                        Row(4, map["installs" := None])])),
              "installs") == Ok(Some(0.5))
  {
    var cur := [Row(10, map["installs" := Some(100.0)]), Row(11, map["installs" := Some(50.0)])];
    var prev := [Row(3, map["installs" := Some(100.0)]), Row(4, map["installs" := None])];
    assert ColumnSum(cur, "installs") == 150.0 by {
      assert cur[1..][1..] == [];
    }
    assert ColumnSum(prev, "installs") == 100.0 by {
      assert prev[1..][1..] == [];
    }
  }

  /** As written, the day-over-day change (days = 1) is undefined for every table. */
  lemma OneDayDeltaAlwaysUndefined(data: Frame, column: string)
    ensures PercentageDelta(SplitPeriods(data, 1).0, SplitPeriods(data, 1).1, column) == Ok(None)
  {
    if SplitPeriods(data, 1).1.Some? {
      OneDayPreviousWindowEmpty(data);
    }
  }

  // ---------------------------------------------------------------------------
  // add_time_bucket

  /**
   * The bucket key of a date: the date itself for "Daily", the Monday of its
   * Monday-to-Sunday week for "Weekly", and the first of its month for
   * "Monthly" and for every other granularity string.
   */
  function BucketOf(d: Day, granularity: string): (b: Day)
    ensures b <= d <= b + 30
    ensures granularity == "Daily" ==> b == d
    ensures granularity == "Weekly" ==> Weekday(b) == 0 && d <= b + 6
    ensures granularity != "Daily" && granularity != "Weekly" ==>
              CivilFromDays(b) == Civil(CivilFromDays(d).year, CivilFromDays(d).month, 1)
  {
    if granularity == "Daily" then d
    else if granularity == "Weekly" then WeekStart(d)
    else MonthStart(d)
  }

  /** A row together with its bucket key. */
  datatype BucketedRow = BucketedRow(row: Row, bucket: Day)

  /** A table whose every row carries its bucket key beside it; `columns` are the input's own. */
  datatype BucketedFrame = BucketedFrame(columns: set<string>, rows: seq<BucketedRow>)

  /** A copy of the table with a bucket key added to every row; the input is untouched. */
  function AddTimeBucket(data: Frame, granularity: string): (r: BucketedFrame)
    ensures r.columns == data.columns
    ensures |r.rows| == |data.rows|
    ensures forall i :: 0 <= i < |r.rows| ==> r.rows[i].row == data.rows[i]
    ensures forall i :: 0 <= i < |r.rows| ==> r.rows[i].bucket == BucketOf(data.rows[i].date, granularity)
  {
    BucketedFrame(data.columns,
                  seq(|data.rows|, i requires 0 <= i < |data.rows| =>
                    BucketedRow(data.rows[i], BucketOf(data.rows[i].date, granularity))))
  }

  /** Any granularity other than "Daily" and "Weekly" buckets exactly as "Monthly" does. */
  lemma UnknownGranularityIsMonthly(data: Frame, granularity: string)
    requires granularity != "Daily" && granularity != "Weekly"
    ensures AddTimeBucket(data, granularity) == AddTimeBucket(data, "Monthly")
  {
  }

  /** Daily buckets of two rows agree exactly when their dates do. */
  lemma DailyBucketsSeparateDates(data: Frame, i: nat, j: nat)
    requires i < |data.rows| && j < |data.rows|
    ensures var t := AddTimeBucket(data, "Daily");
            t.rows[i].bucket == t.rows[j].bucket <==> data.rows[i].date == data.rows[j].date
  {
  }

  /** Weekly buckets of two rows agree exactly when their dates lie in one Monday-to-Sunday week. */
  lemma WeeklyBucketsShareWeek(data: Frame, i: nat, j: nat)
    requires i < |data.rows| && j < |data.rows|
    ensures var t := AddTimeBucket(data, "Weekly");
            t.rows[i].bucket == t.rows[j].bucket <==>
            (data.rows[i].date + 3) / 7 == (data.rows[j].date + 3) / 7
    ensures var t := AddTimeBucket(data, "Weekly");
            t.rows[i].bucket == t.rows[j].bucket ==> -6 <= data.rows[i].date - data.rows[j].date <= 6
  {
    SameWeekStart(data.rows[i].date, data.rows[j].date);
  }

  /** Every date of the week starting on a Monday gets that Monday as its weekly bucket. */
  lemma WeekBucketOfMonday(monday: Day, k: int)
    requires Weekday(monday) == 0 && 0 <= k < 7
    ensures BucketOf(monday + k, "Weekly") == monday
  {
    WeekStartOfWeek(monday, k);
  }

  /** Monthly buckets of two rows agree exactly when their dates lie in one civil month. */
  lemma MonthlyBucketsShareMonth(data: Frame, i: nat, j: nat)
    requires i < |data.rows| && j < |data.rows|
    ensures var t := AddTimeBucket(data, "Monthly");
            var ci := CivilFromDays(data.rows[i].date);
            var cj := CivilFromDays(data.rows[j].date);
            t.rows[i].bucket == t.rows[j].bucket <==> ci.year == cj.year && ci.month == cj.month
  {
    SameMonthStart(data.rows[i].date, data.rows[j].date);
  }

  // ---------------------------------------------------------------------------
  // normalize_date_range

  /** What a date-range widget hands over: one date, or a list or tuple of dates; None is a missing date. */
  datatype DateSelection = Single(date: Option<Day>) | Sequence(items: seq<Option<Day>>)

  /** The selected ends: a pair as given, one item as both ends, any other length as the full data range. */
  function SelectedEnds(selection: DateSelection, minDate: Day, maxDate: Day): (e: (Option<Day>, Option<Day>))
    ensures selection.Single? ==> e == (selection.date, selection.date)
    ensures selection.Sequence? && |selection.items| == 2 ==> e == (selection.items[0], selection.items[1])
    ensures selection.Sequence? && |selection.items| == 1 ==> e == (selection.items[0], selection.items[0])
    ensures selection.Sequence? && |selection.items| != 1 && |selection.items| != 2 ==>
              e == (Some(minDate), Some(maxDate))
  {
    match selection
    case Single(d) => (d, d)
    case Sequence(items) =>
      if |items| == 2 then (items[0], items[1])
      else if |items| == 1 then (items[0], items[0])
      else (Some(minDate), Some(maxDate))
  }

  /** The selected ends with missing ones filled from the data range, swapped into order. */
  function OrderedEnds(selection: DateSelection, minDate: Day, maxDate: Day): (e: (Day, Day))
    ensures e.0 <= e.1
    ensures var (s, t) := SelectedEnds(selection, minDate, maxDate);
            {e.0, e.1} == {s.GetOr(minDate), t.GetOr(maxDate)}
  {
    var (s, t) := SelectedEnds(selection, minDate, maxDate);
    var start := s.GetOr(minDate);
    var end := t.GetOr(maxDate);
    if start > end then (end, start) else (start, end)
  }

  /**
   * The selected range, ordered and then clamped end by end to the data range
   * [minDate, maxDate].  The result is ordered exactly when the ordered
   * selection overlaps the data range.
   */
  function NormalizeDateRange(selection: DateSelection, minDate: Day, maxDate: Day): (r: (Day, Day))
    ensures minDate <= r.0 && r.1 <= maxDate
    ensures var e := OrderedEnds(selection, minDate, maxDate);
            r.0 <= r.1 <==> minDate <= maxDate && e.0 <= maxDate && minDate <= e.1
    ensures var e := OrderedEnds(selection, minDate, maxDate);
            (r.0 == e.0 || r.0 == minDate) && (r.1 == e.1 || r.1 == maxDate)
    ensures var e := OrderedEnds(selection, minDate, maxDate);
            (minDate <= e.0 ==> r.0 == e.0) && (e.1 <= maxDate ==> r.1 == e.1)
    ensures var e := OrderedEnds(selection, minDate, maxDate);
            minDate <= e.0 && e.1 <= maxDate ==> r == e
  {
    var (start, end) := OrderedEnds(selection, minDate, maxDate);
    (if start >= minDate then start else minDate, if end <= maxDate then end else maxDate)
  }

  /** A one-item list or tuple means the same as that item on its own. */
  lemma SingleItemIsScalar(d: Option<Day>, minDate: Day, maxDate: Day)
    ensures NormalizeDateRange(Sequence([d]), minDate, maxDate) == NormalizeDateRange(Single(d), minDate, maxDate)
  {
  }

  /** A list or tuple of any length other than 1 or 2 selects the whole data range, as no selection does. */
  lemma OtherLengthsSelectAll(items: seq<Option<Day>>, minDate: Day, maxDate: Day)
    requires |items| != 1 && |items| != 2
    ensures NormalizeDateRange(Sequence(items), minDate, maxDate) == NormalizeDateRange(Single(None), minDate, maxDate)
    ensures NormalizeDateRange(Sequence(items), minDate, maxDate) ==
            NormalizeDateRange(Sequence([Some(minDate), Some(maxDate)]), minDate, maxDate)
  {
  }

  /** A missing start means minDate and a missing end means maxDate. */
  lemma MissingEndsDefault(start: Option<Day>, end: Option<Day>, minDate: Day, maxDate: Day)
    ensures NormalizeDateRange(Sequence([None, end]), minDate, maxDate) ==
            NormalizeDateRange(Sequence([Some(minDate), end]), minDate, maxDate)
    ensures NormalizeDateRange(Sequence([start, None]), minDate, maxDate) ==
            NormalizeDateRange(Sequence([start, Some(maxDate)]), minDate, maxDate)
  {
  }

  /** The order in which two given ends are listed does not matter. */
  lemma EndsInEitherOrder(a: Day, b: Day, minDate: Day, maxDate: Day)
    ensures NormalizeDateRange(Sequence([Some(a), Some(b)]), minDate, maxDate) ==
            NormalizeDateRange(Sequence([Some(b), Some(a)]), minDate, maxDate)
  {
  }

  /** Normalising an ordered result again leaves it as it is. */
  lemma NormalizeIdempotent(selection: DateSelection, minDate: Day, maxDate: Day)
    requires NormalizeDateRange(selection, minDate, maxDate).0 <= NormalizeDateRange(selection, minDate, maxDate).1
    ensures var r := NormalizeDateRange(selection, minDate, maxDate);
            NormalizeDateRange(Sequence([Some(r.0), Some(r.1)]), minDate, maxDate) == r
  {
  }

  /** As written, a selection wholly before the data range comes back with its start after its end. */
  lemma ClampCanInvertRange()
    ensures NormalizeDateRange(Single(Some(0)), 10, 20) == (10, 0)
  {
  }

  function Clamp(d: Day, lo: Day, hi: Day): Day {
    if d < lo then lo else if d > hi then hi else d
  }

  /**
   * normalize_date_range with each end clamped into [minDate, maxDate] from
   * both sides: the result is always an ordered range inside the data range,
   * and it agrees with NormalizeDateRange whenever that one is ordered.
   */
  function NormalizeDateRangeClamped(selection: DateSelection, minDate: Day, maxDate: Day): (r: (Day, Day))
    requires minDate <= maxDate
    ensures minDate <= r.0 <= r.1 <= maxDate
    ensures var w := NormalizeDateRange(selection, minDate, maxDate);
            w.0 <= w.1 ==> r == w
  {
    var (start, end) := OrderedEnds(selection, minDate, maxDate);
    (Clamp(start, minDate, maxDate), Clamp(end, minDate, maxDate))
  }
}

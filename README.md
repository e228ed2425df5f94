# Performance dashboard helpers in Dafny

The marketing-performance dashboard loads rows of daily metrics from a spreadsheet. Before display it reshapes them with a handful of pure helpers in `performance_dashboard/utils/helpers.py`. This project models those helpers and proves what they promise:

- `safe_divide` divides element-wise and gives NaN where the divisor is 0.
- `split_periods` cuts a table into a current window of the last `days` days and, as the code is written, a previous window of only `days - 1` days ending the day before `latest - days`.
- `calculate_percentage_delta` gives the relative change of a column between the two windows.
- `add_time_bucket` attaches a day, week-start or month-start key to every row.
- `normalize_date_range` turns a date-widget selection into a `(start, end)` pair: it swaps the ends into order and then clamps the start up to `min_date` and the end down to `max_date`. A selection lying wholly outside the data range comes back with `start > end`.

How the model represents the data:

- A date is a day number: days since 1970-01-01, the epoch pandas timestamps count from.
- Module `Calendar` converts day numbers to proleptic Gregorian civil dates and back. Both round trips are proved. It also gives the Monday of a date's week and the first day of its month.
- Module `Frames` models a DataFrame as a set of column names plus a sequence of rows. Each row holds a date and numeric cells by column name.
- A NaN cell is `None`. Division is exact on `real`.
- Boolean-mask filtering becomes `Select`, which keeps rows in input order.
- Column `sum` skips NaN, as pandas does.
- Module `Helpers` holds the five helpers and their lemmas. Module `Common` holds `Option` and `Result`.

Where the code and its documented intent differ, the model follows the code. Three places:

- The previous window uses a strict upper bound `< latest - days`. So the day `latest - days` falls in neither window.
- Clamping comes after the swap. So a selection lying wholly outside the data range comes back with `start > end`.
- `safe_divide` computes `a / b` before masking. So two built-in Python numbers with a zero divisor raise ZeroDivisionError instead of giving NaN.

All three are listed under "## Findings", each with the as-written behaviour and the intended one beside it.

## Model

| member | source | states |
|---|---|---|
| `Helpers.Ratio` | performance_dashboard/utils/helpers.py:9-11 | one position of `safe_divide` on numpy/pandas operands: undefined when the divisor is 0 (even for 0/0) or either side is NaN, otherwise the unique value that times the divisor gives the dividend |
| `Helpers.ScalarSafeDivide` | performance_dashboard/utils/helpers.py:9-11 | with two built-in Python numbers, the call raises ZeroDivisionError exactly when the divisor is 0, and otherwise returns the unique quotient |
| `Helpers.ScalarZeroDivisorRaises` | performance_dashboard/utils/helpers.py:11 | `safe_divide(1, 0)` on built-in numbers raises, while the numpy element rule gives NaN |
| `Helpers.SafeDivide` | performance_dashboard/utils/helpers.py:9-11 | result has the inputs' length; at each position it is undefined exactly when `b[i]` is 0 or NaN or `a[i]` is NaN, and otherwise `r[i] * b[i] == a[i]` |
| `Helpers.InPrevious` | performance_dashboard/utils/helpers.py:20 | the previous-window mask as written is the current-window mask of only `days - 1` days ending at `latest - days - 1`, and no date passes both masks |
| `Helpers.SplitPeriods` | performance_dashboard/utils/helpers.py:14-21 | both windows are unavailable exactly when there are fewer than `2*days` distinct dates; otherwise both keep the table's columns. The current window holds exactly the rows dated in `[latest-(days-1), latest]`. The previous window holds exactly the rows dated in `[latest-(2*days-1), latest-days)` |
| `Helpers.Latest` | performance_dashboard/utils/helpers.py:18 | the latest date is on or after every row's date, and it is one of the table's dates when the table has rows |
| `Helpers.SplitPeriodsKeepsOrder` | performance_dashboard/utils/helpers.py:19-20 | for any cut point `k`, each window is the window of the rows before `k` followed by the window of the rows after it, so input order is kept |
| `Helpers.SplitPeriodsWindows` | performance_dashboard/utils/helpers.py:18-20 | the windows share no row; rows dated `latest-days` are in neither; the previous window covers at most `days-1` distinct dates |
| `Helpers.SplitPeriodsTooFewDates` | performance_dashboard/utils/helpers.py:16-17 | fewer than `2*days` distinct dates gives `(None, None)` for every `days` |
| `Helpers.OneDayPreviousWindowEmpty` | performance_dashboard/utils/helpers.py:20 | with `days = 1` the previous window is always empty |
| `Helpers.SplitPeriodsIntended` | performance_dashboard/utils/helpers.py:14-21 | corrected split: same availability rule and columns, and the same current window as the code |
| `Helpers.SplitPeriodsIntendedWindows` | performance_dashboard/utils/helpers.py:18-20 | corrected windows share no row; together they hold exactly the rows of the last `2*days` calendar days; rows dated `latest-days` are in the previous window; it covers at most `days` dates |
| `Helpers.PercentageDelta` | performance_dashboard/utils/helpers.py:24-30 | undefined when either window is missing or empty. A missing column in non-empty windows raises KeyError. Otherwise the result is undefined exactly when the previous sum is 0, and when defined `cur_sum == prev_sum * (1 + delta)` |
| `Helpers.PercentageDeltaExample` | performance_dashboard/utils/helpers.py:28-30 | a current sum of 150 against a previous sum of 100 gives 0.5; a NaN cell is skipped in the sum |
| `Helpers.OneDayDeltaAlwaysUndefined` | performance_dashboard/utils/helpers.py:14-30 | the delta of the code's own one-day split is undefined for every table and column |
| `Helpers.BucketOf` | performance_dashboard/utils/helpers.py:36-41 | every bucket is on or before its date and at most 30 days before it. "Daily" gives the date itself. "Weekly" gives a Monday at most 6 days before. Any other string gives day 1 of the date's own year and month |
| `Helpers.AddTimeBucket` | performance_dashboard/utils/helpers.py:33-42 | the output has the same columns, the same number of rows, and every row unchanged in the same position, each with its bucket key added |
| `Helpers.UnknownGranularityIsMonthly` | performance_dashboard/utils/helpers.py:40-41 | any granularity other than "Daily" and "Weekly" gives exactly the "Monthly" table |
| `Helpers.DailyBucketsSeparateDates` | performance_dashboard/utils/helpers.py:36-37 | two rows share a daily bucket exactly when they share a date |
| `Helpers.WeeklyBucketsShareWeek` | performance_dashboard/utils/helpers.py:38-39 | two rows share a weekly bucket exactly when their Monday-based week numbers `(d + 3) / 7` agree, and their dates are then at most 6 days apart |
| `Helpers.WeekBucketOfMonday` | performance_dashboard/utils/helpers.py:38-39 | all seven days from a Monday get that Monday as their weekly bucket |
| `Helpers.MonthlyBucketsShareMonth` | performance_dashboard/utils/helpers.py:40-41 | two rows share a monthly bucket exactly when their dates have the same year and month |
| `Helpers.SelectedEnds` | performance_dashboard/utils/helpers.py:47-58 | a two-item list or tuple gives its items as the ends; a one-item list or tuple gives that item as both ends; a scalar gives itself as both ends; a list or tuple of length 0 or at least 3 gives `(min_date, max_date)` |
| `Helpers.OrderedEnds` | performance_dashboard/utils/helpers.py:47-62 | missing ends are filled with `min_date`/`max_date`, then the two ends are put in order (same two values, `start <= end`) |
| `Helpers.NormalizeDateRange` | performance_dashboard/utils/helpers.py:45-68 | the result always has `start >= min_date` and `end <= max_date`. It has `start <= end` exactly when the ordered selection overlaps `[min_date, max_date]`. Each end is either the selected end or the bound it was clamped to, and an end already on the right side of its bound is kept as it is (so the start is `max(start, min_date)` and the end `min(end, max_date)`). A selection already inside the range comes back unchanged |
| `Helpers.SingleItemIsScalar` | performance_dashboard/utils/helpers.py:48-56 | a one-element list or tuple gives the same result as that element passed as a scalar |
| `Helpers.OtherLengthsSelectAll` | performance_dashboard/utils/helpers.py:53-54 | a list or tuple of length 0 or at least 3 gives the same result as the pair `(min_date, max_date)` and as no selection |
| `Helpers.MissingEndsDefault` | performance_dashboard/utils/helpers.py:59-60 | a missing start acts as `min_date` and a missing end as `max_date` |
| `Helpers.EndsInEitherOrder` | performance_dashboard/utils/helpers.py:61-62 | two given ends give the same result in either order |
| `Helpers.NormalizeIdempotent` | performance_dashboard/utils/helpers.py:61-66 | normalising an ordered result again returns it unchanged |
| `Helpers.ClampCanInvertRange` | performance_dashboard/utils/helpers.py:65-66 | a selection of day 0 against the range `[10, 20]` comes back as `(10, 0)` |
| `Helpers.NormalizeDateRangeClamped` | performance_dashboard/utils/helpers.py:65-66 | corrected clamp: for `min_date <= max_date` the result always satisfies `min_date <= start <= end <= max_date`, and it agrees with the code's result whenever that one is ordered |
| `Frames.Select` | performance_dashboard/utils/helpers.py:19-20 | a boolean-mask row filter: a row is in the result exactly when it is in the input and its date passes the mask |
| `Frames.SelectAppend` | performance_dashboard/utils/helpers.py:19-20 | filtering a concatenation is the concatenation of the filtered parts, so the filter keeps input order |
| `Frames.SelectAll` | performance_dashboard/utils/helpers.py:19-20 | a mask that every row passes keeps the table as it is |
| `Frames.SelectNone` | performance_dashboard/utils/helpers.py:19-20 | a mask that no row passes leaves no rows |
| `Frames.Dates` | performance_dashboard/utils/helpers.py:16 | the distinct dates that `nunique` counts: every row's date is in the set, and every member is some row's date |
| `Frames.DatesAtMostRows` | performance_dashboard/utils/helpers.py:16 | a table has at most as many distinct dates as rows |
| `Frames.MaxDate` | performance_dashboard/utils/helpers.py:18 | the maximum is one of the table's dates and no row is later |
| `Frames.ColumnSum` | performance_dashboard/utils/helpers.py:28-29 | pandas' `sum` with NaN skipped: an empty column sums to 0, and a single row sums to its cell, or to 0 when that cell is NaN |
| `Frames.ColumnSumBounds` | performance_dashboard/utils/helpers.py:28-29 | a column of non-negative cells has a non-negative sum that is at least each of its cells |
| `Frames.ColumnSumAppend` | performance_dashboard/utils/helpers.py:28-29 | column sums add up over a concatenation of rows |
| `Frames.ColumnSumAllNaN` | performance_dashboard/utils/helpers.py:28-29 | a column of NaN cells sums to 0, as pandas' NaN-skipping `sum` does |
| `Frames.CardinalityWithin` | performance_dashboard/utils/helpers.py:16 | a set of distinct dates inside `[lo, hi)` has at most `hi - lo` members; this bounds the `nunique` of a window |
| `Calendar.Weekday` | performance_dashboard/utils/helpers.py:39 | the day of the week, Monday 0 through Sunday 6, always in `[0, 7)` |
| `Calendar.WeekStart` | performance_dashboard/utils/helpers.py:39 | the start of a pandas "W" period is a Monday on or before the date and at most 6 days before it |
| `Calendar.WeekStartOfWeek` | performance_dashboard/utils/helpers.py:39 | every day from a Monday to the following Sunday has that Monday as its week start |
| `Calendar.SameWeekStart` | performance_dashboard/utils/helpers.py:39 | two dates share a week start exactly when they have the same Monday-based week number |
| `Calendar.MonthStart` | performance_dashboard/utils/helpers.py:41 | the start of a pandas "M" period is day 1 of the date's own year and month, on or before the date and at most 30 days before it |
| `Calendar.SameMonthStart` | performance_dashboard/utils/helpers.py:41 | two dates share a month start exactly when their year and month agree |
| `Calendar.CivilFromDays` | performance_dashboard/utils/helpers.py:41 | every day number converts to a valid civil date (month 1 to 12, day within that month's length, leap years included) |
| `Calendar.CivilFromDaysCorrect` | performance_dashboard/utils/helpers.py:41 | every day number converts to a valid civil date, which converts back to that day number |
| `Calendar.DaysFromCivilCorrect` | performance_dashboard/utils/helpers.py:41 | `DaysFromCivil` is the inverse of `CivilFromDays` on valid dates: every valid civil date converts to a day number, which converts back to that date |
| `Calendar.YearOfEraCorrect` | performance_dashboard/utils/helpers.py:41 | each day of a 400-year era splits into a year of the era and a day within that year's length |
| `Calendar.YearOfEraInverse` | performance_dashboard/utils/helpers.py:41 | each such year-and-day pair comes back unchanged from the split |
| `Calendar.EpochAnchors` | performance_dashboard/utils/helpers.py:37-41 | day 0 is 1970-01-01, a Thursday |
| `Calendar.Monday2024` | performance_dashboard/utils/helpers.py:39 | 2024-01-01 is day 19723 and falls on a Monday, the first day of its "W" period |
| `Calendar.MonthTable` | performance_dashboard/utils/helpers.py:41 | the closed month formula gives the first days and lengths of March through January, and every day of a month maps back to that month |

## Left out

- `get_color_palette` and `get_gradient_colors` (helpers.py:71-81) are thin wrappers over matplotlib colour maps. They sample in floating point and format hex strings, and that library code is not part of this model.
- The spreadsheet reader (`gspread_reader.py`) is left out. It does service-account authentication and network calls to the spreadsheet API, and it logs.
- The cached loader (`data/loader.py`) is left out. It is framework caching with a time-to-live plus a `None`-to-empty-table fallback around the I/O call.
- The product-date loader (`data/product_loader.py`) is left out. It opens a file, parses JSON and shows a UI error message.
- `config.py` is left out. It holds only constants.
- NaN propagation inside numpy/pandas arithmetic, infinities, floating-point rounding and numpy's divide-by-zero warnings are left out. A NaN is `None`, and arithmetic is exact on `real`.
- Helpers.SafeDivide: numpy broadcasting of arrays of different shapes is not modelled. The model divides two columns of equal length. One numpy position is `Helpers.Ratio`.
- Helpers.Ratio: models numpy/pandas operands (Series, arrays, numpy scalars such as a `.sum()` result), for which a zero divisor gives NaN. With built-in Python `int`/`float` operands, `a / b` is evaluated before `np.where` and a zero divisor raises ZeroDivisionError; that case is `Helpers.ScalarSafeDivide`.
- Helpers.AddTimeBucket: the `date_col` argument and `pd.to_datetime` parsing are not modelled. The bucket is computed from the row's date. A pre-existing column named `bucket`, which the code overwrites, is not modelled either.
- Helpers.SplitPeriods: the default `days=7` (helpers.py:14) is not modelled; callers pass `days`. The KeyError that `split_periods` raises on a table without a lowercase `date` column (helpers.py:16) is not modelled either. The model's `Frame` has one date per row, read by both `split_periods` (column `date`) and `add_time_bucket` (column `Date` by default, the schema's `DATE_COL` in config.py:12), so the two spellings are merged into that one date.
- Timestamps with a time of day, time zones and `NaT` dates are not modelled. Every date is a whole day number.
- Helpers.NormalizeDateRange: the `except Exception` branch (helpers.py:57-58) is not modelled separately. Nothing inside the `try` can raise for a scalar, list or tuple. A comparison between dates of different Python types, which would raise outside the `try`, is not modelled.
- Helpers.PercentageDelta: only a missing column is modelled as an error. Summing a non-numeric column is not.

## Findings

| source | as written | input that shows it | evidently intended | confidence | as-written member | corrected member |
|---|---|---|---|---|---|---|
| performance_dashboard/utils/helpers.py:20 | the previous window ends with a strict `< latest - days`, so it spans only `days-1` calendar days and the day `latest - days` belongs to no window | `days = 1` with rows dated on two consecutive days: the previous window is empty, so the day-over-day delta is always NaN | the previous window is the `days` days just before the current one, i.e. `<= latest - days` | high, not executed | `Helpers.OneDayPreviousWindowEmpty` | `Helpers.SplitPeriodsIntendedWindows` |
| performance_dashboard/utils/helpers.py:11 | `np.where(b == 0, np.nan, a / b)` evaluates `a / b` eagerly | `safe_divide(1, 0)` with built-in numbers raises ZeroDivisionError | a zero divisor gives NaN for every operand type, never a crash | medium, not executed | `Helpers.ScalarZeroDivisorRaises` | `Helpers.Ratio` |
| performance_dashboard/utils/helpers.py:65-66 | each end is clamped on one side only, after the swap | a selection of day 0 with data range `[10, 20]` gives `(10, 0)` | an ordered range inside `[min_date, max_date]` | medium, not executed | `Helpers.ClampCanInvertRange` | `Helpers.NormalizeDateRangeClamped` |

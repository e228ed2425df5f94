/**
 * Tables as the dashboard helpers see them: a pandas DataFrame with a date
 * column and named numeric columns.  A row keeps its date as a day number and
 * its other cells by column name; a numeric cell is None where pandas holds NaN.
 */
module Frames {
  import opened Common
  import opened Calendar

  /** A numeric cell; None stands for NaN. */
  type Cell = Option<real>

  /** One row: its date and its other cells by column name. */
  datatype Row = Row(date: Day, cells: map<string, Cell>)

  /** A DataFrame: the names of its columns other than the date, and its rows in order. */
  datatype Frame = Frame(columns: set<string>, rows: seq<Row>)

  /** The cell of `r` in `column`; NaN where the row has no such cell. */
  function CellOf(r: Row, column: string): Cell {
    if column in r.cells then r.cells[column] else None
  }

  /** Boolean-mask filtering on the date column: the rows whose date passes `keep`, in order. */
  function Select(rows: seq<Row>, keep: Day -> bool): (s: seq<Row>)
    ensures |s| <= |rows|
    ensures forall r :: r in s <==> r in rows && keep(r.date)
  {
    if rows == [] then []
    else (if keep(rows[0].date) then [rows[0]] else []) + Select(rows[1..], keep)
  }

  /** Filtering a concatenation filters each part: Select keeps the input order. */
  lemma {:induction false} SelectAppend(xs: seq<Row>, ys: seq<Row>, keep: Day -> bool)
    ensures Select(xs + ys, keep) == Select(xs, keep) + Select(ys, keep)
  {
    if xs == [] {
      assert xs + ys == ys;
    } else {
      assert (xs + ys)[1..] == xs[1..] + ys;
      SelectAppend(xs[1..], ys, keep);
    }
  }

  /** A filter that every row passes returns the rows unchanged. */
  lemma {:induction false} SelectAll(rows: seq<Row>, keep: Day -> bool)
    requires forall i :: 0 <= i < |rows| ==> keep(rows[i].date)
    ensures Select(rows, keep) == rows
  {
    if rows != [] {
      SelectAll(rows[1..], keep);
    }
  }

  /** A filter that no row passes returns no rows. */
  lemma {:induction false} SelectNone(rows: seq<Row>, keep: Day -> bool)
    requires forall i :: 0 <= i < |rows| ==> !keep(rows[i].date)
    ensures Select(rows, keep) == []
  {
    if rows != [] {
      SelectNone(rows[1..], keep);
    }
  }

  /** The distinct dates of a table (what `nunique` counts). */
  function Dates(rows: seq<Row>): (ds: set<Day>)
    ensures forall i :: 0 <= i < |rows| ==> rows[i].date in ds
    ensures forall d :: d in ds ==> exists i :: 0 <= i < |rows| && rows[i].date == d
  {
    set r | r in rows :: r.date
  }

  /** A table has at most as many distinct dates as rows. */
  lemma {:induction false} DatesAtMostRows(rows: seq<Row>)
    ensures |Dates(rows)| <= |rows|
  {
    if rows != [] {
      DatesAtMostRows(rows[1..]);
      var rest := Dates(rows[1..]);
      assert |rest + {rows[0].date}| <= |rest| + 1;
      assert Dates(rows) <= rest + {rows[0].date} by {
        forall d | d in Dates(rows) ensures d in Dates(rows[1..]) + {rows[0].date} {
          var i :| 0 <= i < |rows| && rows[i].date == d;
          if i > 0 {
            assert rows[1..][i - 1] == rows[i];
          }
        }
      }
      SubsetCardinality(Dates(rows), rest + {rows[0].date});
    }
  }

  lemma SubsetCardinality(a: set<Day>, b: set<Day>)
    requires a <= b
    ensures |a| <= |b|
  {
    assert b == a + (b - a);
  }

  /** The latest date of a non-empty table. */
  function MaxDate(rows: seq<Row>): (m: Day)
    requires rows != []
    ensures m in Dates(rows)
    ensures forall r :: r in rows ==> r.date <= m
  {
    if |rows| == 1 then rows[0].date
    else
      var rest := MaxDate(rows[1..]);
      assert forall r :: r in rows[1..] ==> r in rows;
      if rows[0].date >= rest then rows[0].date else rest
  }

  /** The sum of a column with NaN skipped, as pandas' `sum` does; 0 when nothing is summed. */
  function ColumnSum(rows: seq<Row>, column: string): (s: real)
    ensures rows == [] ==> s == 0.0
    ensures |rows| == 1 ==> s == CellOf(rows[0], column).GetOr(0.0)
  {
    if rows == [] then 0.0
    else CellOf(rows[0], column).GetOr(0.0) + ColumnSum(rows[1..], column)
  }

  /** Column sums add up over a concatenation of tables. */
  lemma {:induction false} ColumnSumAppend(xs: seq<Row>, ys: seq<Row>, column: string)
    ensures ColumnSum(xs + ys, column) == ColumnSum(xs, column) + ColumnSum(ys, column)
  {
    if xs == [] {
      assert xs + ys == ys;
    } else {
      assert (xs + ys)[1..] == xs[1..] + ys;
      ColumnSumAppend(xs[1..], ys, column);
    }
  }

  /** A column of non-negative cells sums to at least each of its cells. */
  lemma {:induction false} ColumnSumBounds(rows: seq<Row>, column: string)
    requires forall i :: 0 <= i < |rows| ==> CellOf(rows[i], column).GetOr(0.0) >= 0.0
    ensures ColumnSum(rows, column) >= 0.0
    ensures forall i :: 0 <= i < |rows| ==> CellOf(rows[i], column).GetOr(0.0) <= ColumnSum(rows, column)
  {
    if rows != [] {
      ColumnSumBounds(rows[1..], column);
      forall i | 1 <= i < |rows|
        ensures CellOf(rows[i], column).GetOr(0.0) <= ColumnSum(rows, column)
      {
        assert rows[i] == rows[1..][i - 1];
      }
    }
  }

  /** A column whose cells are all NaN sums to 0. */
  lemma {:induction false} ColumnSumAllNaN(rows: seq<Row>, column: string)
    requires forall i :: 0 <= i < |rows| ==> CellOf(rows[i], column).None?
    ensures ColumnSum(rows, column) == 0.0
  {
    if rows != [] {
      ColumnSumAllNaN(rows[1..], column);
    }
  }

  /** A set of days inside [lo, hi) has at most hi - lo members. */
  lemma {:induction false} CardinalityWithin(s: set<int>, lo: int, hi: int)
    requires forall x :: x in s ==> lo <= x < hi
    ensures |s| <= if lo <= hi then hi - lo else 0
    decreases hi - lo
  {
    if hi <= lo {
      assert s == {} by {
        forall x | x in s ensures false { }
      }
    } else {
      var t := s - {hi - 1};
      CardinalityWithin(t, lo, hi - 1);
      assert s <= t + {hi - 1};
    }
  }
}

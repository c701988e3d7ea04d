/** The data frame that `clean_data` and `handle_outliers` update in place:
    a `Frame` holds the columns and the row count of a `DataFrame`, and its
    methods carry out the cleaning steps by reassigning columns one at a time,
    as the pipeline does with `df[col] = ...`. Each method is proved to leave
    the frame holding what the matching function of `Cleaning` computes from
    the old contents. */
module Frames {
  import opened Wrappers
  import opened Tables
  import opened Stats
  import opened Dates
  import Dedup
  import Cleaning

  class Frame {
    var columns: seq<Column>
    var height: nat

    /** The table this frame currently holds. */
    function Value(): Table
      reads this
    {
      Table(columns, height)
    }

    ghost predicate Valid()
      reads this
    {
      WellFormed(Value())
    }

    /** `df.copy()`: a new frame holding the same table, so that the steps
        below never touch the caller's frame. */
    constructor Copy(df: Frame)
      requires df.Valid()
      ensures Valid() && Value() == df.Value()
    {
      columns := df.columns;
      height := df.height;
    }

    /** `df[c.name] = c.cells`: replace the column of that name where it
        stands, or append it. */
    method Assign(c: Column)
      requires Valid() && ColumnOk(c, height)
      modifies this
      ensures Valid() && Value() == SetColumn(old(Value()), c)
    {
      var r := SetColumn(Value(), c);
      columns := r.columns;
    }

    /** `df = df.drop(name, axis=1)`. */
    method Drop(name: string)
      requires Valid() && Has(Value(), name)
      modifies this
      ensures Valid() && Value() == DropColumn(old(Value()), name)
    {
      var r := DropColumn(Value(), name);
      columns := r.columns;
    }

    /** Step 1: every column in turn has its missing cells filled, text
        columns with `"Unknown"` and numeric ones with their median. */
    method FillMissing()
      requires Valid()
      modifies this
      ensures Valid() && Value() == Cleaning.FillMissing(old(Value()))
    {
      ghost var t := Value();
      var j := 0;
      while j < |columns|
        invariant 0 <= j <= |columns| == |t.columns| && height == t.height
        invariant forall k :: 0 <= k < |columns| ==>
          columns[k] == if k < j then Cleaning.FillColumn(t.columns[k]) else t.columns[k]
      {
        columns := columns[j := Cleaning.FillColumn(columns[j])];
        j := j + 1;
      }
      assert columns == Cleaning.FillMissing(t).columns;
    }

    /** Step 2: every text column is stripped and lower-cased. */
    method StandardizeText()
      requires Valid()
      modifies this
      ensures Valid() && Value() == Cleaning.StandardizeText(old(Value()))
    {
      ghost var t := Value();
      var j := 0;
      while j < |columns|
        invariant 0 <= j <= |columns| == |t.columns| && height == t.height
        invariant forall k :: 0 <= k < |columns| ==>
          columns[k] == if k < j then Cleaning.NormalizeColumn(t.columns[k]) else t.columns[k]
      {
        if columns[j].kind == Text {
          columns := columns[j := Cleaning.NormalizeColumn(columns[j])];
        }
        j := j + 1;
      }
      assert columns == Cleaning.StandardizeText(t).columns;
    }

    /** Step 3: when `date_added` exists its dates are parsed and written
        back as `YYYY-MM-DD` (empty when unparsable), and `year_added` and
        `month_added` are read from the rewritten strings. */
    method ProcessDates(parse: Cell -> Option<Date>)
      requires Valid()
      modifies this
      ensures Valid()
      ensures Value() == if Has(old(Value()), Cleaning.DATE_ADDED)
                         then Cleaning.ProcessDates(old(Value()), parse) else old(Value())
    {
      if Cleaning.DATE_ADDED in Names(Value()) {
        var c := columns[IndexOf(Value(), Cleaning.DATE_ADDED)];
        var dates := Cleaning.FormatDates(c.cells, parse);
        Assign(Column(Cleaning.DATE_ADDED, Text, dates));
        var years := Cleaning.Years(dates, parse);
        var months := Cleaning.Months(dates, parse);
        Assign(Column(Cleaning.YEAR_ADDED, Numeric, years));
        Assign(Column(Cleaning.MONTH_ADDED, Numeric, months));
      }
    }

    /** Step 4: when `duration` exists it is split into `duration_value` and
        `duration_unit` and dropped. A `duration` column that is not text
        makes `.str` raise before anything is assigned: the error is
        returned and the frame is left as it was. */
    method SplitDuration() returns (failure: Option<Cleaning.CleanError>)
      requires Valid()
      modifies this
      ensures Valid()
      ensures !Has(old(Value()), Cleaning.DURATION) ==> failure == None && Value() == old(Value())
      ensures Has(old(Value()), Cleaning.DURATION) ==>
        match Cleaning.SplitDuration(old(Value()))
        case Ok(r) => failure == None && Value() == r
        case Err(e) => failure == Some(e) && Value() == old(Value())
    {
      failure := None;
      if Cleaning.DURATION in Names(Value()) {
        var c := columns[IndexOf(Value(), Cleaning.DURATION)];
        if c.kind != Text {
          return Some(Cleaning.NotText(Cleaning.DURATION));
        }
        var values := Cleaning.DurationValues(c.cells);
        var units := Cleaning.DurationUnits(c.cells);
        Assign(Column(Cleaning.DURATION_VALUE, Numeric, values));
        Assign(Column(Cleaning.DURATION_UNIT, Text, units));
        Drop(Cleaning.DURATION);
      }
    }

    /** Step 5: one pass over the rows remembers the rows seen so far and
        keeps the position of every row not seen before; the frame then
        holds the kept rows in order. pandas returns an empty frame (no
        columns or no rows) as it is. */
    method DropDuplicates()
      requires Valid()
      modifies this
      ensures Valid() && Value() == Cleaning.DropDuplicates(old(Value()))
    {
      if |columns| == 0 || height == 0 {
        return;
      }
      var rows := Rows(Value());
      var seen: set<Record> := {};
      var keep: seq<nat> := [];
      var i := 0;
      while i < |rows|
        invariant 0 <= i <= |rows|
        invariant forall row :: row in seen <==> row in rows[..i]
        invariant keep == Dedup.KeptIndices(rows[..i])
      {
        assert rows[..i + 1][..i] == rows[..i];
        if rows[i] !in seen {
          keep := keep + [i];
        }
        seen := seen + {rows[i]};
        i := i + 1;
      }
      assert rows[..i] == rows;
      var r := SelectRows(Value(), keep);
      columns, height := r.columns, r.height;
    }

    /** One iteration of `handle_outliers`' loop: the quartiles of the
        column's present values give the fences `Q1 - 1.5 * IQR` and
        `Q3 + 1.5 * IQR`, and every value is clipped into them. A column
        without values is left alone. */
    method ClipOutliers(name: string)
      requires Valid() && Cleaning.NumericColumn(Value(), name)
      modifies this
      ensures Valid() && Value() == Cleaning.ClipNamed(old(Value()), name)
    {
      var j := IndexOf(Value(), name);
      var c := columns[j];
      var xs := Present(c.cells);
      if xs != [] {
        var sorted := Sort(xs);
        var q1 := Quantile(sorted, 0.25);
        var q3 := Quantile(sorted, 0.75);
        var iqr := q3 - q1;
        var lower := q1 - FENCE * iqr;
        var upper := q3 + FENCE * iqr;
        assert Range(lower, upper) == IqrBounds(sorted);
        columns := columns[j := c.(cells := Cleaning.ClipCells(c.cells, Range(lower, upper)))];
      }
      assert columns == Cleaning.ClipNamed(old(Value()), name).columns;
    }

    /** `handle_outliers(df, names)`: the listed columns are clipped one
        after the other, each with the fences of its own current values. */
    method HandleOutliers(names: seq<string>)
      requires Valid()
      requires forall n :: n in names ==> Cleaning.NumericColumn(Value(), n)
      modifies this
      ensures Valid() && Value() == Cleaning.HandleOutliers(old(Value()), names)
    {
      ghost var t := Value();
      var k := 0;
      while k < |names|
        invariant 0 <= k <= |names|
        invariant Valid()
        invariant forall n :: n in names ==> Cleaning.NumericColumn(Value(), n)
        invariant Cleaning.HandleOutliers(Value(), names[k..]) == Cleaning.HandleOutliers(t, names)
      {
        assert names[k..][1..] == names[k + 1..];
        ClipOutliers(names[k]);
        k := k + 1;
      }
    }
  }

  /** `clean_data(df)`: the six steps on a copy of `df`, which is left as it
      was. The result is the cleaned frame, or the error a non-text
      `duration` column raises. */
  method CleanData(df: Frame, parse: Cell -> Option<Date>) returns (result: Result<Frame, Cleaning.CleanError>)
    requires df.Valid()
    ensures df.Value() == old(df.Value())
    ensures result.Ok? ==> fresh(result.value) && result.value.Valid()
                           && Cleaning.Clean(df.Value(), parse) == Ok(result.value.Value())
    ensures result.Err? ==> Cleaning.Clean(df.Value(), parse) == Err(result.error)
  {
    var frame := new Frame.Copy(df);
    frame.FillMissing();
    frame.StandardizeText();
    frame.ProcessDates(parse);
    var failure := frame.SplitDuration();
    if failure.Some? {
      return Err(failure.value);
    }
    frame.DropDuplicates();
    var numeric := Cleaning.NumericNames(frame.Value());
    frame.HandleOutliers(numeric);
    return Ok(frame);
  }
}

/** What each step of `clean_data` and `handle_outliers` does to a table, as
    functions on table values, and the properties those steps promise. The
    class `Frames.Frame` carries out the same steps in place and is proved to
    agree with these functions. */
module Cleaning {
  import opened Wrappers
  import opened Tables
  import opened Strings
  import opened Stats
  import opened Dates
  import Dedup

  // ---------------------------------------------------------------- step 1: missing values

  /** The text that fills missing cells of text columns. */
  const UNKNOWN: string := "Unknown"

  /** What `fillna` puts into the missing cells of a column: `"Unknown"` for a
      text column, the median of the non-missing values for a numeric one;
      `None` when that median is `NaN` (no value present), which fills nothing. */
  function FillValue(c: Column): (v: Option<Cell>)
    ensures v.Some? ==> Fits(c.kind, v.value) && !v.value.Missing?
    ensures c.kind == Text ==> v == Some(Txt(UNKNOWN))
  {
    match c.kind
    case Text => Some(Txt(UNKNOWN))
    case Numeric =>
      var xs := Present(c.cells);
      if xs == [] then None else Some(Num(Median(Sort(xs))))
  }

  /** `fillna(v)` on one cell. */
  function FillCell(x: Cell, v: Option<Cell>): Cell {
    if x.Missing? && v.Some? then v.value else x
  }

  /** `df[col] = df[col].fillna(...)` for one column. */
  function FillColumn(c: Column): (r: Column)
    requires ColumnOk(c, |c.cells|)
    ensures ColumnOk(r, |c.cells|) && r.name == c.name && r.kind == c.kind
    ensures forall i :: 0 <= i < |c.cells| && !c.cells[i].Missing? ==> r.cells[i] == c.cells[i]
    ensures forall i :: 0 <= i < |c.cells| && c.cells[i].Missing? ==>
      r.cells[i] == if FillValue(c).Some? then FillValue(c).value else Missing
  {
    var v := FillValue(c);
    c.(cells := seq(|c.cells|, i requires 0 <= i < |c.cells| => FillCell(c.cells[i], v)))
  }

  /** Step 1: every column filled. */
  function FillMissing(t: Table): (r: Table)
    requires WellFormed(t)
    ensures WellFormed(r) && r.height == t.height && Names(r) == Names(t)
    ensures |r.columns| == |t.columns|
    ensures forall j :: 0 <= j < |t.columns| ==> r.columns[j] == FillColumn(t.columns[j])
  {
    var r := Table(seq(|t.columns|, j requires 0 <= j < |t.columns| => FillColumn(t.columns[j])), t.height);
    assert Names(r) == Names(t);
    r
  }

  /** Step 1 cell by cell: a missing text cell becomes `"Unknown"`, a missing
      numeric cell the median of its column's non-missing values (and stays
      missing when the column has none), and every other cell is kept. */
  lemma FillMissingCell(t: Table, j: nat, i: nat)
    requires WellFormed(t) && j < |t.columns| && i < t.height
    ensures var c := t.columns[j]; var x := c.cells[i];
      var y := FillMissing(t).columns[j].cells[i];
      && (x.Missing? && c.kind == Text ==> y == Txt(UNKNOWN))
      && (x.Missing? && c.kind == Numeric && Present(c.cells) != [] ==>
            y == Num(Median(Sort(Present(c.cells)))))
      && (x.Missing? && c.kind == Numeric && Present(c.cells) == [] ==> y == Missing)
      && (!x.Missing? ==> y == x)
  {
  }

  /** The median that fills a numeric column lies between the smallest and
      the largest value present, and is the linear quantile at one half. */
  lemma FillValueIsMedian(c: Column)
    requires c.kind == Numeric && Present(c.cells) != []
    ensures var xs := Sort(Present(c.cells));
      FillValue(c) == Some(Num(Quantile(xs, 0.5))) && xs[0] <= Quantile(xs, 0.5) <= xs[|xs| - 1]
  {
    var xs := Sort(Present(c.cells));
    MedianIsHalfQuantile(xs);
  }

  // ---------------------------------------------------------------- step 2: text

  /** `.str.strip().str.lower()` on one cell; a missing cell stays missing. */
  function NormalizeCell(x: Cell): Cell {
    match x
    case Txt(s) => Txt(Normalize(s))
    case _ => x
  }

  /** Step 2 on one column: text columns are normalised, others untouched. */
  function NormalizeColumn(c: Column): (r: Column)
    requires ColumnOk(c, |c.cells|)
    ensures ColumnOk(r, |c.cells|) && r.name == c.name && r.kind == c.kind
    ensures c.kind == Numeric ==> r == c
    ensures forall i :: 0 <= i < |c.cells| && c.cells[i].Txt? ==>
      r.cells[i] == Txt(Normalize(c.cells[i].text))
    ensures forall i :: 0 <= i < |c.cells| && !c.cells[i].Txt? ==> r.cells[i] == c.cells[i]
  {
    if c.kind == Text then
      c.(cells := seq(|c.cells|, i requires 0 <= i < |c.cells| => NormalizeCell(c.cells[i])))
    else c
  }

  /** Step 2: every text column normalised. */
  function StandardizeText(t: Table): (r: Table)
    requires WellFormed(t)
    ensures WellFormed(r) && r.height == t.height && Names(r) == Names(t)
    ensures |r.columns| == |t.columns|
    ensures forall j :: 0 <= j < |t.columns| ==> r.columns[j] == NormalizeColumn(t.columns[j])
  {
    var r := Table(seq(|t.columns|, j requires 0 <= j < |t.columns| => NormalizeColumn(t.columns[j])), t.height);
    assert Names(r) == Names(t);
    r
  }

  /** After step 2 no text cell has surrounding whitespace or an upper-case
      letter. */
  lemma StandardizedTextIsClean(t: Table, j: nat, i: nat)
    requires WellFormed(t) && j < |t.columns| && i < t.height
    requires StandardizeText(t).columns[j].cells[i].Txt?
    ensures var s := StandardizeText(t).columns[j].cells[i].text;
      (s == [] || (!IsSpace(s[0]) && !IsSpace(s[|s| - 1]))) && forall c :: c in s ==> !IsUpper(c)
  {
  }

  /** Step 2 is idempotent: running it again changes nothing. */
  lemma StandardizeTextIdempotent(t: Table)
    requires WellFormed(t)
    ensures StandardizeText(StandardizeText(t)) == StandardizeText(t)
  {
    var once := StandardizeText(t);
    var twice := StandardizeText(once);
    forall j | 0 <= j < |t.columns| ensures twice.columns[j] == once.columns[j] {
      var c := once.columns[j];
      if c.kind == Text {
        forall i | 0 <= i < |c.cells| ensures NormalizeCell(c.cells[i]) == c.cells[i] {
          if c.cells[i].Txt? {
            NormalizeIdempotent(t.columns[j].cells[i].text);
          }
        }
      }
    }
  }

  /** A missing text cell reads `"unknown"` after steps 1 and 2. */
  lemma MissingTextBecomesUnknown(t: Table, j: nat, i: nat)
    requires WellFormed(t) && j < |t.columns| && i < t.height
    requires t.columns[j].kind == Text && t.columns[j].cells[i].Missing?
    ensures StandardizeText(FillMissing(t)).columns[j].cells[i] == Txt("unknown")
  {
    FillMissingCell(t, j, i);
    NormalizeUnknown();
  }

  /** `"Unknown"` normalises to `"unknown"`. */
  lemma NormalizeUnknown()
    ensures Normalize(UNKNOWN) == "unknown"
  {
    StripOfStripped(UNKNOWN);
    LowerUnknown();
  }

  /** `"Unknown"` lower-cased is `"unknown"`. */
  lemma LowerUnknown()
    ensures Lower(UNKNOWN) == "unknown"
  {
    var l := Lower(UNKNOWN);
    assert LowerChar('U') == 'u';
    assert l[0] == 'u';
    assert forall i :: 1 <= i < |l| ==> !IsUpper(UNKNOWN[i]);
  }

  // ---------------------------------------------------------------- step 3: dates

  const DATE_ADDED: string := "date_added"
  const YEAR_ADDED: string := "year_added"
  const MONTH_ADDED: string := "month_added"

  /** The date step's value for a parsed date: `YYYY-MM-DD`, or `""` for `NaT`. */
  function DateCell(p: Option<Date>): Cell {
    if p.Some? then Txt(Format(p.value)) else Txt("")
  }

  /** `.dt.year` of a parsed date, missing for `NaT`. */
  function YearCell(p: Option<Date>): Cell {
    if p.Some? then Num(p.value.year as real) else Missing
  }

  /** `.dt.month` of a parsed date, missing for `NaT`. */
  function MonthCell(p: Option<Date>): Cell {
    if p.Some? then Num(p.value.month as real) else Missing
  }

  /** The date column rewritten: each cell parsed and formatted. */
  function FormatDates(cells: seq<Cell>, parse: Cell -> Option<Date>): (r: seq<Cell>)
    ensures |r| == |cells|
    ensures forall i :: 0 <= i < |cells| ==> r[i] == DateCell(parse(cells[i]))
  {
    seq(|cells|, i requires 0 <= i < |cells| => DateCell(parse(cells[i])))
  }

  /** `year_added` from the rewritten date strings. */
  function Years(dates: seq<Cell>, parse: Cell -> Option<Date>): (r: seq<Cell>)
    ensures |r| == |dates|
    ensures forall i :: 0 <= i < |dates| ==> r[i] == YearCell(parse(dates[i]))
  {
    seq(|dates|, i requires 0 <= i < |dates| => YearCell(parse(dates[i])))
  }

  /** `month_added` from the rewritten date strings. */
  function Months(dates: seq<Cell>, parse: Cell -> Option<Date>): (r: seq<Cell>)
    ensures |r| == |dates|
    ensures forall i :: 0 <= i < |dates| ==> r[i] == MonthCell(parse(dates[i]))
  {
    seq(|dates|, i requires 0 <= i < |dates| => MonthCell(parse(dates[i])))
  }

  /** Step 3, when `date_added` exists. `parse` stands for
      `pd.to_datetime(..., errors='coerce')` applied to one cell after
      `astype(str).str.strip()`: `None` is `NaT`. The dates are reformatted,
      then the formatted strings are parsed again for year and month. */
  function ProcessDates(t: Table, parse: Cell -> Option<Date>): (r: Table)
    requires WellFormed(t) && Has(t, DATE_ADDED)
    ensures WellFormed(r) && r.height == t.height
    ensures forall n :: Has(r, n) <==> Has(t, n) || n == YEAR_ADDED || n == MONTH_ADDED
  {
    var c := t.columns[IndexOf(t, DATE_ADDED)];
    var dates := FormatDates(c.cells, parse);
    var t1 := SetColumn(t, Column(DATE_ADDED, Text, dates));
    var years := Years(dates, parse);
    var months := Months(dates, parse);
    var t2 := SetColumn(t1, Column(YEAR_ADDED, Numeric, years));
    var r := SetColumn(t2, Column(MONTH_ADDED, Numeric, months));
    assert forall n :: Has(t1, n) <==> Has(t, n);
    assert forall n :: Has(t2, n) <==> Has(t1, n) || n == YEAR_ADDED;
    assert forall n :: Has(r, n) <==> Has(t2, n) || n == MONTH_ADDED;
    r
  }

  /** What the year and month of step 3 rely on: `parse` reads `""` as
      `NaT`, and a date it produced, once written as `YYYY-MM-DD`, reads back
      as that same date. Nothing is assumed about dates `parse` never
      produces, such as those outside the range pandas can represent. */
  ghost predicate SoundParser(parse: Cell -> Option<Date>) {
    && parse(Txt("")) == None
    && (forall x :: parse(x).Some? ==> parse(Txt(Format(parse(x).value))) == parse(x))
  }

  /** The cell of column `name` in row `i`. */
  function CellOf(t: Table, name: string, i: nat): Cell
    requires WellFormed(t) && Has(t, name) && i < t.height
  {
    t.columns[IndexOf(t, name)].cells[i]
  }

  /** Step 3 on the date column, whatever the parser: a date `parse`
      recognises is written as `YYYY-MM-DD` and anything else becomes `""`. */
  lemma ProcessDatesDate(t: Table, parse: Cell -> Option<Date>, i: nat)
    requires WellFormed(t) && Has(t, DATE_ADDED) && i < t.height
    ensures var r := ProcessDates(t, parse);
      var p := parse(CellOf(t, DATE_ADDED, i));
      && Has(r, DATE_ADDED)
      && CellOf(r, DATE_ADDED, i) == (if p.Some? then Txt(Format(p.value)) else Txt(""))
  {
    var r := ProcessDates(t, parse);
    assert Has(r, DATE_ADDED);
    var dj := IndexOf(r, DATE_ADDED);
    assert r.columns[dj].cells[i] == DateCell(parse(CellOf(t, DATE_ADDED, i)));
  }

  /** Step 3 row by row: a date `pd.to_datetime` recognises is written as
      `YYYY-MM-DD` and its year and month are extracted; anything else
      becomes `""` with missing year and month. */
  lemma ProcessDatesRow(t: Table, parse: Cell -> Option<Date>, i: nat)
    requires WellFormed(t) && Has(t, DATE_ADDED) && i < t.height && SoundParser(parse)
    ensures var r := ProcessDates(t, parse);
      var p := parse(CellOf(t, DATE_ADDED, i));
      && Has(r, DATE_ADDED) && Has(r, YEAR_ADDED) && Has(r, MONTH_ADDED)
      && CellOf(r, DATE_ADDED, i) == (if p.Some? then Txt(Format(p.value)) else Txt(""))
      && CellOf(r, YEAR_ADDED, i) == (if p.Some? then Num(p.value.year as real) else Missing)
      && CellOf(r, MONTH_ADDED, i) == (if p.Some? then Num(p.value.month as real) else Missing)
  {
    var r := ProcessDates(t, parse);
    var x := CellOf(t, DATE_ADDED, i);
    var p := parse(x);
    ProcessDatesDate(t, parse, i);
    assert Has(r, YEAR_ADDED) && Has(r, MONTH_ADDED);
    var yj, mj := IndexOf(r, YEAR_ADDED), IndexOf(r, MONTH_ADDED);
    assert parse(DateCell(p)) == p by {
      if p.Some? { assert parse(x).Some?; }
    }
  }

  /** A `YYYY-MM-DD` date that the parser reads as that date comes out of
      step 3 as the same string. */
  lemma IsoDateUnchanged(t: Table, parse: Cell -> Option<Date>, i: nat)
    requires WellFormed(t) && Has(t, DATE_ADDED) && i < t.height
    requires CellOf(t, DATE_ADDED, i).Txt?
    requires var s := CellOf(t, DATE_ADDED, i).text;
      ParseIso(s).Some? && parse(Txt(s)) == ParseIso(s)
    ensures Has(ProcessDates(t, parse), DATE_ADDED)
    ensures CellOf(ProcessDates(t, parse), DATE_ADDED, i) == CellOf(t, DATE_ADDED, i)
  {
    ProcessDatesDate(t, parse, i);
    FormatParse(CellOf(t, DATE_ADDED, i).text);
  }

  // ---------------------------------------------------------------- step 4: duration

  const DURATION: string := "duration"
  const DURATION_VALUE: string := "duration_value"
  const DURATION_UNIT: string := "duration_unit"

  /** The unit used when a duration has no non-digit character. */
  const DEFAULT_UNIT: string := "min"

  /** Failures `clean_data` lets propagate. */
  datatype CleanError =
    /** `.str` used on a column whose dtype is not `object`: pandas raises
        `AttributeError`. */
    | NotText(column: string)

  /** `str.extract(r'(\d+)').astype(float)` on one cell: the first maximal
      run of digits read as a number, missing when there is none. */
  function DurationValue(x: Cell): (r: Cell)
    ensures r.Missing? || r.Num?
    ensures r.Num? <==> x.Txt? && exists i :: 0 <= i < |x.text| && IsDigit(x.text[i])
    ensures r.Num? ==> 0.0 <= r.value && r.value.Floor as real == r.value
  {
    match x
    case Txt(s) =>
      (match FirstRun(s, true)
       case Some(ds) => Num(DigitsValue(ds) as real)
       case None => Missing)
    case _ => Missing
  }

  /** `str.extract(r'(\D+)').fillna('min')` on one cell: the first maximal
      run of non-digits, `"min"` when there is none. */
  function DurationUnit(x: Cell): (r: Cell)
    ensures r.Txt? && r.text != [] && forall c :: c in r.text ==> !IsDigit(c)
    ensures x.Txt? && (exists i :: 0 <= i < |x.text| && !IsDigit(x.text[i])) ==>
      exists a: nat :: OccursAt(x.text, r.text, a)
    ensures !(x.Txt? && exists i :: 0 <= i < |x.text| && !IsDigit(x.text[i])) ==>
      r == Txt(DEFAULT_UNIT)
  {
    match x
    case Txt(s) =>
      (match FirstRun(s, false)
       case Some(u) => Txt(u)
       case None => Txt(DEFAULT_UNIT))
    case _ => Txt(DEFAULT_UNIT)
  }

  /** `duration_value` for a whole column. */
  function DurationValues(cells: seq<Cell>): (r: seq<Cell>)
    ensures |r| == |cells|
    ensures forall i :: 0 <= i < |cells| ==> r[i] == DurationValue(cells[i])
  {
    seq(|cells|, i requires 0 <= i < |cells| => DurationValue(cells[i]))
  }

  /** `duration_unit` for a whole column. */
  function DurationUnits(cells: seq<Cell>): (r: seq<Cell>)
    ensures |r| == |cells|
    ensures forall i :: 0 <= i < |cells| ==> r[i] == DurationUnit(cells[i])
  {
    seq(|cells|, i requires 0 <= i < |cells| => DurationUnit(cells[i]))
  }

  /** Step 4, when `duration` exists: `duration_value` and `duration_unit`
      are set from it and `duration` is dropped. A `duration` column that is
      not text makes `.str` raise. */
  function SplitDuration(t: Table): (r: Result<Table, CleanError>)
    requires WellFormed(t) && Has(t, DURATION)
    ensures r.Err? <==> t.columns[IndexOf(t, DURATION)].kind != Text
    ensures r.Ok? ==> WellFormed(r.value) && r.value.height == t.height
    ensures r.Ok? ==> forall n :: Has(r.value, n) <==>
      (Has(t, n) && n != DURATION) || n == DURATION_VALUE || n == DURATION_UNIT
  {
    var c := t.columns[IndexOf(t, DURATION)];
    if c.kind != Text then Err(NotText(DURATION))
    else
      var values := DurationValues(c.cells);
      var units := DurationUnits(c.cells);
      var t1 := SetColumn(t, Column(DURATION_VALUE, Numeric, values));
      var t2 := SetColumn(t1, Column(DURATION_UNIT, Text, units));
      assert forall n :: Has(t1, n) <==> Has(t, n) || n == DURATION_VALUE;
      assert forall n :: Has(t2, n) <==> Has(t1, n) || n == DURATION_UNIT;
      Ok(DropColumn(t2, DURATION))
  }

  /** Step 4 row by row: the value and unit of each row come from that row's
      duration, and `duration` itself is gone. */
  lemma SplitDurationRow(t: Table, i: nat)
    requires WellFormed(t) && Has(t, DURATION) && i < t.height
    requires SplitDuration(t).Ok?
    ensures var r := SplitDuration(t).value; var x := CellOf(t, DURATION, i);
      && !Has(r, DURATION) && Has(r, DURATION_VALUE) && Has(r, DURATION_UNIT)
      && CellOf(r, DURATION_VALUE, i) == DurationValue(x)
      && CellOf(r, DURATION_UNIT, i) == DurationUnit(x)
  {
    var r := SplitDuration(t).value;
    var c := t.columns[IndexOf(t, DURATION)];
    var t1 := SetColumn(t, Column(DURATION_VALUE, Numeric, DurationValues(c.cells)));
    var t2 := SetColumn(t1, Column(DURATION_UNIT, Text, DurationUnits(c.cells)));
    DropKeepsColumn(t2, DURATION, DURATION_VALUE);
    DropKeepsColumn(t2, DURATION, DURATION_UNIT);
  }

  /** Dropping one column leaves every other column as it was. */
  lemma DropKeepsColumn(t: Table, gone: string, kept: string)
    requires WellFormed(t) && Has(t, gone) && Has(t, kept) && gone != kept
    ensures Has(DropColumn(t, gone), kept)
    ensures DropColumn(t, gone).columns[IndexOf(DropColumn(t, gone), kept)]
         == t.columns[IndexOf(t, kept)]
  {
    var r := DropColumn(t, gone);
    var k := IndexOf(r, kept);
    var j := IndexOf(t, gone);
    var src := if k < j then k else k + 1;
    assert r.columns[k] == t.columns[src];
    IndexOfUnique(t, kept, src);
  }

  /** `"90 min"` gives the value 90 and the unit `" min"`: the unit keeps
      the blank before it. */
  lemma DurationOfMinutes()
    ensures DurationValue(Txt("90 min")) == Num(90.0)
    ensures DurationUnit(Txt("90 min")) == Txt(" min")
  {
    MinutesValue();
    MinutesUnit();
  }

  /** The value half of `DurationOfMinutes`. */
  lemma MinutesValue()
    ensures DurationValue(Txt("90 min")) == Num(90.0)
  {
    FirstRunIsLeftmostMaximal("90 min", true, 0, 2);
    assert "90 min"[0..2] == "90";
    assert "90"[..1] == "9" && DigitsValue("9") == 9;
  }

  /** The unit half of `DurationOfMinutes`. */
  lemma MinutesUnit()
    ensures DurationUnit(Txt("90 min")) == Txt(" min")
  {
    FirstRunIsLeftmostMaximal("90 min", false, 2, 6);
    assert "90 min"[2..6] == " min";
  }

  /** `"3 seasons"` gives the value 3 and the unit `" seasons"`. */
  lemma DurationOfSeasons()
    ensures DurationValue(Txt("3 seasons")) == Num(3.0)
    ensures DurationUnit(Txt("3 seasons")) == Txt(" seasons")
  {
    SeasonsValue();
    SeasonsUnit();
  }

  /** The value half of `DurationOfSeasons`. */
  lemma SeasonsValue()
    ensures DurationValue(Txt("3 seasons")) == Num(3.0)
  {
    FirstRunIsLeftmostMaximal("3 seasons", true, 0, 1);
    assert "3 seasons"[0..1] == "3";
  }

  /** The unit half of `DurationOfSeasons`. */
  lemma SeasonsUnit()
    ensures DurationUnit(Txt("3 seasons")) == Txt(" seasons")
  {
    FirstRunIsLeftmostMaximal("3 seasons", false, 1, 9);
    assert "3 seasons"[1..9] == " seasons";
  }

  /** A duration made only of digits, such as `"120"`, has unit `"min"`. */
  lemma DurationOfDigitsOnly()
    ensures DurationValue(Txt("120")) == Num(120.0)
    ensures DurationUnit(Txt("120")) == Txt(DEFAULT_UNIT)
  {
    FirstRunIsLeftmostMaximal("120", true, 0, 3);
    assert "120"[0..3] == "120";
    assert "120"[..2] == "12" && "12"[..1] == "1";
    assert DigitsValue("1") == 1 && DigitsValue("12") == 12;
  }

  /** A duration with no digit has no value, and unless it is empty it is
      itself the unit: a missing duration, filled as `"unknown"` in steps 1
      and 2, gets the unit `"unknown"`, not `"min"`. */
  lemma DurationNoDigits(s: string)
    requires forall i :: 0 <= i < |s| ==> !IsDigit(s[i])
    ensures DurationValue(Txt(s)) == Missing
    ensures s != [] ==> DurationUnit(Txt(s)) == Txt(s)
  {
    if s != [] {
      FirstRunIsLeftmostMaximal(s, false, 0, |s|);
      assert s[0..|s|] == s;
    }
  }

  // ---------------------------------------------------------------- step 5: duplicates

  /** Step 5, `df.drop_duplicates()`: the rows that do not equal an earlier
      row across all columns. pandas hands back an empty frame (one without
      columns or without rows) as it is, so a table with rows but no columns
      keeps all of its rows. */
  function DropDuplicates(t: Table): (r: Table)
    requires WellFormed(t)
    ensures WellFormed(r) && Names(r) == Names(t) && r.height <= t.height
    ensures |r.columns| == |t.columns|
    ensures forall j :: 0 <= j < |t.columns| ==> r.columns[j].kind == t.columns[j].kind
  {
    if t.columns == [] || t.height == 0 then t
    else SelectRows(t, Dedup.KeptIndices(Rows(t)))
  }

  /** The rows after step 5 are the input rows with duplicates dropped; a
      table without columns is returned whole. */
  lemma DropDuplicatesRows(t: Table)
    requires WellFormed(t)
    ensures t.columns == [] ==> DropDuplicates(t) == t
    ensures t.columns != [] ==> Rows(DropDuplicates(t)) == Dedup.KeepFirst(Rows(t))
  {
    if t.columns != [] {
      var idx := Dedup.KeptIndices(Rows(t));
      var r := DropDuplicates(t);
      if t.height == 0 {
        assert Rows(t) == [];
        assert Dedup.KeepFirst(Rows(t)) == [];
      } else {
        assert forall k :: 0 <= k < |idx| ==> Rows(r)[k] == Rows(t)[idx[k]];
      }
    }
  }

  /** After step 5 every input row is still there (its first occurrence).
      When the table has columns no two rows are equal and the rows keep the
      order of their first occurrences; without columns nothing changes. */
  lemma DropDuplicatesSpec(t: Table)
    requires WellFormed(t)
    ensures var rs := Rows(DropDuplicates(t));
      && (forall row :: row in rs <==> row in Rows(t))
      && (t.columns == [] ==> DropDuplicates(t) == t)
      && (t.columns != [] ==> Dedup.NoDuplicates(rs))
      && (t.columns != [] ==> forall k, l :: 0 <= k < l < |rs| ==>
            Dedup.FirstIndex(Rows(t), rs[k]) < Dedup.FirstIndex(Rows(t), rs[l]))
  {
    DropDuplicatesRows(t);
    if t.columns != [] {
      var rows := Rows(t);
      var rs := Rows(DropDuplicates(t));
      assert rs == Dedup.KeepFirst(rows);
      Dedup.KeepFirstNoDuplicates(rows);
      forall row ensures row in rs <==> row in rows {
        Dedup.KeepFirstSameValues(rows, row);
      }
      forall k, l | 0 <= k < l < |rs|
        ensures Dedup.FirstIndex(rows, rs[k]) < Dedup.FirstIndex(rows, rs[l])
      {
        Dedup.KeepFirstOrder(rows, k, l);
      }
    }
  }

  // ---------------------------------------------------------------- step 6: outliers

  /** `clip(lower, upper)` on one cell; missing cells stay missing. */
  function ClipCell(x: Cell, b: Range): Cell {
    match x
    case Num(v) => Num(Clip(v, b.lower, b.upper))
    case _ => x
  }

  /** The clipping bounds of a numeric column, `None` when it has no value
      (pandas' quantiles are then `NaN`, and `clip` ignores `NaN` bounds). */
  function ColumnBounds(c: Column): (b: Option<Range>)
    ensures b.Some? ==> b.value.lower <= b.value.upper
    ensures b.None? <==> Present(c.cells) == []
  {
    var xs := Present(c.cells);
    if xs == [] then None else Some(IqrBounds(Sort(xs)))
  }

  /** `clip(lower, upper)` on a column's cells. */
  function ClipCells(cells: seq<Cell>, b: Range): (r: seq<Cell>)
    ensures |r| == |cells|
    ensures forall i :: 0 <= i < |cells| ==> r[i] == ClipCell(cells[i], b)
  {
    seq(|cells|, i requires 0 <= i < |cells| => ClipCell(cells[i], b))
  }

  /** The body of `handle_outliers`' loop for one column: Q1, Q3, IQR, the
      fences, and every value clipped into them. */
  function ClipColumn(c: Column): (r: Column)
    requires ColumnOk(c, |c.cells|)
    ensures ColumnOk(r, |c.cells|) && r.name == c.name && r.kind == c.kind
  {
    match ColumnBounds(c)
    case None => c
    case Some(b) => c.(cells := ClipCells(c.cells, b))
  }

  /** Clipping one column cell by cell: values inside the fences are
      unchanged, values outside are moved to the nearer fence, missing cells
      stay missing, and no value ends up outside the fences. */
  lemma ClipColumnCell(c: Column, i: nat)
    requires ColumnOk(c, |c.cells|) && i < |c.cells| && ColumnBounds(c).Some?
    ensures var b := ColumnBounds(c).value; var x := c.cells[i];
      var y := ClipColumn(c).cells[i];
      && (x.Missing? ==> y == Missing)
      && (x.Num? ==> y.Num? && b.lower <= y.value <= b.upper)
      && (x.Num? && b.lower <= x.value <= b.upper ==> y == x)
      && (x.Num? && x.value < b.lower ==> y == Num(b.lower))
      && (x.Num? && x.value > b.upper ==> y == Num(b.upper))
  {
  }

  /** A numeric column with values in it, named by `name`. */
  predicate NumericColumn(t: Table, name: string) {
    Has(t, name) && t.columns[IndexOf(t, name)].kind == Numeric
  }

  /** One iteration of `handle_outliers`' loop: `df[name] = df[name].clip(...)`. */
  function ClipNamed(t: Table, name: string): (r: Table)
    requires WellFormed(t) && NumericColumn(t, name)
    ensures WellFormed(r) && r.height == t.height && Names(r) == Names(t)
    ensures |r.columns| == |t.columns|
    ensures forall k :: 0 <= k < |t.columns| ==>
      r.columns[k] == if k == IndexOf(t, name) then ClipColumn(t.columns[k]) else t.columns[k]
    ensures forall n :: NumericColumn(r, n) <==> NumericColumn(t, n)
  {
    var j := IndexOf(t, name);
    var r := ReplaceColumn(t, j, ClipColumn(t.columns[j]));
    forall n ensures NumericColumn(r, n) <==> NumericColumn(t, n) {
      if Has(t, n) {
        var k := IndexOf(t, n);
        assert r.columns[k].kind == t.columns[k].kind;
      }
    }
    r
  }

  /** `handle_outliers(df, numeric_cols)`: each listed column in turn is
      clipped to the fences computed from its current values. */
  function HandleOutliers(t: Table, names: seq<string>): (r: Table)
    requires WellFormed(t)
    requires forall n :: n in names ==> NumericColumn(t, n)
    ensures WellFormed(r) && r.height == t.height && Names(r) == Names(t)
    ensures |r.columns| == |t.columns|
    ensures forall j :: 0 <= j < |t.columns| ==> r.columns[j].kind == t.columns[j].kind
    decreases |names|
  {
    if names == [] then t
    else
      assert names[0] in names;
      var t1 := ClipNamed(t, names[0]);
      assert forall n :: n in names[1..] ==> n in names;
      HandleOutliers(t1, names[1..])
  }

  /** One iteration of the loop clips the column of that name and no other. */
  lemma ClipNamedColumn(t: Table, name: string, j: nat)
    requires WellFormed(t) && NumericColumn(t, name) && j < |t.columns|
    ensures ClipNamed(t, name).columns[j]
         == if t.columns[j].name == name then ClipColumn(t.columns[j]) else t.columns[j]
  {
    var k := IndexOf(t, name);
    if j != k {
      assert t.columns[j].name != name by { IndexOfUnique(t, name, k); }
    }
  }

  /** With distinct names, `handle_outliers` clips exactly the listed
      columns, each with the fences of its own values, and leaves every
      other column alone. */
  lemma {:induction false} HandleOutliersColumns(t: Table, names: seq<string>, j: nat)
    requires WellFormed(t) && Dedup.NoDuplicates(names)
    requires forall n :: n in names ==> NumericColumn(t, n)
    requires j < |t.columns|
    ensures HandleOutliers(t, names).columns[j]
         == if t.columns[j].name in names then ClipColumn(t.columns[j]) else t.columns[j]
    decreases |names|
  {
    if names != [] {
      var first, rest := names[0], names[1..];
      Dedup.HeadAndTail(names);
      var t1 := ClipNamed(t, first);
      HandleOutliersColumns(t1, rest, j);
      ClipNamedColumn(t, first, j);
    }
  }

  /** `df.select_dtypes(include=['int64', 'float64']).columns`: the names of
      the numeric columns, in column order. */
  function NumericNames(t: Table): (ns: seq<string>)
    requires WellFormed(t)
    ensures forall n :: n in ns <==> NumericColumn(t, n)
    ensures Dedup.NoDuplicates(ns)
  {
    var ns := NumericNamesFrom(t, 0);
    forall n ensures n in ns <==> NumericColumn(t, n) {
      if n in ns {
        var j :| 0 <= j < |t.columns| && t.columns[j].name == n && t.columns[j].kind == Numeric;
        IndexOfUnique(t, n, j);
      }
      if NumericColumn(t, n) {
        assert t.columns[IndexOf(t, n)].name == n;
      }
    }
    ns
  }

  /** Names of the numeric columns from position `from` on. */
  function NumericNamesFrom(t: Table, from: nat): (ns: seq<string>)
    requires WellFormed(t) && from <= |t.columns|
    ensures forall n :: n in ns <==>
      exists j :: from <= j < |t.columns| && t.columns[j].name == n && t.columns[j].kind == Numeric
    ensures Dedup.NoDuplicates(ns)
    ensures forall k :: 0 <= k < |ns| ==> ns[k] in Names(t)
    decreases |t.columns| - from
  {
    if from == |t.columns| then []
    else
      var rest := NumericNamesFrom(t, from + 1);
      var c := t.columns[from];
      if c.kind == Numeric then
        assert c.name !in rest;
        [c.name] + rest
      else rest
  }

  // ---------------------------------------------------------------- the pipeline

  /** Steps 1 to 3 of `clean_data`: missing values, text, and dates when a
      `date_added` column exists. */
  function Normalized(t: Table, parse: Cell -> Option<Date>): (r: Table)
    requires WellFormed(t)
    ensures WellFormed(r) && r.height == t.height
    ensures forall n :: Has(r, n) <==>
      Has(t, n) || (Has(t, DATE_ADDED) && (n == YEAR_ADDED || n == MONTH_ADDED))
  {
    var t2 := StandardizeText(FillMissing(t));
    if Has(t2, DATE_ADDED) then ProcessDates(t2, parse) else t2
  }

  /** Steps 1 to 5 of `clean_data`: the table `handle_outliers` is given. */
  function Prepared(t: Table, parse: Cell -> Option<Date>): (r: Result<Table, CleanError>)
    requires WellFormed(t)
    ensures r.Ok? ==> WellFormed(r.value)
  {
    var t3 := Normalized(t, parse);
    if Has(t3, DURATION) then
      match SplitDuration(t3)
      case Err(e) => Err(e)
      case Ok(t4) => Ok(DropDuplicates(t4))
    else Ok(DropDuplicates(t3))
  }

  /** `clean_data`: steps 1 to 5, then the outliers of every numeric column
      clipped. */
  function Clean(t: Table, parse: Cell -> Option<Date>): (r: Result<Table, CleanError>)
    requires WellFormed(t)
    ensures r.Ok? <==> Prepared(t, parse).Ok?
    ensures r.Err? ==> r == Prepared(t, parse)
    ensures r.Ok? ==> WellFormed(r.value) && Names(r.value) == Names(Prepared(t, parse).value)
    ensures r.Ok? ==> r.value.height == Prepared(t, parse).value.height
  {
    match Prepared(t, parse)
    case Err(e) => Err(e)
    case Ok(t5) => Ok(HandleOutliers(t5, NumericNames(t5)))
  }

  /** Setting one column leaves every column of another name as it was. */
  lemma SetColumnKeeps(t: Table, c: Column, n: string)
    requires WellFormed(t) && ColumnOk(c, t.height) && Has(t, n) && n != c.name
    ensures Has(SetColumn(t, c), n)
    ensures SetColumn(t, c).columns[IndexOf(SetColumn(t, c), n)] == t.columns[IndexOf(t, n)]
  {
    var r := SetColumn(t, c);
    var k := IndexOf(t, n);
    assert r.columns[k] == t.columns[k];
    IndexOfUnique(r, n, k);
  }

  /** Steps 1 to 3 keep the kind of every column other than the date
      columns. */
  lemma NormalizedKeepsKind(t: Table, parse: Cell -> Option<Date>, n: string)
    requires WellFormed(t) && Has(t, n)
    requires n != DATE_ADDED && n != YEAR_ADDED && n != MONTH_ADDED
    ensures Has(Normalized(t, parse), n)
    ensures Normalized(t, parse).columns[IndexOf(Normalized(t, parse), n)].kind
         == t.columns[IndexOf(t, n)].kind
  {
    var t2 := StandardizeText(FillMissing(t));
    var k := IndexOf(t, n);
    IndexOfUnique(t2, n, k);
    if Has(t2, DATE_ADDED) {
      var c := t2.columns[IndexOf(t2, DATE_ADDED)];
      var dates := FormatDates(c.cells, parse);
      var t3 := SetColumn(t2, Column(DATE_ADDED, Text, dates));
      var years := Years(dates, parse);
      var months := Months(dates, parse);
      var t4 := SetColumn(t3, Column(YEAR_ADDED, Numeric, years));
      SetColumnKeeps(t2, Column(DATE_ADDED, Text, dates), n);
      SetColumnKeeps(t3, Column(YEAR_ADDED, Numeric, years), n);
      SetColumnKeeps(t4, Column(MONTH_ADDED, Numeric, months), n);
    }
  }

  /** `clean_data` fails exactly when there is a `duration` column that is
      not text. */
  lemma CleanFailsOnlyOnDuration(t: Table, parse: Cell -> Option<Date>)
    requires WellFormed(t)
    ensures Clean(t, parse).Err? <==>
      Has(t, DURATION) && t.columns[IndexOf(t, DURATION)].kind != Text
  {
    if Has(t, DURATION) {
      NormalizedKeepsKind(t, parse, DURATION);
    }
  }

  /** Steps 1 to 5 never add rows, and their columns are the input's
      columns without `duration`, plus the date and duration columns. */
  lemma PreparedShape(t: Table, parse: Cell -> Option<Date>)
    requires WellFormed(t)
    requires Prepared(t, parse).Ok?
    ensures var p := Prepared(t, parse).value;
      && p.height <= t.height
      && forall n :: Has(p, n) <==>
           (Has(t, n) && n != DURATION)
           || (Has(t, DATE_ADDED) && (n == YEAR_ADDED || n == MONTH_ADDED))
           || (Has(t, DURATION) && (n == DURATION_VALUE || n == DURATION_UNIT))
  {
    var t3 := Normalized(t, parse);
    var p := Prepared(t, parse).value;
    assert DURATION != YEAR_ADDED && DURATION != MONTH_ADDED;
    assert Has(t3, DURATION) <==> Has(t, DURATION);
    var t4 := if Has(t3, DURATION) then SplitDuration(t3).value else t3;
    assert p == DropDuplicates(t4);
    forall n
      ensures Has(p, n) <==>
           (Has(t, n) && n != DURATION)
           || (Has(t, DATE_ADDED) && (n == YEAR_ADDED || n == MONTH_ADDED))
           || (Has(t, DURATION) && (n == DURATION_VALUE || n == DURATION_UNIT))
    {
      assert Has(p, n) <==> Has(t4, n);
      assert Has(t3, n) <==>
        Has(t, n) || (Has(t, DATE_ADDED) && (n == YEAR_ADDED || n == MONTH_ADDED));
    }
  }

  /** `clean_data` never adds rows, and its columns are the input's columns
      without `duration` (when it was split) plus `year_added` and
      `month_added` (when `date_added` exists) and `duration_value` and
      `duration_unit` (when `duration` exists). */
  lemma CleanShape(t: Table, parse: Cell -> Option<Date>)
    requires WellFormed(t)
    ensures Clean(t, parse).Ok? ==>
      var r := Clean(t, parse).value;
      && WellFormed(r) && r.height <= t.height
      && forall n :: Has(r, n) <==>
           (Has(t, n) && n != DURATION)
           || (Has(t, DATE_ADDED) && (n == YEAR_ADDED || n == MONTH_ADDED))
           || (Has(t, DURATION) && (n == DURATION_VALUE || n == DURATION_UNIT))
  {
    if Clean(t, parse).Ok? {
      var r := Clean(t, parse).value;
      var p := Prepared(t, parse).value;
      PreparedShape(t, parse);
      assert Names(r) == Names(p) && r.height == p.height;
      assert forall n :: Has(r, n) <==> Has(p, n);
    }
  }

  /** After clipping every numeric column, each value of a numeric column
      lies within the fences of that column's values before clipping. Values
      already inside keep their value, and missing cells stay missing. */
  lemma OutliersWithinFences(p: Table, j: nat, i: nat)
    requires WellFormed(p) && j < |p.columns| && i < p.height && p.columns[j].kind == Numeric
    ensures var x := p.columns[j].cells[i];
      var y := HandleOutliers(p, NumericNames(p)).columns[j].cells[i];
      && (x.Missing? <==> y.Missing?)
      && (y.Num? ==> var b := ColumnBounds(p.columns[j]).value;
            b.lower <= y.value <= b.upper && (b.lower <= x.value <= b.upper ==> y == x))
  {
    var names := NumericNames(p);
    IndexOfUnique(p, p.columns[j].name, j);
    assert p.columns[j].name in names;
    HandleOutliersColumns(p, names, j);
    if ColumnBounds(p.columns[j]).Some? {
      ClipColumnCell(p.columns[j], i);
    }
  }

  /** After `clean_data`, every value of every numeric column lies within the
      fences `Q1 - 1.5 * IQR` and `Q3 + 1.5 * IQR` computed from that column
      after steps 1 to 5, and the values that were already within them are
      unchanged. */
  lemma CleanWithinFences(t: Table, parse: Cell -> Option<Date>, j: nat, i: nat)
    requires WellFormed(t)
    ensures var c := Clean(t, parse);
      c.Ok? && j < |c.value.columns| && i < c.value.height && c.value.columns[j].kind == Numeric ==>
      var p := Prepared(t, parse).value; var x := p.columns[j].cells[i]; var y := c.value.columns[j].cells[i];
      && (x.Missing? <==> y.Missing?)
      && (y.Num? ==> var b := ColumnBounds(p.columns[j]).value;
            b.lower <= y.value <= b.upper && (b.lower <= x.value <= b.upper ==> y == x))
  {
    var c := Clean(t, parse);
    if c.Ok? && j < |c.value.columns| && i < c.value.height && c.value.columns[j].kind == Numeric {
      OutliersWithinFences(Prepared(t, parse).value, j, i);
    }
  }
}

/** The parts of `save_cleaned_data` that do not touch a file: which rows go
    into the sample workbook and what that workbook is called. */
module Saving {
  import opened Tables
  import Strings

  /** How many rows the sample workbook holds. */
  const SAMPLE_ROWS: nat := 100

  /** `df.head(100)`: the first hundred rows, or all rows of a shorter
      table, with every column kept. */
  function Sample(t: Table): (r: Table)
    requires WellFormed(t)
    ensures WellFormed(r) && Names(r) == Names(t)
    ensures r.height == if t.height < SAMPLE_ROWS then t.height else SAMPLE_ROWS
    ensures forall i :: 0 <= i < r.height ==> Row(r, i) == Row(t, i)
  {
    Head(t, SAMPLE_ROWS)
  }

  /** A table of at most a hundred rows is its own sample. */
  lemma SampleOfShort(t: Table)
    requires WellFormed(t) && t.height <= SAMPLE_ROWS
    ensures Sample(t) == t
  {
    var r := Sample(t);
    forall j | 0 <= j < |t.columns| ensures r.columns[j] == t.columns[j] {
      assert t.columns[j].cells[..t.height] == t.columns[j].cells;
    }
  }

  /** A file name without a dot gets `_sample` before its `.xlsx`. */
  lemma SamplePathOfPlainName(stem: string)
    requires '.' !in stem
    ensures Strings.SamplePath(stem + Strings.XLSX) == stem + Strings.SAMPLE_XLSX
  {
    forall i | 0 <= i <= |stem| ensures !Strings.OccursAt(stem, Strings.XLSX, i) {
      if i + |Strings.XLSX| <= |stem| {
        assert stem[i..i + |Strings.XLSX|][0] == stem[i];
      }
    }
    Strings.SamplePathOfXlsx(stem);
  }
}

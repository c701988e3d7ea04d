# Netflix catalogue cleaning, modelled in Dafny

`pycode.py` loads a media catalogue into a pandas `DataFrame`, cleans it
with `clean_data` and `handle_outliers`, and writes it (with a 100-row
sample) to Excel with `save_cleaned_data`. This project models the cleaning
pipeline and the pure parts of the export, and proves what each step
promises.

The table is stored by column, as pandas stores it (`Tables`): a
`Table` is a sequence of named `Column`s of equal length plus a row
count. A column carries a kind tag, `Text` for dtype `object` and
`Numeric` for `int64`/`float64`. A cell is `Missing` (`NaN`/`None`), `Txt`
or `Num` (an exact `real`).

The model has two layers.

- `Cleaning` defines each step of `clean_data` as a function on table
  values and proves its properties:
  1. fill missing values;
  2. strip and lower-case text;
  3. reformat `date_added` and derive `year_added` and `month_added`;
  4. split `duration` into `duration_value` and `duration_unit`;
  5. drop duplicate rows;
  6. clip outliers with the IQR rule.

  `Clean` chains the six steps and returns an error when `.str` would
  raise on a non-text `duration` column.
- `Frames.Frame` is the mutable data frame. Its methods make the same
  changes in place: loops over columns for steps 1 and 2, a loop over the
  names for `handle_outliers`, and one pass over the rows with a set of seen
  rows for `drop_duplicates`. Each method is proved to leave the frame
  holding what the matching `Cleaning` function computes from the old
  contents. `Frames.CleanData` works on a `Copy` (`df.copy()`) and leaves
  the caller's frame unchanged.

Supporting modules:

- `Strings`: Python's `str.strip`, `str.lower`, the first match of `\d+`
  and `\D+`, and `str.replace`.
- `Stats`: sorting, pandas' linear quantile, the median, the IQR fences and
  `clip`.
- `Dedup`: `duplicated`/`drop_duplicates` with `keep='first'` over any
  sequence.
- `Dates`: `strftime('%Y-%m-%d')` and a reader for the strings it writes.
- `Saving`: `head(100)` and the sample file name.

`pd.to_datetime(..., errors='coerce')` is a parameter `parse` of type
`Cell -> Option<Date>`, applied to each cell. The lemmas about step 3
assume only `Cleaning.SoundParser`, which says two things:

- it reads `""` as `NaT`;
- a date it produced, written as `YYYY-MM-DD`, reads back as that date.

Nothing is assumed about dates the parser never produces, such as those
outside the range of pandas' nanosecond timestamps. The date column itself
(`Cleaning.ProcessDatesDate`, `Cleaning.IsoDateUnchanged`) is described for
any parser.

Where the code and its accompanying description differ, the model follows
the code:

- `duration_unit` is the first run of non-digits, blank included. `"90 min"`
  gives `" min"`, not `"min"` (`Cleaning.DurationOfMinutes`).
- `"min"` is used only when the string has no non-digit character at all
  (`Cleaning.DurationOfDigitsOnly`). A duration without digits, such as the
  `"unknown"` that a missing duration becomes in steps 1 and 2, is its own
  unit (`Cleaning.DurationNoDigits`).
- `duration_value` comes from the first run of digits anywhere in the
  string, not only from a leading one.
- "No two rows are equal" holds after step 5 for a table with at least one
  column (`Cleaning.DropDuplicatesSpec`). `drop_duplicates` returns an empty
  frame as it is, and a frame without columns counts as empty, so its rows
  all stay.
  Step 6 clips values after deduplication, so two rows that differed only in
  outlying values can become equal again. The model states no claim about
  duplicates in the final table.

## Model

| member | source | states |
|---|---|---|
| Strings.Strip | pycode.py:47 | the result is the infix of the input that is left when only whitespace is removed before and after it; it has no whitespace at either end, and it is empty exactly when the input is all whitespace |
| Strings.StripOfStripped | pycode.py:47 | stripping a string without surrounding whitespace returns it unchanged |
| Strings.Lower | pycode.py:47 | lower-casing keeps the length, leaves no capital, keeps every other character, and maps each capital to its small letter (code point + 32) |
| Strings.Normalize | pycode.py:47 | `.str.strip().str.lower()` is the stripped infix of the input with each character lower-cased; it has no surrounding whitespace and no capital |
| Strings.NormalizeIdempotent | pycode.py:45-47 | normalising a normalised string changes nothing |
| Strings.FirstRun | pycode.py:65-66 | the match of `\d+` / `\D+` is absent exactly when the string has no character of that kind; when present it is non-empty and made only of such characters |
| Strings.FirstRunIsLeftmostMaximal | pycode.py:65-66 | the match is exactly the run that starts at the first character of the kind and cannot be extended to the right |
| Strings.PadDigitsRoundTrip | pycode.py:56 | a zero-padded number written in the given width reads back as the same number |
| Strings.DigitsRoundTrip | pycode.py:56 | a digit string reads as a number below 10^width that pads back to the same string |
| Strings.ReplaceAllAbsent | pycode.py:106 | `str.replace` returns a string without occurrences of the pattern unchanged |
| Strings.ReplaceAll | pycode.py:106 | `str.replace` with the pattern as its own replacement returns the input, and a replacement at least as long as the pattern never shortens it; which occurrences it replaces is stated by `ReplaceAllFirst` and `ReplaceAllAbsent` |
| Strings.ReplaceAllFirst | pycode.py:106 | replacement scans from the left: when the first occurrence of the pattern follows a prefix, the result is that prefix, the replacement, then the rest with its own occurrences replaced |
| Strings.XlsxFirstAfter | pycode.py:106 | `.xlsx` cannot overlap itself: after a part without `.xlsx`, the next `.xlsx` is the first occurrence |
| Strings.SamplePath | pycode.py:106 | the sample path is never shorter than the output path, and a path without `.xlsx` is kept as it is |
| Strings.SamplePathFirst | pycode.py:106 | every `.xlsx` is replaced from the left: the first becomes `_sample.xlsx` and the rest of the path is treated the same way |
| Strings.SamplePathOfXlsx | pycode.py:106 | a path whose only `.xlsx` is its extension gets `_sample` inserted before it |
| Strings.SamplePathOfDoubleXlsx | pycode.py:106 | in `a.xlsx.xlsx` both extensions are replaced, not only the last |
| Dates.Format | pycode.py:56 | `strftime('%Y-%m-%d')` yields ten characters with dashes at positions 4 and 7 |
| Dates.ParseIso | pycode.py:59-60 | reading a `YYYY-MM-DD` string only ever yields a real calendar day |
| Dates.ParseFormat | pycode.py:56-60 | a valid date, formatted and read back, is the same date |
| Dates.FormatParse | pycode.py:53-56 | a valid `YYYY-MM-DD` string, read and formatted, is the same string |
| Stats.Sort | pycode.py:23-24 | sorting yields an ascending permutation of the values |
| Stats.Quantile | pycode.py:23-24 | the linear quantile lies between the smallest and largest value, and between the two order statistics around position (n-1)q |
| Stats.QuantileMonotone | pycode.py:23-27 | a larger fraction never gives a smaller quantile, so Q1 <= Q3 |
| Stats.Median | pycode.py:41 | the median lies between the smallest and largest value |
| Stats.MedianIsHalfQuantile | pycode.py:41 | the median equals the linear quantile at 0.5 |
| Stats.IqrBounds | pycode.py:23-27 | lower fence <= Q1 <= Q3 <= upper fence |
| Stats.Clip | pycode.py:28 | with lower <= upper the result lies within the bounds; values inside are kept; values below become lower; values above become upper |
| Dedup.KeptIndices | pycode.py:71 | the kept positions ascend, none is a duplicate, and every non-duplicate position is kept |
| Dedup.KeepFirst | pycode.py:71 | `drop_duplicates(keep='first')` is no longer than the input and holds only its entries; `KeepFirstNoDuplicates`, `KeepFirstSameValues` and `KeepFirstOrder` say which entries |
| Dedup.KeepFirstNoDuplicates | pycode.py:71 | after dropping duplicates no two entries are equal |
| Dedup.KeepFirstSameValues | pycode.py:71 | dropping duplicates keeps every value of the input and adds none |
| Dedup.KeepFirstOrder | pycode.py:71 | the kept entries follow the order of their first occurrences in the input |
| Dedup.FirstIsKept | pycode.py:71 | an entry that is not a duplicate is the first occurrence of its value |
| Dedup.KeptIndicesOfDistinct | pycode.py:71 | in a sequence without repeats every position is kept |
| Dedup.KeepFirstOfDistinct | pycode.py:71 | dropping duplicates a second time changes nothing |
| Tables.Present | pycode.py:41 | the values pandas' reductions see are the non-missing numbers of the column, and nothing else |
| Tables.PresentCounts | pycode.py:41 | each number is present exactly as often as the cells holding it, so the median and quartiles see every repeat |
| Tables.SetColumn | pycode.py:59-60 | `df[name] = ...` replaces the column of that name in place or appends it; the table stays well formed and every other column is kept |
| Tables.ReplaceColumn | pycode.py:28 | `df[col] = ...` on an existing column replaces it where it stands; names and positions of all columns are kept |
| Tables.DropColumn | pycode.py:67 | after `drop` the column is gone and every other name is still there |
| Tables.SelectRows | pycode.py:71 | the selected table's k-th row is the input's row at the k-th position; names and kinds are kept |
| Tables.Head | pycode.py:105 | `head(n)` holds the first min(n, height) rows, in order, with the same columns |
| Cleaning.FillValue | pycode.py:38-41 | text columns are filled with `"Unknown"`; numeric columns with a number or, when no value is present, with nothing |
| Cleaning.FillColumn | pycode.py:38-41 | `fillna` on one column puts the fill value into every missing cell (nothing when there is none) and keeps every other cell, the name and the kind |
| Cleaning.FillMissing | pycode.py:37-41 | step 1 keeps the row count, the column names and well-formedness |
| Cleaning.FillMissingCell | pycode.py:37-41 | a missing text cell becomes `"Unknown"`; a missing numeric cell becomes the median of the present values (or stays missing if there are none); other cells are unchanged |
| Cleaning.FillValueIsMedian | pycode.py:41 | the fill value of a numeric column is its quantile at 0.5 and lies within its range |
| Cleaning.StandardizeText | pycode.py:45-47 | step 2 keeps the row count, the column names and well-formedness |
| Cleaning.NormalizeColumn | pycode.py:46-47 | a text column has every text cell normalised and its missing cells kept; a numeric column is unchanged |
| Cleaning.StandardizedTextIsClean | pycode.py:45-47 | after step 2 no text cell has surrounding whitespace or an upper-case letter |
| Cleaning.StandardizeTextIdempotent | pycode.py:45-47 | running step 2 twice gives the same table as running it once |
| Cleaning.MissingTextBecomesUnknown | pycode.py:37-47 | a missing text cell reads `"unknown"` after steps 1 and 2 |
| Cleaning.ProcessDates | pycode.py:51-60 | step 3 keeps the row count and adds exactly `year_added` and `month_added` to the column names |
| Cleaning.ProcessDatesDate | pycode.py:52-56 | for any parser, each date cell becomes its parsed date as `YYYY-MM-DD`, or `""` when unparsable |
| Cleaning.ProcessDatesRow | pycode.py:52-60 | per row, for a parser that reads its own dates back: a recognised date becomes `YYYY-MM-DD` with its year and month; anything else becomes `""` with missing year and month |
| Cleaning.IsoDateUnchanged | pycode.py:52-56 | for any parser that reads a `YYYY-MM-DD` string as that date, the string comes out of step 3 unchanged |
| Cleaning.SplitDuration | pycode.py:64-67 | step 4 fails exactly when `duration` is not text; otherwise the names become the old names without `duration` plus `duration_value` and `duration_unit` |
| Cleaning.DurationValue | pycode.py:65 | `str.extract(r'(\d+)').astype(float)` gives a whole number >= 0 exactly when the text holds a digit, and is missing otherwise |
| Cleaning.DurationUnit | pycode.py:66 | `str.extract(r'(\D+)').fillna('min')` gives a non-empty digit-free infix of the text when it has a non-digit, and `"min"` otherwise |
| Cleaning.SplitDurationRow | pycode.py:64-67 | per row: the value and unit come from that row's duration, and `duration` no longer exists |
| Cleaning.DropKeepsColumn | pycode.py:67 | dropping one column leaves every other column as it was |
| Cleaning.DurationOfMinutes | pycode.py:65-66 | `"90 min"` gives 90.0 and `" min"` |
| Cleaning.DurationOfSeasons | pycode.py:65-66 | `"3 seasons"` gives 3.0 and `" seasons"` |
| Cleaning.DurationOfDigitsOnly | pycode.py:65-66 | `"120"` gives 120.0 and the default unit `"min"` |
| Cleaning.DurationNoDigits | pycode.py:65-66 | a duration without digits has a missing value and, unless empty, is its own unit |
| Cleaning.DropDuplicates | pycode.py:71 | step 5 keeps names, kinds and well-formedness and never adds rows |
| Cleaning.DropDuplicatesRows | pycode.py:71 | the rows after step 5 are the input rows with later repeats removed; a table without columns is returned whole |
| Cleaning.DropDuplicatesSpec | pycode.py:71 | after step 5 every input row is still present; with at least one column no two rows are equal and rows keep the order of their first occurrences; without columns the table is unchanged |
| Cleaning.ColumnBounds | pycode.py:23-27 | a column has fences exactly when it has a value, and then lower <= upper |
| Cleaning.ClipColumn | pycode.py:22-28 | clipping keeps a column's name, kind and length |
| Cleaning.ClipColumnCell | pycode.py:28 | per cell: missing stays missing; every value ends within the fences; values inside are unchanged; values below or above become the nearer fence |
| Cleaning.ClipNamed | pycode.py:23-28 | one iteration clips only the named column and keeps names, row count and which columns are numeric |
| Cleaning.HandleOutliers | pycode.py:20-29 | `handle_outliers` keeps the row count, the column names and the column kinds |
| Cleaning.ClipNamedColumn | pycode.py:22-28 | one iteration changes the column of that name and no other |
| Cleaning.HandleOutliersColumns | pycode.py:22-28 | with distinct names, exactly the listed columns are clipped, each with the fences of its own values; the others are untouched |
| Cleaning.OutliersWithinFences | pycode.py:22-28 | after `handle_outliers` on the numeric columns, every value of a numeric column lies within the fences of that column's values before clipping; values already inside are kept and missing cells stay missing |
| Cleaning.NumericNames | pycode.py:75 | the selected names are exactly the numeric columns, without repeats |
| Cleaning.Normalized | pycode.py:36-61 | steps 1-3 keep the row count and add `year_added`/`month_added` only when `date_added` exists |
| Cleaning.Prepared | pycode.py:36-72 | steps 1-5 produce a well-formed table when they succeed |
| Cleaning.Clean | pycode.py:31-79 | `clean_data` fails exactly when steps 1-5 do; on success it keeps the names and the row count of step 5's table |
| Cleaning.SetColumnKeeps | pycode.py:59-60 | assigning one column leaves every column of another name as it was |
| Cleaning.NormalizedKeepsKind | pycode.py:37-60 | steps 1-3 keep the kind of every column except the date columns |
| Cleaning.CleanFailsOnlyOnDuration | pycode.py:64-66 | `clean_data` fails exactly when the input has a `duration` column that is not text |
| Cleaning.CleanShape | pycode.py:31-79 | when it succeeds, `clean_data` never adds rows. Its columns are the input's without `duration`, plus `year_added`/`month_added` when `date_added` exists, plus `duration_value`/`duration_unit` when `duration` exists |
| Cleaning.CleanWithinFences | pycode.py:74-76 | after a successful `clean_data` every value of a numeric column lies within the fences of that column after step 5. Values already inside keep their value and missing cells stay missing |
| Frames.Frame.Copy | pycode.py:33 | the copy holds the same table as the original |
| Frames.Frame.Assign | pycode.py:59-60 | the frame holds the table with that column set |
| Frames.Frame.Drop | pycode.py:67 | the frame holds the table without that column |
| Frames.Frame.FillMissing | pycode.py:37-41 | the loop over the columns leaves the frame holding step 1 of its old contents |
| Frames.Frame.StandardizeText | pycode.py:45-47 | the loop over the text columns leaves the frame holding step 2 of its old contents |
| Frames.Frame.ProcessDates | pycode.py:51-60 | the frame holds step 3 of its old contents when `date_added` exists, and is unchanged otherwise |
| Frames.Frame.SplitDuration | pycode.py:64-67 | the frame holds step 4 of its old contents, or on a non-text `duration` the error is returned and the frame is unchanged; without `duration` nothing changes |
| Frames.Frame.DropDuplicates | pycode.py:71 | an empty frame is left alone; otherwise one pass with a set of seen rows keeps exactly the rows `KeptIndices` keeps, so the frame holds step 5 of its old contents |
| Frames.Frame.ClipOutliers | pycode.py:23-28 | the quartiles, IQR and fences computed in the loop body clip the column exactly as `ClipNamed` does |
| Frames.Frame.HandleOutliers | pycode.py:20-29 | the loop over the names leaves the frame holding `HandleOutliers` of its old contents |
| Frames.CleanData | pycode.py:31-79 | the caller's frame is unchanged. The result is a fresh frame holding `Clean` of the input, or the error `Clean` reports |
| Saving.Sample | pycode.py:105 | the sample holds the first min(100, n) rows in order, with the same columns |
| Saving.SampleOfShort | pycode.py:105 | a table of at most 100 rows is its own sample |
| Saving.SamplePathOfPlainName | pycode.py:106 | a file name without a dot gets `_sample` before its `.xlsx` |

## Left out

- `load_data` (pycode.py:9-18) is not modelled. It reads a CSV file and only rewraps its errors.
- The Excel writing in `save_cleaned_data` (pycode.py:83-102, 107-124) is not modelled. This covers `ExcelWriter`, sheet names, `number_format`, column width and `get_column_letter`. The exception that the function catches and prints is left out for the same reason: it is file I/O in a foreign library.
- The conversion of `date_added` back to datetimes at the start of `save_cleaned_data` (pycode.py:84-85) is not modelled. It only changes how Excel stores the cells, and the model has no datetime cell kind.
- `print` messages, the unused imports and the `__main__` block are not modelled. None of them affects the table.
- `pd.to_datetime`'s own parsing is not modelled. It is a parameter, and its format inference across a whole column is reduced to parsing cell by cell.
- pandas' dtype inference is not modelled. Column kinds are fixed tags, and a text column never holds numbers.
- Cleaning.ProcessDates: `year_added` and `month_added` are tagged `Numeric`, so step 6 clips them. Under pandas 2 they are `int32` when every date parsed, and `select_dtypes(['int64', 'float64'])` would then skip them.
- Stats.Quantile: all arithmetic is on exact reals. Floating-point rounding in `quantile`, `median` and `astype(float)` is not modelled, and `NaN` is the `Missing` cell.
- Strings.Lower: covers ASCII and the Latin-1 capitals only. Python's full Unicode lower-casing tables are not modelled.
- Strings.ReplaceAll: its own contract states only the identity replacement and the length bound. Which occurrences are replaced is proved separately, by `Strings.ReplaceAllFirst` (scanning from the left) and `Strings.ReplaceAllAbsent`.
- Strings.IsDigit: `\d` is taken as the ASCII digits. Python's `re` also matches other Unicode decimal digits.
- Tables.WellFormed: column names are required to be distinct. pandas allows duplicate labels, and `df[col]` would then return a frame, not a column.
- Tables.SelectRows: the index labels that pandas keeps after `drop_duplicates` are not modelled. Only the positions of the rows are.
- Object columns that mix strings and numbers are not modelled.

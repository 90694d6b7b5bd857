# Balance-sheet reshaper, modelled in Dafny

This project models `FinancialDataTransformer` from `optimizer.py`. The class takes a tinyERP
balance sheet in *wide* form and turns it into *long* form. In wide form each row is a
(`Tipo`, `Grupo`, `Categoria`) line and there is one column per month, headed like `Mar/24`.
In long form there is one record per row and month column. Each record holds:

- the first day of the month as `YYYY-MM-01`;
- the year, the month number and the Portuguese month name;
- the copied `Tipo` and `Grupo`;
- the stripped `Categoria`;
- the cell's value, read with a decimal comma.

The long table is sorted by (`Data`, `Tipo`, `Grupo`, `Categoria`). A summary (date range,
entry count, distinct groups and categories) can be computed from it. The command line names
the output file after the input file.

The model is split into modules:

- `Wrappers`: `Option` and `Result`.
- `Text`: `str.strip`, `split('/')`, `replace` and code-point string ordering.
- `Numbers`: Python's `int()` on a year token, `f"{n}"` and `:02d`, and the decimal grammar
  that `pandas.to_numeric` accepts. `to_numeric` is modelled as exact rational values.
- `Months`: the two tables built by `__init__`. The transformer has no other state, so the
  tables are constants and the class needs no Dafny class.
- `Schema`: cells, rows, tables, records and the run's errors. A cell is `Missing` (pandas
  NaN) or `Present(text)`, where `text` is what `str()` renders.
- `Validation`: `_validate_input_data` and the date-column filter.
- `DateHeader`: `_parse_date_column` and the `Data` string.
- `Ordering`: the four-column sort key. NaN sorts last, as pandas' `na_position='last'`
  does. The sort itself is specified as a sorted permutation (`SortRecords`).
- `Reshape`: the nested loop of `transform_data`. It is written as the method
  `TransformData`, is proved against the function `Transform`, and comes with the lemmas
  about `Transform`.
- `Summary`: `generate_summary_stats`, without the money sums.
- `OutputPath`: the output-file rule in `main`.

A run that raises becomes a `Failure` carrying one `TransformError`:

| Error | Cause | Source |
|---|---|---|
| `MissingColumns(names)` | a required column is missing | optimizer.py:81-82 |
| `NoDateColumns` | no date columns | optimizer.py:86-87 |
| `HeaderShape` | the header does not split into exactly two parts | optimizer.py:101 |
| `YearNotInteger` | `int()` fails on the year | optimizer.py:103 |
| `UnknownMonth` | the month is unknown | optimizer.py:138 |
| `CategoryNotText` | a NaN `Categoria` has no `.strip()` | optimizer.py:150 |
| `NoRecords` | an empty frame has no `Data` column to sort by | optimizer.py:155-158 |

The `UnknownMonth` case works like this: `month_map.get` gives `None`, and formatting `None`
with `:02d` raises. So the failure happens at line 138, before the month-name lookup at
line 147.

The model follows the code as written in these places:

- **Header shape.** A header must contain exactly one `/`, because the split result is
  unpacked into two names.
- **Year token.** The year is whatever `int()` accepts: surrounding whitespace, a sign and
  `_` digit separators. `int()` skips the same whitespace as `str.strip()` except the four
  ASCII information separators U+001C to U+001F, so `Mar/\x1c24` is refused although
  `strip()` would remove a leading `\x1c`. It is not limited to two digits, and leading zeros are allowed:
  `Jan/05` is January 2005.
- **Thousands separators.** A value written with both a thousands point and a decimal comma,
  such as `1.500,00`, becomes `0.00`. Replacing `,` with `.` leaves two points, which
  `to_numeric` rejects, and the rejected value is zero-filled (`CellValueThousands`).
- **Output path.** The output path replaces *every* `.csv` in the input path, not only a
  final extension.

## Model

| member | source | states |
|---|---|---|
| Months.MonthOf | optimizer.py:56-59 | an abbreviation maps to a month 1..12 that has a name, and to nothing exactly when it is not one of the twelve |
| Months.MonthNumbersInOrder | optimizer.py:56-59 | the abbreviation table has exactly the twelve keys, `Jan`..`Dez`, numbered 1..12 in calendar order |
| Months.MonthNamesComplete | optimizer.py:61-65 | the month-name table is defined exactly on 1..12 |
| Months.MonthOfAbbreviation | optimizer.py:56-59 | the table is injective: month `m` comes from its own abbreviation and from no other string |
| Months.AbbreviationPlain | optimizer.py:56-59 | abbreviations have no margin whitespace and no `/`, so they survive the header split and strip |
| Months.MarchExample | optimizer.py:56-65 | `Mar` is month 3, named `Março` |
| Validation.Validate | optimizer.py:67-89 | the definition of `_validate_input_data`: missing identifying columns are reported before a lack of date columns; `ValidateMissing` and `ValidateDates` characterise it |
| Validation.MissingFromMembers | optimizer.py:77-80 | the missing list holds exactly the required names that are not columns |
| Validation.MissingRequired | optimizer.py:77-80 | the missing list is the required names in the order `Tipo`, `Grupo`, `Categoria`, each present only when absent from the columns |
| Validation.ValidateMissing | optimizer.py:80-82 | validation fails with `MissingColumns` exactly when a required column is absent, and names the missing ones |
| Validation.ValidateDates | optimizer.py:84-89 | with the required columns present, validation fails with `NoDateColumns` exactly when no column is a date column, and succeeds otherwise |
| Validation.DateColumns | optimizer.py:85 | the date columns are exactly the columns containing `/` other than `Total`, at most as many as the columns |
| Validation.DateColumnsAppend | optimizer.py:126 | the filter keeps column order: filtering a concatenation concatenates the filtered parts |
| Text.Strip | optimizer.py:101-102 | `strip()` yields a string with no margin whitespace, never longer than its input |
| Text.StripMargins | optimizer.py:101-102 | a string is its leading whitespace, its stripped form and its trailing whitespace, in that order |
| Text.MarginsPadded | optimizer.py:101-102 | the margins `strip()` removes from a padded non-empty stripped string are exactly the padding |
| Text.StripPadded | optimizer.py:101-102 | stripping whitespace margins from a stripped string gives that string back |
| Text.StripIdempotent | optimizer.py:150 | stripping twice is stripping once |
| Text.CountStrip | optimizer.py:101 | stripping keeps every occurrence of a non-whitespace character such as `/` |
| Text.SplitOn | optimizer.py:101 | `split` gives one more part than there are separators, and no part contains the separator |
| Text.JoinSplit | optimizer.py:101 | joining the parts of a split with the separator gives the original string |
| Text.SplitJoin | optimizer.py:101 | splitting a join of separator-free parts gives those parts |
| Text.ReplaceChar | optimizer.py:141 | replacing `,` with `.` keeps the length, keeps other characters and leaves no `,` |
| Text.ReplaceSeparator | optimizer.py:141 | replacing the single `,` between two comma-free pieces puts `.` in its place and changes nothing else |
| Text.ReplaceCharCount | optimizer.py:141 | after the replacement the number of `.` is the old number of `,` plus the old number of `.` |
| Text.StrLtTransitive | optimizer.py:158 | string order is transitive |
| Text.StrLtTrichotomy | optimizer.py:158 | string order is total |
| Numbers.ParseInt | optimizer.py:103 | the definition of `int()` on the year token: optional sign, digit run, and whitespace margins without information separators; the `ParseInt*` rows characterise it |
| Numbers.ParseIntOfIntToString | optimizer.py:103 | `int()` reads back every integer's decimal rendering |
| Numbers.ParseIntPadded | optimizer.py:103 | `int()` ignores whitespace around an integer's text, except the information separators U+001C to U+001F |
| Numbers.ParseIntDigits | optimizer.py:103 | `int()` of a plain digit string, leading zeros allowed and whitespace other than the information separators around it, is the digits' value |
| Numbers.ParseIntLeadingSeparator | optimizer.py:103 | an information separator after leading whitespace makes `int()` fail, whatever follows |
| Numbers.ParseIntNoFinalDigit | optimizer.py:103 | `int()` refuses a token that is empty or ends in neither whitespace nor a digit (`''`, `abc`, ` 24x`) |
| Numbers.NatToString | optimizer.py:138 | `f"{n}"` renders digits whose value is `n`, with no leading zero unless `n` is 0 |
| Numbers.Pad2 | optimizer.py:138 | `:02d` renders the value in at least two digits, exactly two below 100 |
| Numbers.ParseNumber | optimizer.py:141 | the definition of `pd.to_numeric` on one cell's text, as an exact rational or nothing; `ParseNumberOfIntToString`, `ParseNumberOfDecimal` and `AtMostOnePoint` characterise it |
| Numbers.ParseNumberOfIntToString | optimizer.py:141 | `to_numeric` reads an integer's rendering as that integer |
| Numbers.ParseNumberOfDecimal | optimizer.py:141 | `to_numeric` reads `ip.fp` as the digits' value divided by 10 to the fraction's length |
| Numbers.AtMostOnePoint | optimizer.py:141 | whatever `to_numeric` accepts has at most one `.` |
| Numbers.DigitsOrder | optimizer.py:158 | for digit strings of equal length, text order is numeric order, and equal texts are equal values |
| DateHeader.TokensCount | optimizer.py:101 | the stripped header splits into one more part than the header has `/` |
| DateHeader.TokensPadded | optimizer.py:101 | a padded `MMM/YY` header splits into its month and year tokens |
| DateHeader.ParseDateColumn | optimizer.py:101-104 | a parsed header's month, when known, is 1..12 and has a name; a failure is a bad shape or a non-integer year |
| DateHeader.ParseDateColumnShape | optimizer.py:101 | the header parse fails on shape exactly when the header does not contain exactly one `/` |
| DateHeader.ParseDateColumnOfHeader | optimizer.py:101-104 | every whitespace-padded `MMM/YY` header with a known abbreviation and a year token of plain digits, leading zeros allowed, after whitespace that `int()` skips, parses to its month and 2000 plus the digits' value |
| DateHeader.ParseDateColumnOfIntHeader | optimizer.py:101-104 | a whitespace-padded header of a known abbreviation and the rendering of any integer `yy`, sign included, after whitespace that `int()` skips, parses to its month and 2000 + `yy` |
| DateHeader.ParseDateColumnOfYearToken | optimizer.py:101-104 | a whitespace-padded header of a known abbreviation and a `/`-free year token that `int()` reads as `yy` parses to its month and 2000 + `yy` |
| DateHeader.ParseDateColumnYearRefused | optimizer.py:101-104 | a padded header of a known abbreviation whose year token (no `/`, empty or not ending in whitespace) `int()` refuses fails with `YearNotInteger` |
| DateHeader.ParseDateColumnSeparatedYear | optimizer.py:101-104 | an information separator between the `/` and the year digits makes the header fail with `YearNotInteger` |
| DateHeader.ParseDateColumnExample | optimizer.py:101-104 | `Mar/24` parses to March 2024 |
| DateHeader.ParseDateColumnPaddedYearExample | optimizer.py:101-104 | `Jan/05` parses to January 2005 |
| DateHeader.ParseDateColumnSeparatorExample | optimizer.py:101-104 | `Mar/\x1c24` fails with `YearNotInteger` |
| DateHeader.ParseDateColumnNoFinalDigit | optimizer.py:101-104 | a padded header of a known abbreviation whose year token is empty or ends in neither whitespace nor a digit (`Mar/`, `Mar/abc`, `Mar/24x`) fails with `YearNotInteger` |
| DateHeader.ParseDateColumnUnknownMonth | optimizer.py:102 | an unknown abbreviation yields no month rather than a parse error |
| DateHeader.DateString | optimizer.py:138 | the definition of the `Data` string `f"{year}-{month:02d}-01"`; `DateStringFields` and `DateStringChronological` characterise it |
| DateHeader.DateStringFields | optimizer.py:138 | for a year 0 and up, the `Data` string is the year's digits with no leading zero, `-`, the month in two digits, `-01` |
| DateHeader.DateStringNegativeYear | optimizer.py:138 | for a negative year (a header such as `Mar/-2001`), the `Data` string is `-`, the digits of the year's magnitude with no leading zero, `-`, the month in two digits, `-01` |
| DateHeader.DateStringExample | optimizer.py:138 | March 2024 is dated `2024-03-01` |
| DateHeader.DateStringChronological | optimizer.py:138 | for four-digit years, `Data` strings compare as (year, month) pairs, and are equal exactly when the pairs are |
| Ordering.KeyLt | optimizer.py:158 | the definition of the order `sort_values` uses: lexicographic on (`Data`, `Tipo`, `Grupo`, `Categoria`) with NaN last; the `KeyLt*` rows show it is a strict total order |
| Ordering.CellLtTransitive | optimizer.py:158 | the cell order, with NaN last, is transitive |
| Ordering.CellLtTrichotomy | optimizer.py:158 | the cell order is total |
| Ordering.KeyLtTransitive | optimizer.py:158 | the (`Data`, `Tipo`, `Grupo`, `Categoria`) order is transitive |
| Ordering.KeyLtTotal | optimizer.py:158 | any two records have equal keys or are ordered one way |
| Ordering.KeyLtAsymmetric | optimizer.py:158 | the key order is asymmetric |
| Ordering.Insert | optimizer.py:158 | inserting into a sorted sequence keeps it sorted and adds exactly that record |
| Ordering.SortRecords | optimizer.py:158 | `sort_values` yields a permutation of its input sorted by the key |
| Reshape.CellValue | optimizer.py:141-151 | the definition of a cell's `Valor`: comma to point, `to_numeric`, and 0 for what it refuses; the `CellValue*` rows characterise it |
| Reshape.CellValueInteger | optimizer.py:141-151 | an integer cell is valued at that integer |
| Reshape.CellValueDecimalComma | optimizer.py:141-151 | a cell `ip,fp` is valued at the digits divided by 10 to the fraction's length |
| Reshape.CellValueSeparators | optimizer.py:141-151 | a cell with two or more separators among `,` and `.` is zero-filled |
| Reshape.CellValueThousands | optimizer.py:141-151 | `1.500,00` is zero-filled |
| Reshape.CellValueCommaExample | optimizer.py:141-151 | `1500,50` is valued at 1500.5 |
| Reshape.RecordFor | optimizer.py:135-152 | the definition of the loop body for one row and date column; `RecordOfCases`, `RecordForErrorOrder`, `RecordForSuccess` and `RecordForFields` characterise it |
| Reshape.RecordOfCases | optimizer.py:135-152 | once the header is read: its error is kept, an unknown month fails before a NaN `Categoria`, and a record is built exactly when the month is known and `Categoria` is present, carrying the header's month and year |
| Reshape.RecordForErrorOrder | optimizer.py:135-150 | the loop body raises the header's own error first, then `UnknownMonth` for an unknown month before a NaN `Categoria` is reached, then `CategoryNotText` |
| Reshape.RecordForSuccess | optimizer.py:135-152 | a record is built exactly when the header parses, its month is known and `Categoria` is not NaN |
| Reshape.RecordForHeaderShape | optimizer.py:101-135 | the loop body fails on shape exactly when the header does not contain exactly one `/` |
| Reshape.RecordForErrorKinds | optimizer.py:135-152 | the loop body fails only with a shape, year, month or category error |
| Reshape.RecordForFields | optimizer.py:135-152 | a built record carries the header's month (1..12) and year, the month's name, the `Data` string, the row's `Tipo` and `Grupo`, the stripped `Categoria` and the cell's value |
| Reshape.RecordForExample | optimizer.py:135-152 | the row `" Vendas "` with `1500,50` under `Mar/24` becomes a March 2024 record for `Vendas` valued 1500.5 |
| Reshape.ReshapeCell | optimizer.py:135-152 | one pass of the inner loop body builds the record that `RecordFor` specifies, or raises its error |
| Reshape.Grid | optimizer.py:133-134 | the nested loop visits one cell per row and date column |
| Reshape.ProducedSuccess | optimizer.py:133-152 | the loop completes exactly when every cell succeeds, and then lists rows × columns records in row-major order |
| Reshape.ProducedFailure | optimizer.py:133-152 | a failed loop raises the error of the first failing cell in row-major order |
| Reshape.ProducedMembers | optimizer.py:133-152 | the records of a completed loop are exactly those built for some row and date column |
| Reshape.FieldsPresent | optimizer.py:144-150 | once validation passes, every row has the required fields and every date column |
| Reshape.ReshapeRow | optimizer.py:134-152 | the inner loop over the date columns of one row appends that row's records in column order, or stops with the error of the row's first failing column |
| Reshape.Transform | optimizer.py:117-158 | the definition of `transform_data` without file I/O; the `Transform*` rows characterise it |
| Reshape.TransformData | optimizer.py:117-158 | the validation, nested loop and sort compute `Transform` |
| Reshape.TransformSuccess | optimizer.py:117-158 | a successful run passed validation, its loop completed, and it returns a sorted permutation of the loop's rows × columns records, at least one |
| Reshape.TransformMembers | optimizer.py:133-158 | the records of a successful run are exactly those built for some row and date column |
| Reshape.TransformErrors | optimizer.py:120-158 | a validation error is the run's error, and the run fails for want of records exactly when validation passes and there are no rows |
| Reshape.TransformLoopFailure | optimizer.py:133-158 | on valid, nonempty input any failure is the loop's failure |
| Reshape.ProducedErrorKinds | optimizer.py:133-152 | the loop itself never reports a lack of records |
| Reshape.ProducedEmpty | optimizer.py:133-152 | with date columns present, the loop yields no records exactly when there are no rows |
| Reshape.TransformMemberFrom | optimizer.py:133-158 | each record of a successful run is the one built for some row and date column |
| Reshape.TransformMemberOf | optimizer.py:133-158 | the record built for each row and date column of a successful run is in its output |
| Reshape.TransformRecordRow | optimizer.py:133-152 | each record of a run comes from one input row, whose fields it carries |
| Reshape.TransformRowRecord | optimizer.py:133-152 | each input row contributes a record to a successful run |
| Reshape.SortedIsChronological | optimizer.py:138-158 | records sorted by the key with four-digit years are in (year, month) order |
| Reshape.TransformChronological | optimizer.py:138-158 | the output of a run with four-digit years is in calendar order |
| Summary.MinData | optimizer.py:182 | `min()` gives no value on an empty table, and otherwise the date of some record |
| Summary.MaxData | optimizer.py:183 | `max()` gives no value on an empty table, and otherwise the date of some record |
| Summary.MinDataLeast | optimizer.py:182 | no record is dated before the minimum |
| Summary.MaxDataGreatest | optimizer.py:183 | no record is dated after the maximum |
| Summary.GroupSet | optimizer.py:188 | the groups counted are exactly the records' non-NaN groups, never more than the records |
| Summary.CategorySet | optimizer.py:189 | the categories counted are exactly the records' categories, never more than the records |
| Summary.Summarize | optimizer.py:179-190 | the entry count is the number of records and bounds both distinct counts, and the date range exists exactly when there are records |
| Summary.SortedDateRange | optimizer.py:182-183 | on sorted records the range runs from the first record's date to the last's |
| Summary.TransformSummary | optimizer.py:179-190 | after a run there are rows × date-columns entries, the range is first to last record, and the distinct counts are those of the input rows |
| Summary.GroupsFromRows | optimizer.py:188 | every group counted after a run is a non-NaN group of some input row |
| Summary.GroupsOfRows | optimizer.py:188 | every non-NaN group of an input row is counted after a run |
| Summary.CategoriesFromRows | optimizer.py:189 | every category counted after a run is the stripped category of some input row |
| Summary.CategoriesOfRows | optimizer.py:189 | every stripped input category is counted after a run |
| Summary.RowInSets | optimizer.py:188-189 | each input row's non-NaN group and stripped category are counted in the run's summary |
| Summary.TransformUniqueSets | optimizer.py:188-189 | the run's distinct groups and stripped categories are exactly the input rows' |
| OutputPath.OutputPath | optimizer.py:202 | the definition of the output path, `replace('.csv', '_optimized.csv')`; the other `OutputPath*` rows characterise it |
| OutputPath.OutputPathLength | optimizer.py:202 | each replaced `.csv` lengthens the path by 10 |
| OutputPath.OutputPathUnchanged | optimizer.py:202 | the output path equals the input path exactly when the input contains no `.csv` |
| OutputPath.OutputPathSplit | optimizer.py:202 | the first `.csv` is replaced and the rest of the path is processed in the same way |
| OutputPath.OutputPathDoubleExtension | optimizer.py:202 | `base.csv.csv`, with no `.csv` in `base`, becomes `base_optimized.csv_optimized.csv` |
| OutputPath.OutputPathOfCsvName | optimizer.py:202 | `base.csv`, with no other `.csv` in `base`, becomes `base_optimized.csv` |
| OutputPath.OutputPathExample | optimizer.py:202 | `balanco.csv` becomes `balanco_optimized.csv` |

## Left out

- Reading and writing CSV files are not modelled. The input is a `Table` value and the run's output is the returned records. The UTF-8 BOM encoding of the output file is also not modelled.
- Logging and the re-raise in the `except` block are not modelled. Only the error's kind is kept; Python's messages are not, apart from the names in `MissingColumns`.
- `main`'s argument-count check, its usage message, `sys.exit` and the summary printout are not modelled. Only the output-path rule is.
- `total_income` and `total_expenses` in the summary are not modelled. They are floating-point sums.
- Reshape.CellValue: does not model `round(float(value), 2)` or binary floating point. The value is the exact rational the text denotes.
- Reshape.CellValue: does not model the `inf`, `nan` and similar literals that `to_numeric` also accepts. They are read as not numeric and zero-filled.
- Reshape.CellValue: does not model the limits of pandas' float parser. A value with an exponent beyond the double range, such as `1e400`, is read here as the exact rational (10 to the 400th). pandas does not produce that value: it gives a non-finite or coerced result instead.
- Schema.Cell: pandas type inference is reduced to text cells and NaN. A column pandas reads as numbers is modelled through the text `str()` renders for it. `Categoria` values that are numbers, which would fail `.strip()` just like NaN, are not distinguished.
- Numbers.ParseInt: accepts only the ASCII digits `0`-`9`. Python's `int()` also accepts the decimal digits of other scripts, such as Arabic-Indic or full-width digits.
- Ordering.SortRecords: does not model the order pandas gives to records with equal keys. Any sorted permutation is accepted, so stability is not claimed.
- Summary.Summarize: an empty table's `NaN` date bounds are `None`.
